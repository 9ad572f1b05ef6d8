/** What the REST layer's SQL statements mean: a parser from tokens to statements, and their
    evaluation on a table with bindings consumed from left to right. */
module SqlMeaning {
  import opened Prelude
  import opened SqlText
  import Decimal

  // ---- Statements -----------------------------------------------------------------------

  datatype CmpOp = Eq | Neq | Gt | Gte | Lt | Lte | Like

  /** One conjunct: a comparison with the next binding, or a test for NULL. */
  datatype Test = IsNull | NotNull | Compare(op: CmpOp)

  datatype Cond = Cond(column: string, test: Test)

  datatype Term = Term(column: string, descending: bool)

  /** columns is None for *; every column of an UPDATE or INSERT takes one binding. */
  datatype Stmt =
    | Select(columns: Option<seq<string>>, table: string, conds: seq<Cond>, order: seq<Term>, limit: nat, offset: nat)
    | Insert(table: string, names: seq<string>)
    | Update(table: string, sets: seq<string>, conds: seq<Cond>)
    | Delete(table: string, conds: seq<Cond>)

  // ---- Their tokens ---------------------------------------------------------------------

  function OpTokens(op: CmpOp): seq<Token>
  {
    match op
    case Eq => [Sym("=")]
    case Neq => [Sym("!=")]
    case Gt => [Sym(">")]
    case Gte => [Sym(">=")]
    case Lt => [Sym("<")]
    case Lte => [Sym("<=")]
    case Like => [Word("LIKE")]
  }

  function CondTokens(c: Cond): seq<Token>
  {
    [Ident(c.column)] +
    match c.test
    case IsNull => [Word("IS"), Word("NULL")]
    case NotNull => [Word("IS"), Word("NOT"), Word("NULL")]
    case Compare(op) => OpTokens(op) + [Sym("?")]
  }

  function TermTokens(t: Term): seq<Token>
  {
    [Ident(t.column), Word(if t.descending then "DESC" else "ASC")]
  }

  // ---- Parsing --------------------------------------------------------------------------

  type Parsed<T> = Option<(T, seq<Token>)>

  function ReadOp(toks: seq<Token>): Parsed<CmpOp>
  {
    if toks == [] then None
    else if toks[0] == Sym("=") then Some((Eq, toks[1..]))
    else if toks[0] == Sym("!=") then Some((Neq, toks[1..]))
    else if toks[0] == Sym(">") then Some((Gt, toks[1..]))
    else if toks[0] == Sym(">=") then Some((Gte, toks[1..]))
    else if toks[0] == Sym("<") then Some((Lt, toks[1..]))
    else if toks[0] == Sym("<=") then Some((Lte, toks[1..]))
    else if toks[0] == Word("LIKE") then Some((Like, toks[1..]))
    else None
  }

  function ReadTest(toks: seq<Token>): (r: Parsed<Test>)
    ensures r.Some? ==> |r.value.1| < |toks|
  {
    if toks != [] && toks[0] == Word("IS") then
      if |toks| >= 2 && toks[1] == Word("NULL") then Some((IsNull, toks[2..]))
      else if |toks| >= 3 && toks[1] == Word("NOT") && toks[2] == Word("NULL") then Some((NotNull, toks[3..]))
      else None
    else
      match ReadOp(toks)
      case None => None
      case Some((op, rest)) => if rest != [] && rest[0] == Sym("?") then Some((Compare(op), rest[1..])) else None
  }

  function ReadCond(toks: seq<Token>): (r: Parsed<Cond>)
    ensures r.Some? ==> |r.value.1| < |toks|
  {
    if toks == [] || !toks[0].Ident? then None
    else
      match ReadTest(toks[1..])
      case None => None
      case Some((test, rest)) => Some((Cond(toks[0].name, test), rest))
  }

  /** A list of items with a separator token between them. */
  function ReadConds(toks: seq<Token>): Parsed<seq<Cond>>
    decreases |toks|
  {
    match ReadCond(toks)
    case None => None
    case Some((c, rest)) =>
      if rest != [] && rest[0] == Word("AND") then
        match ReadConds(rest[1..])
        case None => None
        case Some((cs, rest')) => Some(([c] + cs, rest'))
      else Some(([c], rest))
  }

  function ReadNames(toks: seq<Token>): Parsed<seq<string>>
    decreases |toks|
  {
    if toks == [] || !toks[0].Ident? then None
    else if |toks| >= 2 && toks[1] == Sym(",") then
      match ReadNames(toks[2..])
      case None => None
      case Some((ns, rest)) => Some(([toks[0].name] + ns, rest))
    else Some(([toks[0].name], toks[1..]))
  }

  function ReadSets(toks: seq<Token>): Parsed<seq<string>>
    decreases |toks|
  {
    if |toks| < 3 || !toks[0].Ident? || toks[1] != Sym("=") || toks[2] != Sym("?") then None
    else if |toks| >= 4 && toks[3] == Sym(",") then
      match ReadSets(toks[4..])
      case None => None
      case Some((ns, rest)) => Some(([toks[0].name] + ns, rest))
    else Some(([toks[0].name], toks[3..]))
  }

  function ReadTerms(toks: seq<Token>): Parsed<seq<Term>>
    decreases |toks|
  {
    if |toks| < 2 || !toks[0].Ident? || (toks[1] != Word("ASC") && toks[1] != Word("DESC")) then None
    else
      var t := Term(toks[0].name, toks[1] == Word("DESC"));
      if |toks| >= 3 && toks[2] == Sym(",") then
        match ReadTerms(toks[3..])
        case None => None
        case Some((ts, rest)) => Some(([t] + ts, rest))
      else Some(([t], toks[2..]))
  }

  /** How many placeholders there are in ?, ?, …. */
  function ReadMarks(toks: seq<Token>): Parsed<nat>
    decreases |toks|
  {
    if toks == [] || toks[0] != Sym("?") then None
    else if |toks| >= 2 && toks[1] == Sym(",") then
      match ReadMarks(toks[2..])
      case None => None
      case Some((n, rest)) => Some((n + 1, rest))
    else Some((1, toks[1..]))
  }

  function ReadWhere(toks: seq<Token>): Parsed<seq<Cond>>
  {
    if toks != [] && toks[0] == Word("WHERE") then ReadConds(toks[1..]) else Some(([], toks))
  }

  function ReadOrderBy(toks: seq<Token>): Parsed<seq<Term>>
  {
    if |toks| >= 2 && toks[0] == Word("ORDER") && toks[1] == Word("BY") then ReadTerms(toks[2..]) else Some(([], toks))
  }

  function ReadColumns(toks: seq<Token>): Parsed<Option<seq<string>>>
  {
    if toks != [] && toks[0] == Sym("*") then Some((None, toks[1..]))
    else
      match ReadNames(toks)
      case None => None
      case Some((ns, rest)) => Some((Some(ns), rest))
  }

  predicate IsNumber(t: Token)
  {
    t.Number? && forall c :: c in t.digits ==> Decimal.IsDigit(c)
  }

  function ReadPage(toks: seq<Token>): Option<(nat, nat)>
  {
    if |toks| == 4 && toks[0] == Word("LIMIT") && IsNumber(toks[1]) && toks[2] == Word("OFFSET") && IsNumber(toks[3])
    then Some((Decimal.Value(toks[1].digits), Decimal.Value(toks[3].digits)))
    else None
  }

  /** The last stage of a SELECT: its page. */
  function ReadPaged(columns: Option<seq<string>>, table: string, conds: seq<Cond>, order: seq<Term>, toks: seq<Token>)
    : Option<Stmt>
  {
    match ReadPage(toks)
    case None => None
    case Some((limit, offset)) => Some(Select(columns, table, conds, order, limit, offset))
  }

  function ReadOrdered(columns: Option<seq<string>>, table: string, conds: seq<Cond>, toks: seq<Token>): Option<Stmt>
  {
    match ReadOrderBy(toks)
    case None => None
    case Some((order, rest)) => ReadPaged(columns, table, conds, order, rest)
  }

  function ReadFiltered(columns: Option<seq<string>>, table: string, toks: seq<Token>): Option<Stmt>
  {
    match ReadWhere(toks)
    case None => None
    case Some((conds, rest)) => ReadOrdered(columns, table, conds, rest)
  }

  function ReadSelect(toks: seq<Token>): Option<Stmt>
  {
    match ReadColumns(toks)
    case None => None
    case Some((columns, rest)) =>
      if |rest| < 2 || rest[0] != Word("FROM") || !rest[1].Ident? then None
      else ReadFiltered(columns, rest[1].name, rest[2..])
  }

  function ReadInsert(toks: seq<Token>): Option<Stmt>
  {
    if |toks| < 3 || toks[0] != Word("INTO") || !toks[1].Ident? || toks[2] != Sym("(") then None
    else
      match ReadNames(toks[3..])
      case None => None
      case Some((names, rest)) =>
        if |rest| < 3 || rest[..3] != [Sym(")"), Word("VALUES"), Sym("(")] then None
        else
          match ReadMarks(rest[3..])
          case None => None
          case Some((marks, end)) =>
            if end == [Sym(")"), Word("RETURNING"), Sym("*")] && marks == |names| then Some(Insert(toks[1].name, names))
            else None
  }

  function ReadUpdate(toks: seq<Token>): Option<Stmt>
  {
    if |toks| < 2 || !toks[0].Ident? || toks[1] != Word("SET") then None
    else
      match ReadSets(toks[2..])
      case None => None
      case Some((sets, rest)) =>
        match ReadWhere(rest)
        case None => None
        case Some((conds, end)) => if end == [] then Some(Update(toks[0].name, sets, conds)) else None
  }

  function ReadDelete(toks: seq<Token>): Option<Stmt>
  {
    if |toks| < 2 || toks[0] != Word("FROM") || !toks[1].Ident? then None
    else
      match ReadWhere(toks[2..])
      case None => None
      case Some((conds, end)) => if end == [] then Some(Delete(toks[1].name, conds)) else None
  }

  function Parse(toks: seq<Token>): Option<Stmt>
  {
    if toks == [] then None
    else if toks[0] == Word("SELECT") then ReadSelect(toks[1..])
    else if toks[0] == Word("INSERT") then ReadInsert(toks[1..])
    else if toks[0] == Word("UPDATE") then ReadUpdate(toks[1..])
    else if toks[0] == Word("DELETE") then ReadDelete(toks[1..])
    else None
  }

  /** The statement a text stands for. */
  function Prepare(sql: string): Option<Stmt>
  {
    match Tokens(sql) case None => None case Some(toks) => Parse(toks)
  }

  // ---- Parsing undoes writing -----------------------------------------------------------

  /** The first token of what follows a list, which must not continue it. */
  predicate Ends(rest: seq<Token>, sep: Token)
  {
    rest == [] || rest[0] != sep
  }

  lemma CondReads(c: Cond, rest: seq<Token>)
    ensures ReadCond(CondTokens(c) + rest) == Some((c, rest))
  {
    var toks := CondTokens(c) + rest;
    match c.test
    case IsNull => assert toks[1..] == [Word("IS"), Word("NULL")] + rest && toks[1..][2..] == rest;
    case NotNull => assert toks[1..] == [Word("IS"), Word("NOT"), Word("NULL")] + rest && toks[1..][3..] == rest;
    case Compare(op) =>
      assert toks[1..][0] == OpTokens(op)[0];
      assert toks[1..][1..] == [Sym("?")] + rest && toks[1..][1..][1..] == rest;
  }

  /** A written list taken apart at its first item. */
  lemma {:induction false} ListSplits<T>(xs: seq<T>, f: T -> seq<Token>, sep: Token, rest: seq<Token>)
    requires xs != []
    ensures ListTokens(xs, f, sep) + rest ==
      f(xs[0]) + if |xs| == 1 then rest else [sep] + (ListTokens(xs[1..], f, sep) + rest)
  {
    if |xs| > 1 {
      var tail := ListTokens(xs[1..], f, sep);
      Associates(f(xs[0]), [sep] + tail, rest);
      Associates([sep], tail, rest);
    }
  }

  lemma {:induction false} ReadCondsStep(c: Cond, rest: seq<Token>)
    ensures Ends(rest, Word("AND")) ==> ReadConds(CondTokens(c) + rest) == Some(([c], rest))
    ensures ReadConds(rest).Some? ==>
      ReadConds(CondTokens(c) + ([Word("AND")] + rest)) ==
        Some(([c] + ReadConds(rest).value.0, ReadConds(rest).value.1))
  {
    CondReads(c, rest);
    CondReads(c, [Word("AND")] + rest);
    assert ([Word("AND")] + rest)[1..] == rest;
  }

  lemma {:induction false} CondsRead(cs: seq<Cond>, rest: seq<Token>)
    requires cs != [] && Ends(rest, Word("AND"))
    ensures ReadConds(ListTokens(cs, CondTokens, Word("AND")) + rest) == Some((cs, rest))
  {
    ListSplits(cs, CondTokens, Word("AND"), rest);
    if |cs| == 1 {
      ReadCondsStep(cs[0], rest);
      assert [cs[0]] == cs;
    } else {
      ReadCondsStep(cs[0], ListTokens(cs[1..], CondTokens, Word("AND")) + rest);
      CondsRead(cs[1..], rest);
      assert [cs[0]] + cs[1..] == cs;
    }
  }

  function NameTokens(n: string): seq<Token>
  {
    [Ident(n)]
  }

  lemma {:induction false} ReadNamesStep(n: string, rest: seq<Token>)
    ensures Ends(rest, Sym(",")) ==> ReadNames(NameTokens(n) + rest) == Some(([n], rest))
    ensures ReadNames(rest).Some? ==>
      ReadNames(NameTokens(n) + ([Sym(",")] + rest)) ==
        Some(([n] + ReadNames(rest).value.0, ReadNames(rest).value.1))
  {
    assert (NameTokens(n) + rest)[1..] == rest;
    assert (NameTokens(n) + ([Sym(",")] + rest))[2..] == rest;
  }

  lemma {:induction false} NamesRead(ns: seq<string>, rest: seq<Token>)
    requires ns != [] && Ends(rest, Sym(","))
    ensures ReadNames(ListTokens(ns, NameTokens, Sym(",")) + rest) == Some((ns, rest))
  {
    ListSplits(ns, NameTokens, Sym(","), rest);
    if |ns| == 1 {
      ReadNamesStep(ns[0], rest);
      assert [ns[0]] == ns;
    } else {
      ReadNamesStep(ns[0], ListTokens(ns[1..], NameTokens, Sym(",")) + rest);
      NamesRead(ns[1..], rest);
      assert [ns[0]] + ns[1..] == ns;
    }
  }

  function SetTokens(n: string): seq<Token>
  {
    [Ident(n), Sym("="), Sym("?")]
  }

  lemma {:induction false} ReadSetsStep(n: string, rest: seq<Token>)
    ensures Ends(rest, Sym(",")) ==> ReadSets(SetTokens(n) + rest) == Some(([n], rest))
    ensures ReadSets(rest).Some? ==>
      ReadSets(SetTokens(n) + ([Sym(",")] + rest)) ==
        Some(([n] + ReadSets(rest).value.0, ReadSets(rest).value.1))
  {
    assert (SetTokens(n) + rest)[3..] == rest;
    assert (SetTokens(n) + ([Sym(",")] + rest))[4..] == rest;
  }

  lemma {:induction false} SetsRead(ns: seq<string>, rest: seq<Token>)
    requires ns != [] && Ends(rest, Sym(","))
    ensures ReadSets(ListTokens(ns, SetTokens, Sym(",")) + rest) == Some((ns, rest))
  {
    ListSplits(ns, SetTokens, Sym(","), rest);
    if |ns| == 1 {
      ReadSetsStep(ns[0], rest);
      assert [ns[0]] == ns;
    } else {
      ReadSetsStep(ns[0], ListTokens(ns[1..], SetTokens, Sym(",")) + rest);
      SetsRead(ns[1..], rest);
      assert [ns[0]] + ns[1..] == ns;
    }
  }

  lemma {:induction false} ReadTermsStep(t: Term, rest: seq<Token>)
    ensures Ends(rest, Sym(",")) ==> ReadTerms(TermTokens(t) + rest) == Some(([t], rest))
    ensures ReadTerms(rest).Some? ==>
      ReadTerms(TermTokens(t) + ([Sym(",")] + rest)) ==
        Some(([t] + ReadTerms(rest).value.0, ReadTerms(rest).value.1))
  {
    assert (TermTokens(t) + rest)[2..] == rest;
    assert (TermTokens(t) + ([Sym(",")] + rest))[3..] == rest;
  }

  lemma {:induction false} TermsRead(ts: seq<Term>, rest: seq<Token>)
    requires ts != [] && Ends(rest, Sym(","))
    ensures ReadTerms(ListTokens(ts, TermTokens, Sym(",")) + rest) == Some((ts, rest))
  {
    ListSplits(ts, TermTokens, Sym(","), rest);
    if |ts| == 1 {
      ReadTermsStep(ts[0], rest);
      assert [ts[0]] == ts;
    } else {
      ReadTermsStep(ts[0], ListTokens(ts[1..], TermTokens, Sym(",")) + rest);
      TermsRead(ts[1..], rest);
      assert [ts[0]] + ts[1..] == ts;
    }
  }

  function MarkTokens(n: string): seq<Token>
  {
    [Sym("?")]
  }

  lemma {:induction false} ReadMarksStep(n: string, rest: seq<Token>)
    ensures Ends(rest, Sym(",")) ==> ReadMarks(MarkTokens(n) + rest) == Some((1, rest))
    ensures ReadMarks(MarkTokens(n) + ([Sym(",")] + rest)) ==
      match ReadMarks(rest) case None => None case Some((marks, end)) => Some((marks + 1, end))
  {
    assert (MarkTokens(n) + rest)[1..] == rest;
    assert (MarkTokens(n) + ([Sym(",")] + rest))[2..] == rest;
  }

  lemma {:induction false} MarksRead(ns: seq<string>, rest: seq<Token>)
    requires ns != [] && Ends(rest, Sym(","))
    ensures ReadMarks(ListTokens(ns, MarkTokens, Sym(",")) + rest) == Some((|ns|, rest))
  {
    ListSplits(ns, MarkTokens, Sym(","), rest);
    if |ns| == 1 {
      ReadMarksStep(ns[0], rest);
    } else {
      ReadMarksStep(ns[0], ListTokens(ns[1..], MarkTokens, Sym(",")) + rest);
      MarksRead(ns[1..], rest);
    }
  }

  // ---- Tokens of whole statements -------------------------------------------------------

  function WhereTokens(conds: seq<Cond>): seq<Token>
  {
    if conds == [] then [] else [Word("WHERE")] + ListTokens(conds, CondTokens, Word("AND"))
  }

  function OrderTokens(order: seq<Term>): seq<Token>
  {
    if order == [] then [] else [Word("ORDER"), Word("BY")] + ListTokens(order, TermTokens, Sym(","))
  }

  function ColumnTokens(columns: Option<seq<string>>): seq<Token>
  {
    match columns case None => [Sym("*")] case Some(ns) => ListTokens(ns, NameTokens, Sym(","))
  }

  function PageTokens(limit: nat, offset: nat): seq<Token>
  {
    [Word("LIMIT"), Number(Decimal.Render(limit)), Word("OFFSET"), Number(Decimal.Render(offset))]
  }

  function StmtTokens(s: Stmt): seq<Token>
  {
    match s
    case Select(columns, table, conds, order, limit, offset) =>
      [Word("SELECT")] + (ColumnTokens(columns) + ([Word("FROM"), Ident(table)] +
      (WhereTokens(conds) + (OrderTokens(order) + PageTokens(limit, offset)))))
    case Insert(table, names) =>
      [Word("INSERT"), Word("INTO"), Ident(table), Sym("(")] + (ListTokens(names, NameTokens, Sym(",")) +
      ([Sym(")"), Word("VALUES"), Sym("(")] + (ListTokens(names, MarkTokens, Sym(",")) +
      [Sym(")"), Word("RETURNING"), Sym("*")])))
    case Update(table, sets, conds) =>
      [Word("UPDATE"), Ident(table), Word("SET")] + (ListTokens(sets, SetTokens, Sym(",")) + WhereTokens(conds))
    case Delete(table, conds) =>
      [Word("DELETE"), Word("FROM"), Ident(table)] + WhereTokens(conds)
  }

  /** Lists that SQL writes with at least one item have one. */
  predicate WellFormed(s: Stmt)
  {
    match s
    case Select(columns, _, _, _, _, _) => columns.Some? ==> columns.value != []
    case Insert(_, names) => names != []
    case Update(_, sets, _) => sets != []
    case Delete(_, _) => true
  }

  lemma {:induction false} WhereStarts(toks: seq<Token>)
    ensures ReadWhere([Word("WHERE")] + toks) == ReadConds(toks)
  {
    assert ([Word("WHERE")] + toks)[1..] == toks;
  }

  lemma NoWhere(rest: seq<Token>)
    requires Ends(rest, Word("WHERE"))
    ensures ReadWhere(rest) == Some(([], rest))
  {
  }

  lemma WhereReads(conds: seq<Cond>, rest: seq<Token>)
    requires Ends(rest, Word("AND")) && Ends(rest, Word("WHERE"))
    ensures ReadWhere(WhereTokens(conds) + rest) == Some((conds, rest))
  {
    if conds == [] {
      NoWhere(rest);
      assert [] + rest == rest;
    } else {
      CondsRead(conds, rest);
      WhereStarts(ListTokens(conds, CondTokens, Word("AND")) + rest);
      Associates([Word("WHERE")], ListTokens(conds, CondTokens, Word("AND")), rest);
    }
  }

  lemma {:induction false} OrderStarts(toks: seq<Token>)
    ensures ReadOrderBy([Word("ORDER"), Word("BY")] + toks) == ReadTerms(toks)
  {
    assert ([Word("ORDER"), Word("BY")] + toks)[2..] == toks;
  }

  lemma NoOrder(rest: seq<Token>)
    requires Ends(rest, Word("ORDER"))
    ensures ReadOrderBy(rest) == Some(([], rest))
  {
  }

  lemma OrderReads(order: seq<Term>, rest: seq<Token>)
    requires Ends(rest, Sym(",")) && Ends(rest, Word("ORDER"))
    ensures ReadOrderBy(OrderTokens(order) + rest) == Some((order, rest))
  {
    if order == [] {
      NoOrder(rest);
      assert [] + rest == rest;
    } else {
      TermsRead(order, rest);
      OrderStarts(ListTokens(order, TermTokens, Sym(",")) + rest);
      Associates([Word("ORDER"), Word("BY")], ListTokens(order, TermTokens, Sym(",")), rest);
    }
  }

  lemma ColumnsRead(columns: Option<seq<string>>, rest: seq<Token>)
    requires Ends(rest, Sym(",")) && (columns.Some? ==> columns.value != [])
    ensures ReadColumns(ColumnTokens(columns) + rest) == Some((columns, rest))
  {
    var toks := ColumnTokens(columns) + rest;
    match columns
    case None => assert toks[1..] == rest;
    case Some(ns) =>
      NamesRead(ns, rest);
      assert toks[0] == Ident(ns[0]);
  }

  lemma PageReads(limit: nat, offset: nat)
    ensures ReadPage(PageTokens(limit, offset)) == Some((limit, offset))
  {
    Decimal.ValueOfRender(limit);
    Decimal.ValueOfRender(offset);
  }

  /** From WHERE on. */
  lemma FilteredReads(
    columns: Option<seq<string>>, table: string, conds: seq<Cond>, order: seq<Term>, limit: nat, offset: nat)
    ensures ReadFiltered(columns, table, WhereTokens(conds) + (OrderTokens(order) + PageTokens(limit, offset))) ==
      Some(Select(columns, table, conds, order, limit, offset))
  {
    WhereReads(conds, OrderTokens(order) + PageTokens(limit, offset));
    OrderedReads(columns, table, conds, order, limit, offset);
  }

  lemma OrderedReads(
    columns: Option<seq<string>>, table: string, conds: seq<Cond>, order: seq<Term>, limit: nat, offset: nat)
    ensures ReadOrdered(columns, table, conds, OrderTokens(order) + PageTokens(limit, offset)) ==
      Some(Select(columns, table, conds, order, limit, offset))
  {
    OrderReads(order, PageTokens(limit, offset));
    PageReads(limit, offset);
  }

  lemma SelectReads(s: Stmt)
    requires s.Select? && WellFormed(s)
    ensures Parse(StmtTokens(s)) == Some(s)
  {
    var filtered := WhereTokens(s.conds) + (OrderTokens(s.order) + PageTokens(s.limit, s.offset));
    var from := [Word("FROM"), Ident(s.table)] + filtered;
    ColumnsRead(s.columns, from);
    FilteredReads(s.columns, s.table, s.conds, s.order, s.limit, s.offset);
    assert from[2..] == filtered;
    assert StmtTokens(s)[1..] == ColumnTokens(s.columns) + from;
  }

  lemma InsertReads(s: Stmt)
    requires s.Insert? && WellFormed(s)
    ensures Parse(StmtTokens(s)) == Some(s)
  {
    var end := [Sym(")"), Word("RETURNING"), Sym("*")];
    var values := ListTokens(s.names, MarkTokens, Sym(",")) + end;
    var rest := [Sym(")"), Word("VALUES"), Sym("(")] + values;
    var names := ListTokens(s.names, NameTokens, Sym(",")) + rest;
    assert StmtTokens(s)[1..] == [Word("INTO"), Ident(s.table), Sym("(")] + names;
    assert StmtTokens(s)[1..][3..] == names;
    NamesRead(s.names, rest);
    assert rest[..3] == [Sym(")"), Word("VALUES"), Sym("(")] && rest[3..] == values;
    MarksRead(s.names, end);
  }

  lemma UpdateReads(s: Stmt)
    requires s.Update? && WellFormed(s)
    ensures Parse(StmtTokens(s)) == Some(s)
  {
    var filter := WhereTokens(s.conds);
    var sets := ListTokens(s.sets, SetTokens, Sym(",")) + filter;
    assert StmtTokens(s)[1..] == [Ident(s.table), Word("SET")] + sets;
    assert StmtTokens(s)[1..][2..] == sets;
    SetsRead(s.sets, filter);
    WhereReads(s.conds, []);
    assert filter + [] == filter;
  }

  lemma DeleteReads(s: Stmt)
    requires s.Delete?
    ensures Parse(StmtTokens(s)) == Some(s)
  {
    var filter := WhereTokens(s.conds);
    assert StmtTokens(s)[1..] == [Word("FROM"), Ident(s.table)] + filter;
    assert StmtTokens(s)[1..][2..] == filter;
    WhereReads(s.conds, []);
    assert filter + [] == filter;
  }

  /** Every statement's tokens parse back to it. */
  lemma ParseOfTokens(s: Stmt)
    requires WellFormed(s)
    ensures Parse(StmtTokens(s)) == Some(s)
  {
    match s
    case Select(_, _, _, _, _, _) => SelectReads(s);
    case Insert(_, _) => InsertReads(s);
    case Update(_, _, _) => UpdateReads(s);
    case Delete(_, _) => DeleteReads(s);
  }
}
