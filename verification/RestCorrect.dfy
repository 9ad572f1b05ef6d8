/** The SQL that the REST layer writes, read back and run, does what the request says. */
module RestCorrect {
  import opened Prelude
  import opened SqlText
  import opened SqlMeaning
  import opened SqlRun
  import opened Rest
  import Decimal
  import Strings

  // ---- What a request asks for ----------------------------------------------------------

  /** One filter of the documented table, of one row. NULL satisfies no comparison. */
  predicate Satisfies(e: Engine, row: Row, column: string, f: Filter)
  {
    var cell := Cell(row, column);
    match f
    case WantNull => cell == Null
    case WantNotNull => cell != Null
    case Want(op, value) => cell != Null && e.holds(op, column, cell, Text(value))
  }

  /** Every parameter is a filter but these four. */
  predicate IsFilter(k: string)
  {
    k !in {"select", "order", "limit", "offset"}
  }

  lemma FiltersAreTheOthers(q: Params)
    ensures forall k :: k in FilterKeys(q) <==> k in q && IsFilter(k)
  {
  }

  /** A row that the code takes the request to be about: the first value of every parameter that is
      not reserved is a filter on its column. RestFilters says when those are all the filters. */
  predicate Meets(e: Engine, row: Row, q: Params)
  {
    forall k :: k in q && IsFilter(k) ==> Satisfies(e, row, k, FilterOf(q, k))
  }

  /** The documented way to write a filter. */
  function Written(f: Filter): string
  {
    match f
    case WantNull => "is.null"
    case WantNotNull => "not.null"
    case Want(op, value) => OpName(op) + "." + value
  }

  /** Whatever the value, a filter written as op.value reads as that operator and that value. */
  lemma FilterRoundTrip(f: Filter)
    ensures ReadFilter(Written(f)) == f
  {
    if f.Want? {
      var w := Written(f);
      var name := OpName(f.op);
      assert w[|name| + 1..] == f.value;
      PrefixesTold(w);
      match f.op
      case Eq => assert w[0] == 'e' && w[1] == 'q' && w[2] == '.';
      case Neq => assert w[0] == 'n' && w[1] == 'e' && w[2] == 'q' && w[3] == '.';
      case Gt => assert w[0] == 'g' && w[1] == 't' && w[2] == '.';
      case Gte => assert w[0] == 'g' && w[1] == 't' && w[2] == 'e' && w[3] == '.';
      case Lt => assert w[0] == 'l' && w[1] == 't' && w[2] == '.';
      case Lte => assert w[0] == 'l' && w[1] == 't' && w[2] == 'e' && w[3] == '.';
      case Like => assert w[0] == 'l' && w[1] == 'i' && w[2] == 'k' && w[3] == 'e' && w[4] == '.';
    }
  }

  /** The seven prefixes, letter by letter. */
  lemma {:induction false} PrefixesTold(w: string)
    ensures Strings.HasPrefix(w, "eq.") <==> |w| >= 3 && w[0] == 'e' && w[1] == 'q' && w[2] == '.'
    ensures Strings.HasPrefix(w, "neq.") <==> |w| >= 4 && w[0] == 'n' && w[1] == 'e' && w[2] == 'q' && w[3] == '.'
    ensures Strings.HasPrefix(w, "gt.") <==> |w| >= 3 && w[0] == 'g' && w[1] == 't' && w[2] == '.'
    ensures Strings.HasPrefix(w, "gte.") <==> |w| >= 4 && w[0] == 'g' && w[1] == 't' && w[2] == 'e' && w[3] == '.'
    ensures Strings.HasPrefix(w, "lt.") <==> |w| >= 3 && w[0] == 'l' && w[1] == 't' && w[2] == '.'
    ensures Strings.HasPrefix(w, "lte.") <==> |w| >= 4 && w[0] == 'l' && w[1] == 't' && w[2] == 'e' && w[3] == '.'
    ensures Strings.HasPrefix(w, "like.") <==>
      |w| >= 5 && w[0] == 'l' && w[1] == 'i' && w[2] == 'k' && w[3] == 'e' && w[4] == '.'
  {
    ShortPrefixesTold(w);
    LongPrefixesTold(w);
  }

  lemma {:induction false} ShortPrefixesTold(w: string)
    ensures Strings.HasPrefix(w, "eq.") <==> |w| >= 3 && w[0] == 'e' && w[1] == 'q' && w[2] == '.'
    ensures Strings.HasPrefix(w, "gt.") <==> |w| >= 3 && w[0] == 'g' && w[1] == 't' && w[2] == '.'
    ensures Strings.HasPrefix(w, "lt.") <==> |w| >= 3 && w[0] == 'l' && w[1] == 't' && w[2] == '.'
  {
    PrefixOf3(w, "eq.");
    PrefixOf3(w, "gt.");
    PrefixOf3(w, "lt.");
  }

  lemma {:induction false} LongPrefixesTold(w: string)
    ensures Strings.HasPrefix(w, "neq.") <==> |w| >= 4 && w[0] == 'n' && w[1] == 'e' && w[2] == 'q' && w[3] == '.'
    ensures Strings.HasPrefix(w, "gte.") <==> |w| >= 4 && w[0] == 'g' && w[1] == 't' && w[2] == 'e' && w[3] == '.'
    ensures Strings.HasPrefix(w, "lte.") <==> |w| >= 4 && w[0] == 'l' && w[1] == 't' && w[2] == 'e' && w[3] == '.'
    ensures Strings.HasPrefix(w, "like.") <==>
      |w| >= 5 && w[0] == 'l' && w[1] == 'i' && w[2] == 'k' && w[3] == 'e' && w[4] == '.'
  {
    PrefixOf4(w, "neq.");
    PrefixOf4(w, "gte.");
    PrefixOf4(w, "lte.");
    PrefixOf5(w, "like.");
  }

  lemma {:induction false} PrefixOf3(w: string, p: string)
    requires |p| == 3
    ensures Strings.HasPrefix(w, p) <==> |w| >= 3 && w[0] == p[0] && w[1] == p[1] && w[2] == p[2]
  {
    Strings.HasPrefixIs(w, p);
  }

  lemma {:induction false} PrefixOf4(w: string, p: string)
    requires |p| == 4
    ensures Strings.HasPrefix(w, p) <==> |w| >= 4 && w[0] == p[0] && w[1] == p[1] && w[2] == p[2] && w[3] == p[3]
  {
    Strings.HasPrefixIs(w, p);
  }

  lemma {:induction false} PrefixOf5(w: string, p: string)
    requires |p| == 5
    ensures Strings.HasPrefix(w, p) <==>
      |w| >= 5 && w[0] == p[0] && w[1] == p[1] && w[2] == p[2] && w[3] == p[3] && w[4] == p[4]
  {
    Strings.HasPrefixIs(w, p);
  }

  /** A bare value means equality exactly when it is not one of the two keywords and starts with
      none of the seven operators. */
  lemma {:induction false} PlainValueIff(value: string)
    ensures ReadFilter(value) == Want(Eq, value) <==>
      value != "is.null" && value != "not.null" &&
      forall op: CmpOp :: !Strings.HasPrefix(value, OpName(op) + ".")
  {
    assert OpName(Eq) + "." == "eq." && OpName(Neq) + "." == "neq." && OpName(Gt) + "." == "gt." &&
      OpName(Gte) + "." == "gte." && OpName(Lt) + "." == "lt." && OpName(Lte) + "." == "lte." &&
      OpName(Like) + "." == "like.";
    var r := ReadFilter(value);
    assert r.Want? && r.value != value ==> exists op :: Strings.HasPrefix(value, OpName(op) + ".");
    forall op: CmpOp | Strings.HasPrefix(value, OpName(op) + ".") ensures r != Want(Eq, value) {
      Strings.HasPrefixIs(value, OpName(op) + ".");
      if r.Want? {
        assert |r.value| < |value|;
      }
    }
  }

  /** The clauses depend on the parameters alone: from any order of the keys the same ones come out. */
  lemma {:induction false} WhereIgnoresKeyOrder(q: Params, keys: seq<string>)
    requires ListsKeys(keys, FilterKeys(q))
    ensures var sorted := Strings.Sort(keys);
      Where(q) ==
        if FirstInvalid(sorted).Some? then Err(InvalidFilter(FirstInvalid(sorted).value))
        else Ok((Parts(q, sorted), Args(q, sorted)))
  {
    AnyOrderSorts(keys, FilterKeys(q));
  }

  // ---- Conditions -----------------------------------------------------------------------

  function Conds(q: Params, keys: seq<string>): (r: seq<Cond>)
    ensures |r| == |keys|
  {
    if keys == [] then [] else [Cond(keys[0], TestOf(FilterOf(q, keys[0])))] + Conds(q, keys[1..])
  }

  /** One binding for each placeholder. */
  lemma {:induction false} MarksAreArgs(q: Params, keys: seq<string>)
    ensures Marks(Conds(q, keys)) == |Args(q, keys)|
  {
    if keys != [] {
      MarksAreArgs(q, keys[1..]);
      assert Conds(q, keys)[1..] == Conds(q, keys[1..]);
    }
  }

  /** The conjunction, fed its bindings in order, holds of exactly the rows that satisfy each
      filter with its own value. */
  lemma {:induction false} HoldsIffSatisfied(e: Engine, row: Row, q: Params, keys: seq<string>)
    ensures Marks(Conds(q, keys)) == |Args(q, keys)|
    ensures Holds(e, row, Conds(q, keys), Args(q, keys)) <==>
      forall k :: k in keys ==> Satisfies(e, row, k, FilterOf(q, k))
  {
    MarksAreArgs(q, keys);
    if keys != [] {
      var k, rest := keys[0], keys[1..];
      HoldsIffSatisfied(e, row, q, rest);
      assert Conds(q, keys)[1..] == Conds(q, rest);
      OneConjunct(e, row, Conds(q, keys)[0], FilterOf(q, k), Conds(q, keys), Args(q, keys), Args(q, rest));
      assert keys == [k] + rest;
    }
  }

  lemma {:induction false} OneConjunct(
    e: Engine, row: Row, c: Cond, f: Filter, conds: seq<Cond>, args: seq<Value>, rest: seq<Value>)
    requires conds != [] && conds[0] == c && c.test == TestOf(f)
    requires args == ArgsOf(f) + rest && |args| == Marks(conds)
    ensures |rest| == Marks(conds[1..])
    ensures Holds(e, row, conds, args) <==> Satisfies(e, row, c.column, f) && Holds(e, row, conds[1..], rest)
  {
    if f.Want? {
      assert args[0] == Text(f.value) && args[1..] == rest;
    } else {
      assert args == rest;
    }
  }

  lemma {:induction false} HoldsIffMeets(e: Engine, row: Row, q: Params)
    ensures var keys := SortedKeys(FilterKeys(q));
      && Marks(Conds(q, keys)) == |Args(q, keys)|
      && (Holds(e, row, Conds(q, keys), Args(q, keys)) <==> Meets(e, row, q))
  {
    var keys := SortedKeys(FilterKeys(q));
    SortedKeysOk(FilterKeys(q));
    FiltersAreTheOthers(q);
    HoldsIffSatisfied(e, row, q, keys);
  }

  // ---- Text reads as tokens -------------------------------------------------------------

  lemma {:induction false} RunTwo(st: State, a: char, b: char)
    ensures SqlText.Run(st, [a, b]) == Step(Step(st, a), b)
  {
    assert [a, b][1..] == [b];
    RunOne(Step(st, a), b);
  }

  lemma OpReads(op: CmpOp)
    ensures Reads(OpSql(op), OpTokens(op))
  {
    if op == Like {
      WordReads("LIKE");
    } else {
      forall ts ensures ReadsAfter(ts, OpSql(op), OpTokens(op)) {
        var st := State(Between, ts);
        match op
        case Neq => RunTwo(st, '!', '=');
        case Gte => RunTwo(st, '>', '=');
        case Lte => RunTwo(st, '<', '=');
        case Gt => RunOne(st, '>');
        case Lt => RunOne(st, '<');
        case _ => RunOne(st, '=');
      }
    }
  }

  lemma MarkReads()
    ensures Reads(" ?", [Sym("?")])
  {
    CharReads(' ');
    CharReads('?');
    Glue(" ", [], "?", [Sym("?")]);
    assert " " + "?" == " ?" && [] + [Sym("?")] == [Sym("?")];
  }

  /** Gluing three pieces, the middle one set off by blanks. */
  lemma Glue3(a: string, ta: seq<Token>, b: string, tb: seq<Token>, c: string, tc: seq<Token>)
    requires Reads(a, ta) && Reads(b, tb) && Reads(c, tc) && Seam(a, b) && Seam(a + b, c)
    ensures Reads(a + b + c, ta + tb + tc)
  {
    Glue(a, ta, b, tb);
    Glue(a + b, ta + tb, c, tc);
  }

  // ---- Keywords as the text spells them -------------------------------------------------

  /** A word, with a blank before or after it or neither. */
  lemma Spelled(text: string, w: string, before: bool, after: bool)
    requires w != "" && forall i :: 0 <= i < |w| ==> IsLetter(w[i])
    requires text == (if before then " " else "") + w + (if after then " " else "")
    ensures Reads(text, [Word(w)])
  {
    WordReads(w);
    SpacedWord(w);
    assert "" + w == w && w + "" == w && " " + w + "" == " " + w;
  }

  lemma OrderByWords()
    ensures Reads(" ORDER BY ", [Word("ORDER"), Word("BY")])
  {
    Spelled(" ORDER ", "ORDER", true, true);
    Spelled("BY ", "BY", false, true);
    Glue(" ORDER ", [Word("ORDER")], "BY ", [Word("BY")]);
    assert " ORDER BY " == " ORDER " + "BY ";
    assert [Word("ORDER"), Word("BY")] == [Word("ORDER")] + [Word("BY")];
  }

  lemma DeleteFromWords()
    ensures Reads("DELETE FROM ", [Word("DELETE"), Word("FROM")])
  {
    Spelled("DELETE ", "DELETE", false, true);
    Spelled("FROM ", "FROM", false, true);
    Glue("DELETE ", [Word("DELETE")], "FROM ", [Word("FROM")]);
    assert "DELETE FROM " == "DELETE " + "FROM ";
    assert [Word("DELETE"), Word("FROM")] == [Word("DELETE")] + [Word("FROM")];
  }

  lemma InsertIntoWords()
    ensures Reads("INSERT INTO ", [Word("INSERT"), Word("INTO")])
  {
    Spelled("INSERT ", "INSERT", false, true);
    Spelled("INTO ", "INTO", false, true);
    Glue("INSERT ", [Word("INSERT")], "INTO ", [Word("INTO")]);
    assert "INSERT INTO " == "INSERT " + "INTO ";
    assert [Word("INSERT"), Word("INTO")] == [Word("INSERT")] + [Word("INTO")];
  }

  lemma OpenList()
    ensures Reads(" (", [Sym("(")])
  {
    CharReads(' ');
    CharReads('(');
    Glue(" ", [], "(", [Sym("(")]);
    assert " (" == " " + "(";
    assert [Sym("(")] == [] + [Sym("(")];
  }

  lemma ValuesWord()
    ensures Reads(") VALUES (", [Sym(")"), Word("VALUES"), Sym("(")])
  {
    CharReads(')');
    Spelled(" VALUES ", "VALUES", true, true);
    CharReads('(');
    Glue3(")", [Sym(")")], " VALUES ", [Word("VALUES")], "(", [Sym("(")]);
    assert ") VALUES (" == ")" + " VALUES " + "(";
    assert [Sym(")"), Word("VALUES"), Sym("(")] == [Sym(")")] + [Word("VALUES")] + [Sym("(")];
  }

  lemma ReturningWord()
    ensures Reads(") RETURNING *", [Sym(")"), Word("RETURNING"), Sym("*")])
  {
    CharReads(')');
    Spelled(" RETURNING ", "RETURNING", true, true);
    CharReads('*');
    Glue3(")", [Sym(")")], " RETURNING ", [Word("RETURNING")], "*", [Sym("*")]);
    assert ") RETURNING *" == ")" + " RETURNING " + "*";
    assert [Sym(")"), Word("RETURNING"), Sym("*")] == [Sym(")")] + [Word("RETURNING")] + [Sym("*")];
  }

  lemma IsNullWords()
    ensures Reads(" IS NULL", [Word("IS"), Word("NULL")])
  {
    Spelled(" IS ", "IS", true, true);
    Spelled("NULL", "NULL", false, false);
    Glue(" IS ", [Word("IS")], "NULL", [Word("NULL")]);
    assert " IS NULL" == " IS " + "NULL";
    assert [Word("IS"), Word("NULL")] == [Word("IS")] + [Word("NULL")];
  }

  lemma IsNotNullWords()
    ensures Reads(" IS NOT NULL", [Word("IS"), Word("NOT"), Word("NULL")])
  {
    Spelled(" IS ", "IS", true, true);
    Spelled("NOT ", "NOT", false, true);
    Spelled("NULL", "NULL", false, false);
    Glue3(" IS ", [Word("IS")], "NOT ", [Word("NOT")], "NULL", [Word("NULL")]);
    assert " IS NOT NULL" == " IS " + "NOT " + "NULL";
    assert [Word("IS"), Word("NOT"), Word("NULL")] == [Word("IS")] + [Word("NOT")] + [Word("NULL")];
  }

  lemma DirectionWord(descending: bool)
    ensures Reads(if descending then " DESC" else " ASC", [Word(if descending then "DESC" else "ASC")])
  {
    if descending {
      Spelled(" DESC", "DESC", true, false);
    } else {
      Spelled(" ASC", "ASC", true, false);
    }
  }

  // ---- Clauses --------------------------------------------------------------------------

  lemma CondReadsText(key: string, f: Filter)
    ensures Reads(CondSql(key, f), CondTokens(Cond(key, TestOf(f))))
  {
    QuoteReads(key);
    match f
    case WantNull =>
      IsNullWords();
      Glue(Quote(key), [Ident(key)], " IS NULL", [Word("IS"), Word("NULL")]);
    case WantNotNull =>
      IsNotNullWords();
      Glue(Quote(key), [Ident(key)], " IS NOT NULL", [Word("IS"), Word("NOT"), Word("NULL")]);
    case Want(op, _) => ComparisonReads(key, op);
  }

  lemma ComparisonReads(key: string, op: CmpOp)
    ensures Reads(Quote(key) + " " + OpSql(op) + " ?", [Ident(key)] + (OpTokens(op) + [Sym("?")]))
  {
    QuoteReads(key);
    CharReads(' ');
    OpReads(op);
    MarkReads();
    Glue(Quote(key), [Ident(key)], " ", []);
    assert [Ident(key)] + [] == [Ident(key)];
    Glue3(Quote(key) + " ", [Ident(key)], OpSql(op), OpTokens(op), " ?", [Sym("?")]);
    assert [Ident(key)] + OpTokens(op) + [Sym("?")] == [Ident(key)] + (OpTokens(op) + [Sym("?")]);
  }

  lemma {:induction false} PartsRead(q: Params, keys: seq<string>)
    ensures |Parts(q, keys)| == |keys|
    ensures forall i :: 0 <= i < |keys| ==> Reads(Parts(q, keys)[i], CondTokens(Conds(q, keys)[i]))
  {
    if keys != [] {
      CondReadsText(keys[0], FilterOf(q, keys[0]));
      PartsRead(q, keys[1..]);
    }
  }

  lemma {:induction false} ListReads<T>(parts: seq<string>, xs: seq<T>, f: T -> seq<Token>)
    requires |parts| == |xs| && forall i :: 0 <= i < |xs| ==> Reads(parts[i], f(xs[i]))
    ensures Reads(Strings.Join(parts, ", "), ListTokens(xs, f, Sym(",")))
  {
    CharReads(',');
    CharReads(' ');
    Glue(",", [Sym(",")], " ", []);
    assert "," + " " == ", " && [Sym(",")] + [] == [Sym(",")];
    JoinReads(parts, xs, f, ", ", Sym(","));
  }

  lemma {:induction false} WhereReadsText(q: Params, keys: seq<string>)
    ensures Reads(WhereSql(Parts(q, keys)), WhereTokens(Conds(q, keys)))
  {
    PartsRead(q, keys);
    if keys == [] {
      EmptyReads();
    } else {
      var conds := Conds(q, keys);
      Spelled(" AND ", "AND", true, true);
      Spelled(" WHERE ", "WHERE", true, true);
      JoinReads(Parts(q, keys), conds, CondTokens, " AND ", Word("AND"));
      Glue(" WHERE ", [Word("WHERE")], Strings.Join(Parts(q, keys), " AND "),
           ListTokens(conds, CondTokens, Word("AND")));
    }
  }

  lemma TermReadsText(t: Term)
    ensures Reads(TermSql(t), TermTokens(t))
  {
    var dir := if t.descending then "DESC" else "ASC";
    var text := if t.descending then " DESC" else " ASC";
    QuoteReads(t.column);
    DirectionWord(t.descending);
    Glue(Quote(t.column), [Ident(t.column)], text, [Word(dir)]);
    assert " " + dir == text;
    assert TermSql(t) == Quote(t.column) + (" " + dir);
    assert [Ident(t.column)] + [Word(dir)] == TermTokens(t);
  }

  lemma OrderReadsText(order: seq<Term>)
    ensures Reads(OrderSql(order), OrderTokens(order))
  {
    if order == [] {
      EmptyReads();
    } else {
      forall i | 0 <= i < |order| ensures Reads(Map(order, TermSql)[i], TermTokens(order[i])) {
        TermReadsText(order[i]);
      }
      ListReads(Map(order, TermSql), order, TermTokens);
      OrderByWords();
      Glue(" ORDER BY ", [Word("ORDER"), Word("BY")], Strings.Join(Map(order, TermSql), ", "),
           ListTokens(order, TermTokens, Sym(",")));
    }
  }

  lemma {:induction false} NamesReadText(names: seq<string>)
    ensures Reads(Strings.Join(Map(names, Quote), ", "), ListTokens(names, NameTokens, Sym(",")))
    ensures Reads(Strings.Join(Map(names, SetSql), ", "), ListTokens(names, SetTokens, Sym(",")))
    ensures Reads(Strings.Join(Map(names, MarkSql), ", "), ListTokens(names, MarkTokens, Sym(",")))
  {
    forall i | 0 <= i < |names|
      ensures Reads(Map(names, Quote)[i], NameTokens(names[i]))
      ensures Reads(Map(names, SetSql)[i], SetTokens(names[i]))
      ensures Reads(Map(names, MarkSql)[i], MarkTokens(names[i]))
    {
      QuoteReads(names[i]);
      CharReads('?');
      SetReadsText(names[i]);
    }
    ListReads(Map(names, Quote), names, NameTokens);
    ListReads(Map(names, SetSql), names, SetTokens);
    ListReads(Map(names, MarkSql), names, MarkTokens);
  }

  lemma SetReadsText(name: string)
    ensures Reads(SetSql(name), SetTokens(name))
  {
    ComparisonReads(name, Eq);
    assert Quote(name) + " " + OpSql(Eq) + " ?" == SetSql(name);
    assert [Ident(name)] + (OpTokens(Eq) + [Sym("?")]) == SetTokens(name);
  }

  predicate Blank(s: string)
  {
    s != "" && s[0] == ' '
  }

  lemma {:induction false} PageReadsText(limit: nat, offset: nat)
    ensures var text := " LIMIT " + (Decimal.Render(limit) + (" OFFSET " + Decimal.Render(offset)));
      Reads(text, PageTokens(limit, offset)) && Blank(text)
  {
    var l, o := Decimal.Render(limit), Decimal.Render(offset);
    NumberReads(limit);
    NumberReads(offset);
    Spelled(" LIMIT ", "LIMIT", true, true);
    Spelled(" OFFSET ", "OFFSET", true, true);
    Glue(" OFFSET ", [Word("OFFSET")], o, [Number(o)]);
    Glue(l, [Number(l)], " OFFSET " + o, [Word("OFFSET")] + [Number(o)]);
    Glue(" LIMIT ", [Word("LIMIT")], l + (" OFFSET " + o), [Number(l)] + ([Word("OFFSET")] + [Number(o)]));
    assert [Word("LIMIT")] + ([Number(l)] + ([Word("OFFSET")] + [Number(o)])) == PageTokens(limit, offset);
  }

  /** A name between two words. */
  lemma TableReads(table: string, rest: string, trest: seq<Token>)
    requires Reads(rest, trest) && (rest == "" || Blank(rest))
    ensures Reads(Quote(table) + rest, [Ident(table)] + trest)
  {
    QuoteReads(table);
    Glue(Quote(table), [Ident(table)], rest, trest);
  }

  lemma {:induction false} SelectReadsText(columns: Option<seq<string>>, table: string, q: Params, keys: seq<string>,
    order: seq<Term>, limit: nat, offset: nat)
    ensures Reads(SelectSql(columns, table, Parts(q, keys), order, limit, offset),
                  StmtTokens(Select(columns, table, Conds(q, keys), order, limit, offset)))
  {
    var page := " LIMIT " + (Decimal.Render(limit) + (" OFFSET " + Decimal.Render(offset)));
    var where, tail := WhereSql(Parts(q, keys)), OrderSql(order) + page;
    var conds := Conds(q, keys);
    var ttail := OrderTokens(order) + PageTokens(limit, offset);
    PageReadsText(limit, offset);
    OrderReadsText(order);
    Glue(OrderSql(order), OrderTokens(order), page, PageTokens(limit, offset));
    assert Blank(tail);
    WhereReadsText(q, keys);
    Glue(where, WhereTokens(conds), tail, ttail);
    assert Blank(where + tail);
    TableReads(table, where + tail, WhereTokens(conds) + ttail);
    SelectFromReads(columns, Quote(table) + (where + tail), table, WhereTokens(conds) + ttail);
  }

  lemma SelectFromReads(columns: Option<seq<string>>, rest: string, table: string, trest: seq<Token>)
    requires Reads(rest, [Ident(table)] + trest)
    ensures Reads("SELECT " + (SelectionSql(columns) + (" FROM " + rest)),
                  [Word("SELECT")] + (ColumnTokens(columns) + ([Word("FROM"), Ident(table)] + trest)))
  {
    Spelled(" FROM ", "FROM", true, true);
    Spelled("SELECT ", "SELECT", false, true);
    Glue(" FROM ", [Word("FROM")], rest, [Ident(table)] + trest);
    assert [Word("FROM")] + ([Ident(table)] + trest) == [Word("FROM"), Ident(table)] + trest;
    var from, tfrom := " FROM " + rest, [Word("FROM"), Ident(table)] + trest;
    if columns.None? {
      CharReads('*');
    } else {
      NamesReadText(columns.value);
    }
    Glue(SelectionSql(columns), ColumnTokens(columns), from, tfrom);
    Glue("SELECT ", [Word("SELECT")], SelectionSql(columns) + from, ColumnTokens(columns) + tfrom);
  }

  lemma {:induction false} SetClauseReads(names: seq<string>, where: string, twhere: seq<Token>)
    requires Reads(where, twhere) && (where == "" || Blank(where))
    ensures Reads(" SET " + (Strings.Join(Map(names, SetSql), ", ") + where),
                  [Word("SET")] + (ListTokens(names, SetTokens, Sym(",")) + twhere))
  {
    var sets, tsets := Strings.Join(Map(names, SetSql), ", "), ListTokens(names, SetTokens, Sym(","));
    Spelled(" SET ", "SET", true, true);
    NamesReadText(names);
    Glue(sets, tsets, where, twhere);
    Glue(" SET ", [Word("SET")], sets + where, tsets + twhere);
  }

  lemma UpdateClauseReads(table: string, rest: string, trest: seq<Token>)
    requires Reads(rest, [Word("SET")] + trest) && Blank(rest)
    ensures Reads("UPDATE " + (Quote(table) + rest), [Word("UPDATE"), Ident(table), Word("SET")] + trest)
  {
    TableReads(table, rest, [Word("SET")] + trest);
    Spelled("UPDATE ", "UPDATE", false, true);
    Glue("UPDATE ", [Word("UPDATE")], Quote(table) + rest, [Ident(table)] + ([Word("SET")] + trest));
    assert [Word("UPDATE")] + ([Ident(table)] + ([Word("SET")] + trest)) ==
      [Word("UPDATE"), Ident(table), Word("SET")] + trest;
  }

  lemma {:induction false} UpdateReadsText(table: string, names: seq<string>, q: Params, keys: seq<string>)
    ensures Reads(UpdateSql(table, names, Parts(q, keys)), StmtTokens(Update(table, names, Conds(q, keys))))
  {
    var where, twhere := WhereSql(Parts(q, keys)), WhereTokens(Conds(q, keys));
    WhereReadsText(q, keys);
    SetClauseReads(names, where, twhere);
    UpdateClauseReads(table, " SET " + (Strings.Join(Map(names, SetSql), ", ") + where),
                      ListTokens(names, SetTokens, Sym(",")) + twhere);
  }

  lemma DeleteClauseReads(table: string, where: string, twhere: seq<Token>)
    requires Reads(where, twhere) && (where == "" || Blank(where))
    ensures Reads("DELETE FROM " + (Quote(table) + where), [Word("DELETE"), Word("FROM"), Ident(table)] + twhere)
  {
    DeleteFromWords();
    TableReads(table, where, twhere);
    Glue("DELETE FROM ", [Word("DELETE"), Word("FROM")], Quote(table) + where, [Ident(table)] + twhere);
    assert [Word("DELETE"), Word("FROM")] + ([Ident(table)] + twhere) ==
      [Word("DELETE"), Word("FROM"), Ident(table)] + twhere;
  }

  lemma {:induction false} DeleteReadsText(table: string, q: Params, keys: seq<string>)
    ensures Reads(DeleteSql(table, Parts(q, keys)), StmtTokens(Delete(table, Conds(q, keys))))
  {
    WhereReadsText(q, keys);
    DeleteClauseReads(table, WhereSql(Parts(q, keys)), WhereTokens(Conds(q, keys)));
  }

  lemma InsertReadsText(table: string, names: seq<string>)
    ensures Reads(InsertSql(table, names), StmtTokens(Insert(table, names)))
  {
    var cols, tcols := Strings.Join(Map(names, Quote), ", "), ListTokens(names, NameTokens, Sym(","));
    var marks, tmarks := Strings.Join(Map(names, MarkSql), ", "), ListTokens(names, MarkTokens, Sym(","));
    var tend := [Sym(")"), Word("RETURNING"), Sym("*")];
    var tvalues := [Sym(")"), Word("VALUES"), Sym("(")];
    InsertIntoWords();
    OpenList();
    ValuesWord();
    ReturningWord();
    NamesReadText(names);
    Glue(marks, tmarks, ") RETURNING *", tend);
    var a, ta := marks + ") RETURNING *", tmarks + tend;
    Glue(") VALUES (", tvalues, a, ta);
    var b, tb := ") VALUES (" + a, tvalues + ta;
    Glue(cols, tcols, b, tb);
    Glue(" (", [Sym("(")], cols + b, tcols + tb);
    TableReads(table, " (" + (cols + b), [Sym("(")] + (tcols + tb));
    Glue("INSERT INTO ", [Word("INSERT"), Word("INTO")],
         Quote(table) + (" (" + (cols + b)), [Ident(table)] + ([Sym("(")] + (tcols + tb)));
    assert [Word("INSERT"), Word("INTO")] + ([Ident(table)] + ([Sym("(")] + (tcols + tb))) ==
      [Word("INSERT"), Word("INTO"), Ident(table), Sym("(")] + (tcols + tb);
  }

  lemma PreparedAs(sql: string, s: Stmt)
    requires Reads(sql, StmtTokens(s)) && WellFormed(s)
    ensures Prepare(sql) == Some(s)
  {
    TokensOf(sql, StmtTokens(s));
    ParseOfTokens(s);
  }

  // ---- The four operations --------------------------------------------------------------

  lemma {:induction false} ChosenSame(rows: seq<Row>, f: Row -> bool, g: Row -> bool)
    requires forall row :: f(row) == g(row)
    ensures Chosen(rows, f) == Chosen(rows, g)
  {
    if rows != [] {
      ChosenSame(rows[1..], f, g);
    }
  }

  /** The statement a GET prepares. */
  lemma {:induction false} GetPrepares(table: string, q: Params)
    requires GetQuery(table, q).Ok?
    ensures Prepare(GetQuery(table, q).value.sql) ==
      Some(Select(SelectionOf(Get(q, "select")).value, table, Conds(q, SortedKeys(FilterKeys(q))),
                  OrderOf(Get(q, "order")).value, LimitOf(Get(q, "limit")).value, OffsetOf(Get(q, "offset")).value))
  {
    var keys := SortedKeys(FilterKeys(q));
    var columns, order := SelectionOf(Get(q, "select")).value, OrderOf(Get(q, "order")).value;
    var limit, offset := LimitOf(Get(q, "limit")).value, OffsetOf(Get(q, "offset")).value;
    SelectReadsText(columns, table, q, keys, order, limit, offset);
    PreparedAs(GetQuery(table, q).value.sql, Select(columns, table, Conds(q, keys), order, limit, offset));
  }

  /** The rows a GET is about: those that meet its filters, in its order, cut to its page. */
  function PageOf(e: Engine, q: Params, t: Table): seq<Row>
    requires OrderOf(Get(q, "order")).Ok? && LimitOf(Get(q, "limit")).Some? && OffsetOf(Get(q, "offset")).Some?
  {
    Page(e.sorted(OrderOf(Get(q, "order")).value, Chosen(t.rows, row => Meets(e, row, q))),
         LimitOf(Get(q, "limit")).value, OffsetOf(Get(q, "offset")).value)
  }

  /** A GET answers with the rows that meet the first value of each filter, in the order asked for,
      cut to the page, with the columns asked for; and changes nothing. */
  lemma GetMeaning(e: Engine, table: string, q: Params, t: Table)
    requires GetQuery(table, q).Ok?
    ensures var query := GetQuery(table, q).value;
      && Prepare(query.sql).Some? && Prepare(query.sql).value.table == table
      && Execute(e, Prepare(query.sql).value, query.args, t) ==
         Some(Outcome(t, ProjectedAll(PageOf(e, q, t), SelectionOf(Get(q, "select")).value.GetOr(t.columns))))
  {
    GetPrepares(table, q);
    var keys := SortedKeys(FilterKeys(q));
    var conds, args := Conds(q, keys), Args(q, keys);
    MarksAreArgs(q, keys);
    forall row ensures Holds(e, row, conds, args) == Meets(e, row, q) {
      HoldsIffMeets(e, row, q);
    }
    ChosenSame(t.rows, row => Holds(e, row, conds, args), row => Meets(e, row, q));
  }

  /** A DELETE keeps exactly the rows that miss the first value of some filter. (Foreign keys are
      not modelled.) */
  lemma DeleteMeaning(e: Engine, table: string, q: Params, t: Table)
    requires DeleteQuery(table, q).Ok?
    ensures var query := DeleteQuery(table, q).value;
      && Prepare(query.sql).Some? && Prepare(query.sql).value.table == table
      && Execute(e, Prepare(query.sql).value, query.args, t) ==
         Some(Outcome(t.(rows := Chosen(t.rows, row => !Meets(e, row, q))), []))
  {
    var keys := SortedKeys(FilterKeys(q));
    var conds, args := Conds(q, keys), Args(q, keys);
    DeleteReadsText(table, q, keys);
    PreparedAs(DeleteQuery(table, q).value.sql, Delete(table, conds));
    MarksAreArgs(q, keys);
    forall row ensures Holds(e, row, conds, args) == Meets(e, row, q) {
      HoldsIffMeets(e, row, q);
    }
    ChosenSame(t.rows, row => !Holds(e, row, conds, args), row => !Meets(e, row, q));
  }

  lemma {:induction false} OverlayOf(row: Row, names: seq<string>, data: map<string, Value>)
    requires ListsKeys(names, data.Keys)
    ensures Assigned(row, names, ValuesOf(names, data)) == row + data
  {
    AssignedIsOverlay(row, names, ValuesOf(names, data), data);
    assert forall c :: c in names <==> c in data;
  }

  lemma {:induction false} OverlayIs(row: Row, data: map<string, Value>)
    ensures var keys := SortedKeys(data.Keys);
      Assigned(row, keys, ValuesOf(keys, data)) == row + data
  {
    SortedKeysOk(data.Keys);
    OverlayOf(row, SortedKeys(data.Keys), data);
  }

  lemma NamesNotEmpty(data: map<string, Value>)
    requires data != map[]
    ensures SortedKeys(data.Keys) != []
  {
    var k :| k in data;
    SortedKeysOk(data.Keys);
    assert k in SortedKeys(data.Keys);
  }

  lemma {:induction false} PatchPrepares(table: string, data: map<string, Value>, q: Params)
    requires PatchQuery(table, data, q).Ok?
    ensures var names, keys := SortedKeys(data.Keys), SortedKeys(FilterKeys(q));
      && Prepare(PatchQuery(table, data, q).value.sql) == Some(Update(table, names, Conds(q, keys)))
      && PatchQuery(table, data, q).value.args == ValuesOf(names, data) + Args(q, keys)
  {
    var names, keys := SortedKeys(data.Keys), SortedKeys(FilterKeys(q));
    NamesNotEmpty(data);
    UpdateReadsText(table, names, q, keys);
    PreparedAs(PatchQuery(table, data, q).value.sql, Update(table, names, Conds(q, keys)));
  }

  /** A PATCH lays the body over every row that meets the first value of each filter and leaves the
      others alone: no value of the body ends up in another column or in a filter. The table's
      constraints apart, it fails as a whole exactly if the body names a column the table lacks. */
  lemma PatchMeaning(e: Engine, table: string, data: map<string, Value>, q: Params, t: Table)
    requires PatchQuery(table, data, q).Ok?
    ensures var query := PatchQuery(table, data, q).value;
      && Prepare(query.sql).Some? && Prepare(query.sql).value.table == table
      && var end := Execute(e, Prepare(query.sql).value, query.args, t);
      && (end.Some? <==> forall c :: c in data ==> c in t.columns)
      && (end.Some? ==>
            && end.value.table.columns == t.columns && |end.value.table.rows| == |t.rows|
            && forall i :: 0 <= i < |t.rows| ==>
                 end.value.table.rows[i] == if Meets(e, t.rows[i], q) then t.rows[i] + data else t.rows[i])
  {
    var names, keys := SortedKeys(data.Keys), SortedKeys(FilterKeys(q));
    PatchPrepares(table, data, q);
    SortedKeysOk(data.Keys);
    MarksAreArgs(q, keys);
    forall row ensures Holds(e, row, Conds(q, keys), Args(q, keys)) == Meets(e, row, q) {
      HoldsIffMeets(e, row, q);
    }
    UpdateRuns(e, table, names, data, Conds(q, keys), Args(q, keys), q, t);
  }

  lemma {:induction false} UpdateRuns(e: Engine, table: string, names: seq<string>, data: map<string, Value>,
    conds: seq<Cond>, args: seq<Value>, q: Params, t: Table)
    requires ListsKeys(names, data.Keys) && Marks(conds) == |args|
    requires forall row :: Holds(e, row, conds, args) == Meets(e, row, q)
    ensures var end := Execute(e, Update(table, names, conds), ValuesOf(names, data) + args, t);
      && (end.Some? <==> forall c :: c in data ==> c in t.columns)
      && (end.Some? ==>
            && end.value.table.columns == t.columns && |end.value.table.rows| == |t.rows|
            && forall i :: 0 <= i < |t.rows| ==>
                 end.value.table.rows[i] == if Meets(e, t.rows[i], q) then t.rows[i] + data else t.rows[i])
  {
    var all := ValuesOf(names, data) + args;
    assert all[..|names|] == ValuesOf(names, data) && all[|names|..] == args;
    forall i | 0 <= i < |t.rows|
      ensures Assigned(t.rows[i], names, ValuesOf(names, data)) == t.rows[i] + data
    {
      OverlayOf(t.rows[i], names, data);
    }
  }

  /** A POST appends one row: the table's defaults with the body laid over them. */
  lemma PostMeaning(e: Engine, table: string, data: map<string, Value>, t: Table)
    requires PostQuery(table, data).Ok?
    ensures var query := PostQuery(table, data).value;
      && Prepare(query.sql).Some? && Prepare(query.sql).value.table == table
      && Execute(e, Prepare(query.sql).value, query.args, t) ==
         if exists c :: c in data && c !in t.columns then None
         else Some(Outcome(t.(rows := t.rows + [e.defaults(t) + data]), [Projected(e.defaults(t) + data, t.columns)]))
  {
    var names := SortedKeys(data.Keys);
    SortedKeysOk(data.Keys);
    NamesNotEmpty(data);
    InsertReadsText(table, names);
    PreparedAs(PostQuery(table, data).value.sql, Insert(table, names));
    OverlayIs(e.defaults(t), data);
  }

  // ---- What is refused ------------------------------------------------------------------

  lemma WhereOkIff(q: Params)
    ensures Where(q).Ok? <==> forall k :: k in FilterKeys(q) ==> ValidIdent(k)
    ensures Where(q).Ok? ==> (Where(q).value.0 == [] <==> FilterKeys(q) == {})
  {
    var keys := SortedKeys(FilterKeys(q));
    SortedKeysOk(FilterKeys(q));
    FirstInvalidOk(keys);
    PartsRead(q, keys);
    if keys == [] {
      assert FilterKeys(q) == {};
    }
  }

  lemma ChangesAccepted(table: string, data: map<string, Value>, q: Params)
    ensures DeleteQuery(table, q).Ok? <==>
      ValidIdent(table) && FilterKeys(q) != {} && forall k :: k in FilterKeys(q) ==> ValidIdent(k)
    ensures PatchQuery(table, data, q).Ok? <==>
      DeleteQuery(table, q).Ok? && data != map[] && forall k :: k in data ==> ValidIdent(k)
  {
    WhereOkIff(q);
    SortedKeysOk(data.Keys);
    FirstInvalidOk(SortedKeys(data.Keys));
  }

  /** PATCH and DELETE go through exactly when every name is 1 to 128 bytes long and there is at
      least one filter, and PATCH has something to set. A filter need not be on a column: see
      RestFilters.DeletesSomeIff for when it tells rows apart. */
  lemma ChangesNeedFilter(table: string, data: map<string, Value>, q: Params)
    ensures DeleteQuery(table, q).Ok? <==>
      && 1 <= |table| <= 128
      && (exists k :: k in q && IsFilter(k)) && (forall k :: k in q && IsFilter(k) ==> 1 <= |k| <= 128)
    ensures PatchQuery(table, data, q).Ok? <==>
      DeleteQuery(table, q).Ok? && data != map[] && forall k :: k in data ==> 1 <= |k| <= 128
  {
    ChangesAccepted(table, data, q);
    FiltersAreTheOthers(q);
    if k :| k in q && IsFilter(k) {
      assert k in FilterKeys(q);
    } else if k :| k in FilterKeys(q) {
      assert k in q && IsFilter(k);
    }
  }

  /** However large the limit, a GET answers with at most 1000 rows, and with at most 100 if there
      is no limit. */
  lemma GetIsBounded(e: Engine, table: string, q: Params, t: Table)
    requires GetQuery(table, q).Ok?
    ensures var query := GetQuery(table, q).value;
      && Prepare(query.sql).Some?
      && var end := Execute(e, Prepare(query.sql).value, query.args, t);
      && end.Some? && |end.value.output| <= 1000
      && (Get(q, "limit") == "" ==> |end.value.output| <= 100)
  {
    GetMeaning(e, table, q, t);
    DefaultLimit(q);
  }

  lemma DefaultLimit(q: Params)
    requires LimitOf(Get(q, "limit")).Some?
    ensures LimitOf(Get(q, "limit")).value <= 1000
    ensures Get(q, "limit") == "" ==> LimitOf(Get(q, "limit")) == Some(100)
  {
  }
}
