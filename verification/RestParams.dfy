/** What a client may write in the parameters of the REST layer, and what it is taken for: lists of
    columns and of orderings with blanks and gaps in them, filters, limit and offset. */
module RestParams {
  import opened Prelude
  import opened SqlMeaning
  import opened SqlRun
  import opened Rest
  import opened RestCorrect
  import Decimal
  import Strings

  // ---- Lists with blanks and gaps -------------------------------------------------------

  /** One entry between two commas: blanks around a text, or with an empty text nothing but blanks. */
  datatype Part = Part(before: string, text: string, after: string)

  predicate Blank(s: string)
  {
    forall i :: 0 <= i < |s| ==> s[i] == ' ' || '\t' <= s[i] <= '\r'
  }

  predicate Tight(s: string)
  {
    s == "" || (!Blank([s[0]]) && !Blank([s[|s| - 1]]))
  }

  /** Anything can be written so. */
  predicate Proper(p: Part)
  {
    Blank(p.before) && Blank(p.after) && Tight(p.text) && ',' !in p.text
  }

  ghost predicate AllProper(ps: seq<Part>)
  {
    forall p {:trigger Proper(p)} :: p in ps ==> Proper(p)
  }

  function Entry(p: Part): string
  {
    p.before + p.text + p.after
  }

  function WrittenList(ps: seq<Part>): string
  {
    Strings.Join(Map(ps, Entry), ",")
  }

  /** The texts of the entries that are not gaps. */
  function Texts(ps: seq<Part>): seq<string>
  {
    if ps == [] then [] else (if ps[0].text == "" then [] else [ps[0].text]) + Texts(ps[1..])
  }

  lemma {:induction false} TextsStep(ps: seq<Part>)
    requires ps != []
    ensures Texts(ps) == if ps[0].text == "" then Texts(ps[1..]) else [ps[0].text] + Texts(ps[1..])
  {
    assert [] + Texts(ps[1..]) == Texts(ps[1..]);
  }

  lemma EntryReads(p: Part)
    requires Proper(p)
    ensures TrimSpace(Entry(p)) == p.text && ',' !in Entry(p)
  {
    Strings.TrimSkips(p.before, p.text, p.after, IsSpace);
    if p.text != "" {
      assert !IsSpace(p.text[0]) && !IsSpace(p.text[|p.text| - 1]) by {
        assert [p.text[0]][0] == p.text[0] && [p.text[|p.text| - 1]][0] == p.text[|p.text| - 1];
      }
    }
    Strings.TrimFixesTight(p.text, IsSpace);
  }

  lemma {:induction false} ListSplits(ps: seq<Part>)
    requires ps != [] && AllProper(ps)
    ensures Strings.Split(WrittenList(ps), ',') == Map(ps, Entry)
  {
    forall i | 0 <= i < |ps| ensures ',' !in Map(ps, Entry)[i] {
      EntryReads(ps[i]);
    }
    Strings.SplitOfJoin(Map(ps, Entry), ',');
  }

  /** Any parameter at all is such a list. */
  lemma {:induction false} AnythingIsList(s: string) returns (ps: seq<Part>)
    ensures ps != [] && AllProper(ps) && WrittenList(ps) == s
  {
    var parts := Strings.Split(s, ',');
    Strings.SplitHasNoSep(s, ',');
    ps := PartsOf(parts);
    assert Map(ps, Entry) == parts;
    Strings.JoinOfSplit(s, ',');
  }

  lemma {:induction false} PartsOf(parts: seq<string>) returns (ps: seq<Part>)
    requires forall i :: 0 <= i < |parts| ==> ',' !in parts[i]
    ensures |ps| == |parts| && AllProper(ps) && forall i :: 0 <= i < |ps| ==> Entry(ps[i]) == parts[i]
  {
    if parts == [] {
      ps := [];
    } else {
      var rest := PartsOf(parts[1..]);
      var p := PartOf(parts[0]);
      ps := [p] + rest;
    }
  }

  lemma PartOf(s: string) returns (p: Part)
    requires ',' !in s
    ensures Proper(p) && Entry(p) == s
  {
    var a, b := Strings.TrimAround(s, IsSpace);
    var text := TrimSpace(s);
    p := Part(a, text, b);
    if ',' in text {
      Strings.TrimFrom(s, ',', IsSpace);
    }
    AllSpaces(a);
    AllSpaces(b);
    if text != "" {
      AllSpaces([text[0]]);
      AllSpaces([text[|text| - 1]]);
    }
  }

  lemma AllSpaces(s: string)
    ensures Blank(s) <==> forall c :: c in s ==> IsSpace(c)
  {
    if Blank(s) {
      forall c | c in s ensures IsSpace(c) {
        var i :| 0 <= i < |s| && s[i] == c;
      }
    }
    if forall c :: c in s ==> IsSpace(c) {
      forall i | 0 <= i < |s| ensures s[i] == ' ' || '\t' <= s[i] <= '\r' {
        assert s[i] in s;
      }
    }
  }

  /** An empty parameter is one gap. */
  lemma {:induction false} EmptyIsGap(ps: seq<Part>)
    requires ps != [] && AllProper(ps) && WrittenList(ps) == ""
    ensures |ps| == 1 && ps[0].text == ""
  {
    ListSplits(ps);
    assert Strings.Split("", ',') == [""];
    assert Entry(ps[0]) == "";
  }

  // ---- The select parameter -------------------------------------------------------------

  /** The first entry is read before the rest. */
  lemma {:induction false} OneMoreName(ps: seq<Part>)
    requires ps != [] && Proper(ps[0])
    ensures ReadSelection(Map(ps, Entry)) ==
      if ps[0].text == "" then ReadSelection(Map(ps[1..], Entry))
      else if |ps[0].text| > 128 then Err(InvalidSelect(ps[0].text))
      else Continued([ps[0].text], ReadSelection(Map(ps[1..], Entry)))
  {
    EntryReads(ps[0]);
    assert Map(ps, Entry)[1..] == Map(ps[1..], Entry);
  }

  lemma {:induction false} NamesRead(ps: seq<Part>)
    requires AllProper(ps)
    requires forall n :: n in Texts(ps) ==> |n| <= 128
    ensures ReadSelection(Map(ps, Entry)) == Ok(Texts(ps))
  {
    if ps != [] {
      OneMoreName(ps);
      TextsStep(ps);
      NamesRead(ps[1..]);
    }
  }

  /** Position k holds the first text over 128 bytes. */
  ghost predicate LongFirstAt(texts: seq<string>, k: nat)
  {
    k < |texts| && |texts[k]| > 128 && forall j :: 0 <= j < k ==> |texts[j]| <= 128
  }

  lemma {:induction false} FirstLongName(ps: seq<Part>, k: nat)
    requires AllProper(ps) && LongFirstAt(Texts(ps), k)
    ensures ReadSelection(Map(ps, Entry)) == Err(InvalidSelect(Texts(ps)[k]))
  {
    OneMoreName(ps);
    TextsStep(ps);
    if ps[0].text == "" {
      FirstLongName(ps[1..], k);
    } else if k > 0 {
      LaterLong(Texts(ps), ps[0].text, Texts(ps[1..]), k);
      FirstLongName(ps[1..], k - 1);
    }
  }

  lemma LaterLong(all: seq<string>, first: string, rest: seq<string>, k: nat)
    requires all == [first] + rest && k > 0 && LongFirstAt(all, k)
    ensures |first| <= 128 && LongFirstAt(rest, k - 1) && rest[k - 1] == all[k]
  {
    assert all[0] == first;
    forall j | 0 <= j < k - 1 ensures |rest[j]| <= 128 {
      assert rest[j] == all[j + 1];
    }
  }

  /** select reads as the names written in it, in their order, whatever blanks and gaps are between
      them; as every column if there is none; and as an error at the first name over 128 bytes. */
  lemma {:induction false} SelectionReads(ps: seq<Part>)
    requires ps != [] && AllProper(ps)
    ensures (forall n :: n in Texts(ps) ==> |n| <= 128) ==>
      SelectionOf(WrittenList(ps)) == Ok(if Texts(ps) == [] then None else Some(Texts(ps)))
    ensures forall k: nat :: LongFirstAt(Texts(ps), k) ==>
      SelectionOf(WrittenList(ps)) == Err(InvalidSelect(Texts(ps)[k]))
  {
    ListSplits(ps);
    if WrittenList(ps) == "" {
      EmptyIsGap(ps);
      assert Texts(ps) == [];
    } else {
      if forall n :: n in Texts(ps) ==> |n| <= 128 {
        NamesRead(ps);
      }
      forall k: nat | LongFirstAt(Texts(ps), k)
        ensures SelectionOf(WrittenList(ps)) == Err(InvalidSelect(Texts(ps)[k]))
      {
        FirstLongName(ps, k);
      }
    }
  }

  lemma {:induction false} NoNamesIff(parts: seq<string>)
    ensures ReadSelection(parts) == Ok([]) <==> forall i :: 0 <= i < |parts| ==> TrimSpace(parts[i]) == ""
  {
    if parts != [] {
      NoNamesIff(parts[1..]);
      if TrimSpace(parts[0]) == "" {
        assert forall i :: 0 <= i < |parts| - 1 ==> parts[1..][i] == parts[i + 1];
        assert forall i :: 1 <= i < |parts| ==> parts[i] == parts[1..][i - 1];
      }
    }
  }

  /** Every column is asked for exactly by a parameter of nothing but commas and blanks. */
  lemma {:induction false} AllColumnsIff(sel: string)
    ensures SelectionOf(sel) == Ok(None) <==> forall i :: 0 <= i < |sel| ==> sel[i] == ',' || Blank([sel[i]])
  {
    var parts := Strings.Split(sel, ',');
    NoNamesIff(parts);
    forall i | 0 <= i < |parts| ensures TrimSpace(parts[i]) == "" <==> forall c :: c in parts[i] ==> IsSpace(c) {
      Strings.BlankIff(parts[i], IsSpace);
    }
    Strings.SplitHasNoSep(sel, ',');
    forall c: char ensures c != ',' ==> (c in sel <==> InSome(c, parts)) {
      InSelOrPart(sel, c);
    }
    assert forall c: char :: IsSpace(c) <==> Blank([c]) by {
      forall c: char ensures IsSpace(c) <==> Blank([c]) {
        assert [c][0] == c;
      }
    }
    BlankThroughout(sel, parts);
  }

  ghost predicate InSome(c: char, parts: seq<string>)
  {
    exists i :: 0 <= i < |parts| && c in parts[i]
  }

  lemma {:induction false} InSelOrPart(sel: string, c: char)
    ensures c != ',' ==> (c in sel <==> InSome(c, Strings.Split(sel, ',')))
  {
    if c != ',' {
      Strings.SplitKeeps(sel, ',', c);
    }
  }

  lemma {:induction false} BlankThroughout(sel: string, parts: seq<string>)
    requires forall i :: 0 <= i < |parts| ==> ',' !in parts[i]
    requires forall c :: c != ',' ==> (c in sel <==> InSome(c, parts))
    ensures (forall i :: 0 <= i < |parts| ==> forall c :: c in parts[i] ==> IsSpace(c)) <==>
      (forall i :: 0 <= i < |sel| ==> sel[i] == ',' || IsSpace(sel[i]))
  {
    if i :| 0 <= i < |parts| && exists c :: c in parts[i] && !IsSpace(c) {
      var c :| c in parts[i] && !IsSpace(c);
      assert InSome(c, parts);
    }
    if k :| 0 <= k < |sel| && sel[k] != ',' && !IsSpace(sel[k]) {
      assert sel[k] in sel;
    }
  }

  /** Each row of the output lists the cells of one row of the page, under these names. */
  ghost predicate Shows(output: seq<seq<(string, Value)>>, page: seq<Row>, names: seq<string>)
  {
    |output| == |page| && forall i :: 0 <= i < |page| ==> ShowsRow(output[i], page[i], names)
  }

  ghost predicate ShowsRow(line: seq<(string, Value)>, row: Row, names: seq<string>)
  {
    |line| == |names| && forall j :: 0 <= j < |names| ==> line[j] == (names[j], Cell(row, names[j]))
  }

  lemma {:induction false} ProjectionShows(end: Option<Outcome>, t: Table, page: seq<Row>, names: seq<string>)
    requires end == Some(Outcome(t, ProjectedAll(page, names)))
    ensures end.value.table == t && Shows(end.value.output, page, names)
  {
  }

  lemma GetShows(e: Engine, table: string, q: Params, t: Table, query: Query, sel: Option<seq<string>>)
    requires GetQuery(table, q) == Ok(query) && SelectionOf(Get(q, "select")) == Ok(sel)
    ensures Prepare(query.sql).Some?
    ensures var end := Execute(e, Prepare(query.sql).value, query.args, t);
      end.Some? && end.value.table == t && Shows(end.value.output, PageOf(e, q, t), sel.GetOr(t.columns))
  {
    GetMeaning(e, table, q, t);
    ProjectionShows(Execute(e, Prepare(query.sql).value, query.args, t), t, PageOf(e, q, t), sel.GetOr(t.columns));
  }

  /** So a GET returns, of each row of the page, just the cells of the columns that select lists, in
      that order; with no name in select, those of every column of the table. */
  lemma {:induction false} GetProjects(e: Engine, table: string, q: Params, t: Table, query: Query, ps: seq<Part>)
    requires GetQuery(table, q) == Ok(query) && Get(q, "select") == WrittenList(ps)
    requires ps != [] && AllProper(ps)
    ensures Prepare(query.sql).Some?
    ensures var end := Execute(e, Prepare(query.sql).value, query.args, t);
      && end.Some? && end.value.table == t
      && Shows(end.value.output, PageOf(e, q, t), if Texts(ps) == [] then t.columns else Texts(ps))
  {
    AcceptedHasSelection(table, q);
    AcceptedSelection(q, ps);
    GetShows(e, table, q, t, query, if Texts(ps) == [] then None else Some(Texts(ps)));
  }

  lemma AcceptedHasSelection(table: string, q: Params)
    requires GetQuery(table, q).Ok?
    ensures SelectionOf(Get(q, "select")).Ok?
  {
  }

  lemma {:induction false} AcceptedSelection(q: Params, ps: seq<Part>)
    requires SelectionOf(Get(q, "select")).Ok? && Get(q, "select") == WrittenList(ps)
    requires ps != [] && AllProper(ps)
    ensures SelectionOf(Get(q, "select")) == Ok(if Texts(ps) == [] then None else Some(Texts(ps)))
  {
    SelectionReads(ps);
    if k :| 0 <= k < |Texts(ps)| && |Texts(ps)[k]| > 128 {
      var first := FirstOver(Texts(ps), k);
      assert false;
    }
  }

  lemma {:induction false} FirstOver(names: seq<string>, k: nat) returns (first: nat)
    requires k < |names| && |names[k]| > 128
    ensures LongFirstAt(names, first)
  {
    if j :| 0 <= j < k && |names[j]| > 128 {
      first := FirstOver(names, j);
    } else {
      first := k;
    }
  }

  // ---- The order parameter --------------------------------------------------------------

  /** asc or desc in any mixture of cases, and what stands before it. */
  predicate SaysAsc(dir: string)
  {
    |dir| == 4 && dir[0] == '.' && dir[1] in {'a', 'A'} && dir[2] in {'s', 'S'} && dir[3] in {'c', 'C'}
  }

  predicate SaysDesc(dir: string)
  {
    && |dir| == 5 && dir[0] == '.'
    && dir[1] in {'d', 'D'} && dir[2] in {'e', 'E'} && dir[3] in {'s', 'S'} && dir[4] in {'c', 'C'}
  }

  /** text is a way to write the ordering t: the column alone, or with a direction. */
  predicate Spells(text: string, t: Term)
  {
    && 1 <= |t.column| <= 128 && '.' !in t.column
    && t.column <= text
    && var dir := text[|t.column|..];
       if t.descending then SaysDesc(dir) else dir == "" || SaysAsc(dir)
  }

  lemma {:induction false} LowerAt(s: string)
    ensures |Lower(s)| == |s|
    ensures forall i :: 0 <= i < |s| ==> Lower(s)[i] == if 'A' <= s[i] <= 'Z' then s[i] - 'A' + 'a' else s[i]
  {
    if s != "" {
      LowerAt(s[1..]);
    }
  }

  lemma DirectionsRead(dir: string)
    requires dir != "" && dir[0] == '.'
    ensures Lower(dir[1..]) == "asc" <==> SaysAsc(dir)
    ensures Lower(dir[1..]) == "desc" <==> SaysDesc(dir)
  {
    var d := dir[1..];
    LowerAt(d);
    assert SaysAsc(dir) <==> |d| == 3 && d[0] in {'a', 'A'} && d[1] in {'s', 'S'} && d[2] in {'c', 'C'};
    assert SaysDesc(dir) <==>
      |d| == 4 && d[0] in {'d', 'D'} && d[1] in {'e', 'E'} && d[2] in {'s', 'S'} && d[3] in {'c', 'C'};
    CasesOf(d);
  }

  lemma {:induction false} CasesOf(d: string)
    ensures Lower(d) == "asc" <==> |d| == 3 && d[0] in {'a', 'A'} && d[1] in {'s', 'S'} && d[2] in {'c', 'C'}
    ensures Lower(d) == "desc" <==>
      |d| == 4 && d[0] in {'d', 'D'} && d[1] in {'e', 'E'} && d[2] in {'s', 'S'} && d[3] in {'c', 'C'}
  {
    LowerAt(d);
    var l := Lower(d);
    assert l == "asc" <==> |l| == 3 && l[0] == 'a' && l[1] == 's' && l[2] == 'c';
    assert l == "desc" <==> |l| == 4 && l[0] == 'd' && l[1] == 'e' && l[2] == 's' && l[3] == 'c';
  }

  /** A column without a direction is ascending; the letters of a direction may be of either case. */
  lemma {:induction false} TermReads(text: string, t: Term)
    requires Spells(text, t)
    ensures ReadTerm(text) == Ok(t)
  {
    var dir := text[|t.column|..];
    assert text == t.column + dir;
    if dir == "" {
      assert text == t.column;
      Strings.CutAtNone(text, '.');
    } else {
      assert dir == "." + dir[1..] && text == t.column + "." + dir[1..];
      Strings.CutAtFirst(t.column, '.', dir[1..]);
      DirectionsRead(dir);
    }
  }

  /** Nothing else is an ordering. */
  lemma {:induction false} OnlySpelled(text: string)
    requires ReadTerm(text).Ok?
    ensures Spells(text, ReadTerm(text).value)
  {
    Strings.CutAtParts(text, '.');
    var (col, dir) := Strings.CutAt(text, '.');
    if dir.Some? {
      var rest := "." + dir.value;
      assert rest[1..] == dir.value && text[|col|..] == rest;
      DirectionsRead(rest);
    } else {
      assert text[|col|..] == "";
    }
  }

  lemma {:induction false} TermsRead(ps: seq<Part>, ts: seq<Term>)
    requires AllProper(ps)
    requires |Texts(ps)| == |ts| && forall i :: 0 <= i < |ts| ==> Spells(Texts(ps)[i], ts[i])
    ensures ReadOrder(Map(ps, Entry)) == Ok(ts)
  {
    if ps != [] {
      OneMoreTerm(ps);
      if ps[0].text == "" {
        TextsStep(ps);
        TermsRead(ps[1..], ts);
      } else {
        TextsStep(ps);
        RestSpells(ps, ts);
        TermReads(ps[0].text, ts[0]);
        TermsRead(ps[1..], ts[1..]);
        assert [ts[0]] + ts[1..] == ts;
      }
    }
  }

  /** The first entry is read before the rest. */
  lemma {:induction false} OneMoreTerm(ps: seq<Part>)
    requires ps != [] && Proper(ps[0])
    ensures ReadOrder(Map(ps, Entry)) ==
      if ps[0].text == "" then ReadOrder(Map(ps[1..], Entry))
      else
        match ReadTerm(ps[0].text)
        case Err(e) => Err(e)
        case Ok(t) => Continued([t], ReadOrder(Map(ps[1..], Entry)))
  {
    EntryReads(ps[0]);
    assert Map(ps, Entry)[1..] == Map(ps[1..], Entry);
  }

  lemma {:induction false} RestSpells(ps: seq<Part>, ts: seq<Term>)
    requires ps != [] && ps[0].text != "" && Texts(ps) == [ps[0].text] + Texts(ps[1..])
    requires |Texts(ps)| == |ts| && forall i :: 0 <= i < |ts| ==> Spells(Texts(ps)[i], ts[i])
    ensures |Texts(ps[1..])| == |ts[1..]| && forall i :: 0 <= i < |ts[1..]| ==> Spells(Texts(ps[1..])[i], ts[1..][i])
  {
    forall i | 0 <= i < |ts[1..]| ensures Spells(Texts(ps[1..])[i], ts[1..][i]) {
      assert Texts(ps[1..])[i] == Texts(ps)[i + 1] && ts[1..][i] == ts[i + 1];
    }
  }

  /** order reads as the orderings written in it, in their order, whatever blanks and gaps are
      between them. */
  lemma {:induction false} OrderReads(ps: seq<Part>, ts: seq<Term>)
    requires ps != [] && AllProper(ps)
    requires |Texts(ps)| == |ts| && forall i :: 0 <= i < |ts| ==> Spells(Texts(ps)[i], ts[i])
    ensures OrderOf(WrittenList(ps)) == Ok(ts)
  {
    ListSplits(ps);
    if WrittenList(ps) == "" {
      EmptyIsGap(ps);
      assert Texts(ps) == [];
    } else {
      TermsRead(ps, ts);
    }
  }

  /** And with an entry that spells nothing it is refused. */
  lemma {:induction false} OrderRefused(ps: seq<Part>, k: nat)
    requires ps != [] && AllProper(ps)
    requires k < |Texts(ps)| && forall t :: !Spells(Texts(ps)[k], t)
    ensures OrderOf(WrittenList(ps)).Err?
  {
    ListSplits(ps);
    if WrittenList(ps) == "" {
      EmptyIsGap(ps);
    } else {
      TermRefused(ps, k);
    }
  }

  lemma {:induction false} TermRefused(ps: seq<Part>, k: nat)
    requires AllProper(ps)
    requires k < |Texts(ps)| && forall t :: !Spells(Texts(ps)[k], t)
    ensures ReadOrder(Map(ps, Entry)).Err?
  {
    OneMoreTerm(ps);
    TextsStep(ps);
    if ps[0].text == "" {
      TermRefused(ps[1..], k);
    } else if k == 0 {
      NotSpelled(ps[0].text);
    } else {
      assert Texts(ps[1..])[k - 1] == Texts(ps)[k];
      TermRefused(ps[1..], k - 1);
    }
  }

  lemma NotSpelled(text: string)
    requires forall t :: !Spells(text, t)
    ensures ReadTerm(text).Err?
  {
    if ReadTerm(text).Ok? {
      OnlySpelled(text);
    }
  }

  // ---- Filters --------------------------------------------------------------------------

  /** The documented operators, letter by letter. */
  lemma FiltersAsDocumented(v: string)
    ensures ReadFilter("eq." + v) == Want(Eq, v) && ReadFilter("neq." + v) == Want(Neq, v)
    ensures ReadFilter("gt." + v) == Want(Gt, v) && ReadFilter("gte." + v) == Want(Gte, v)
    ensures ReadFilter("lt." + v) == Want(Lt, v) && ReadFilter("lte." + v) == Want(Lte, v)
    ensures ReadFilter("like." + v) == Want(Like, v)
    ensures ReadFilter("is.null") == WantNull && ReadFilter("not.null") == WantNotNull
  {
    assert "eq" + "." == "eq." && "neq" + "." == "neq." && "gt" + "." == "gt." && "gte" + "." == "gte.";
    assert "lt" + "." == "lt." && "lte" + "." == "lte." && "like" + "." == "like.";
    FilterRoundTrip(Want(Eq, v));
    FilterRoundTrip(Want(Neq, v));
    FilterRoundTrip(Want(Gt, v));
    FilterRoundTrip(Want(Gte, v));
    FilterRoundTrip(Want(Lt, v));
    FilterRoundTrip(Want(Lte, v));
    FilterRoundTrip(Want(Like, v));
  }

  // ---- Limit and offset -----------------------------------------------------------------

  function Fitting(v: int): Option<int>
  {
    if -0x8000_0000_0000_0000 <= v <= 0x7fff_ffff_ffff_ffff then Some(v) else None
  }

  lemma {:induction false} DigitsRead(s: string)
    requires s != "" && forall c :: c in s ==> Decimal.IsDigit(c)
    ensures Atoi(s) == Fitting(Decimal.Value(s))
  {
    assert Decimal.IsDigit(s[0]);
  }

  lemma {:induction false} SignedRead(s: string, sign: char)
    requires s != "" && (forall c :: c in s ==> Decimal.IsDigit(c)) && (sign == '+' || sign == '-')
    ensures Atoi([sign] + s) == Fitting(if sign == '-' then -(Decimal.Value(s) as int) else Decimal.Value(s))
  {
    assert ([sign] + s)[0] == sign && ([sign] + s)[1..] == s;
  }

  /** A number in decimal, with a sign or without, reads as itself if it fits 64 bits. */
  lemma {:induction false} NumbersRead(n: nat, s: string)
    requires s == Decimal.Render(n)
    ensures Atoi(s) == Fitting(n) && Atoi(['+'] + s) == Fitting(n) && Atoi(['-'] + s) == Fitting(-(n as int))
  {
    Decimal.RenderDigits(n);
    Decimal.ValueOfRender(n);
    DigitsRead(s);
    SignedRead(s, '+');
    SignedRead(s, '-');
  }

  /** Zeros in front make no difference. */
  lemma {:induction false} ZerosInFront(s: string, sign: char)
    requires s != "" && (forall c :: c in s ==> Decimal.IsDigit(c)) && (sign == '+' || sign == '-')
    ensures Atoi("0" + s) == Atoi(s) && Atoi([sign] + ("0" + s)) == Atoi([sign] + s)
  {
    Decimal.LeadingZero(s);
    DigitsRead(s);
    DigitsRead("0" + s);
    SignedRead(s, sign);
    SignedRead("0" + s, sign);
  }

  /** Anything else is no number. */
  lemma {:induction false} OnlyNumbersRead(s: string)
    requires Atoi(s).Some?
    ensures var digits := if s != "" && (s[0] == '+' || s[0] == '-') then s[1..] else s;
      digits != "" && forall c :: c in digits ==> '0' <= c <= '9'
  {
    var digits := if s != "" && (s[0] == '+' || s[0] == '-') then s[1..] else s;
    assert forall c :: c in digits ==> Decimal.IsDigit(c);
  }

  /** A limit means itself, up to 1000, and an offset itself, if it fits 64 bits; without them there
      are the first 100 rows. A negative one is refused. */
  lemma {:induction false} PageParamsRead(n: nat, s: string)
    requires s == Decimal.Render(n)
    ensures LimitOf("") == Some(100) && OffsetOf("") == Some(0)
    ensures LimitOf(s) == if n <= 1000 then Some(n) else if n <= 0x7fff_ffff_ffff_ffff then Some(1000) else None
    ensures OffsetOf(s) == if n <= 0x7fff_ffff_ffff_ffff then Some(n) else None
    ensures n > 0 ==> LimitOf(['-'] + s) == None && OffsetOf(['-'] + s) == None
  {
    NumbersRead(n, s);
    Decimal.RenderDigits(n);
  }

  // ---- What is refused, and why ---------------------------------------------------------

  predicate NameFits(name: string)
  {
    1 <= |name| <= 128
  }

  /** bad is the first of the names, in byte order, that is empty or over 128 bytes. */
  ghost predicate FirstBad(names: set<string>, bad: string)
  {
    bad in names && !NameFits(bad) && forall n :: n in names && !NameFits(n) ==> Strings.Leq(bad, n)
  }

  lemma {:induction false} FirstInvalidIsFirst(names: seq<string>)
    requires Strings.Sorted(names)
    ensures match FirstInvalid(names)
      case None => forall n :: n in names ==> NameFits(n)
      case Some(bad) => bad in names && !NameFits(bad) && forall n :: n in names && !NameFits(n) ==> Strings.Leq(bad, n)
  {
    if names != [] {
      FirstInvalidIsFirst(names[1..]);
      assert names == [names[0]] + names[1..];
      forall n | n in names && !NameFits(n) && !NameFits(names[0]) ensures Strings.Leq(names[0], n) {
        Strings.LeqTotal(n, n);
        var i :| 0 <= i < |names| && names[i] == n;
      }
    }
  }

  lemma KeysChecked(names: set<string>)
    ensures match FirstInvalid(SortedKeys(names))
      case None => forall n :: n in names ==> NameFits(n)
      case Some(bad) => FirstBad(names, bad)
  {
    SortedKeysOk(names);
    FirstInvalidIsFirst(SortedKeys(names));
  }

  lemma {:induction false} SelectionErrors(parts: seq<string>)
    ensures ReadSelection(parts).Err? ==> ReadSelection(parts).error.InvalidSelect?
  {
    if parts != [] {
      SelectionErrors(parts[1..]);
    }
  }

  lemma {:induction false} OrderErrors(parts: seq<string>)
    ensures ReadOrder(parts).Err? ==> ReadOrder(parts).error.InvalidOrder? || ReadOrder(parts).error.InvalidDirection?
  {
    if parts != [] {
      OrderErrors(parts[1..]);
    }
  }

  /** What the checks that come before a statement say of the filters. */
  ghost predicate FiltersFit(q: Params)
  {
    forall k :: k in q && IsFilter(k) ==> NameFits(k)
  }

  lemma {:induction false} FiltersChecked(q: Params)
    ensures if FiltersFit(q) then Where(q).Ok? && (Where(q).value.0 == [] <==> forall k :: k in q ==> !IsFilter(k))
      else Where(q).Err? && exists k :: FirstBad(FilterKeys(q), k) && Where(q) == Err(InvalidFilter(k))
  {
    KeysChecked(FilterKeys(q));
    FiltersAreTheOthers(q);
    WhereOkIff(q);
    assert FilterKeys(q) == {} <==> forall k :: k in q ==> !IsFilter(k) by {
      if k :| k in q && IsFilter(k) {
        assert k in FilterKeys(q);
      }
    }
    assert Where(q).Err? ==> Where(q) == Err(InvalidFilter(FirstInvalid(SortedKeys(FilterKeys(q))).value));
  }

  /** A GET is accepted exactly when the table and every filter have names of 1 to 128 bytes and the
      other four parameters can be read. */
  lemma GetAcceptedIff(table: string, q: Params)
    ensures GetQuery(table, q).Ok? <==>
      && NameFits(table) && FiltersFit(q)
      && SelectionOf(Get(q, "select")).Ok? && OrderOf(Get(q, "order")).Ok?
      && LimitOf(Get(q, "limit")).Some? && OffsetOf(Get(q, "offset")).Some?
  {
    FiltersChecked(q);
  }

  /** Which of the checks an error reports, each after the ones before it have passed. */
  lemma GetErrors(table: string, q: Params, e: RestError)
    requires GetQuery(table, q) == Err(e)
    ensures match e
      case InvalidTable => !NameFits(table)
      case InvalidSelect(_) => NameFits(table) && SelectionOf(Get(q, "select")) == Err(e)
      case InvalidFilter(k) => NameFits(table) && SelectionOf(Get(q, "select")).Ok? && FirstBad(FilterKeys(q), k)
      case InvalidLimit => OrderOf(Get(q, "order")).Ok? && FiltersFit(q) && LimitOf(Get(q, "limit")).None?
      case InvalidOffset =>
        OrderOf(Get(q, "order")).Ok? && LimitOf(Get(q, "limit")).Some? && OffsetOf(Get(q, "offset")).None?
      case _ => FiltersFit(q) && OrderOf(Get(q, "order")) == Err(e)
  {
    FiltersChecked(q);
    SelectionErrors(Strings.Split(Get(q, "select"), ','));
    OrderErrors(Strings.Split(Get(q, "order"), ','));
  }

  /** A POST is accepted exactly when the table and every field have names of 1 to 128 bytes and
      there is a field; otherwise the error is that of the first of these to fail. */
  lemma {:induction false} PostAcceptedIff(table: string, data: map<string, Value>)
    ensures var r := PostQuery(table, data);
      && (r.Ok? <==> NameFits(table) && data != map[] && forall k :: k in data ==> NameFits(k))
      && (r == Err(InvalidTable) <==> !NameFits(table))
      && (r == Err(EmptyBody) <==> NameFits(table) && data == map[])
      && (r.Err? && NameFits(table) && data != map[] ==>
            exists k :: FirstBad(data.Keys, k) && r == Err(InvalidColumn(k)))
  {
    KeysChecked(data.Keys);
  }

  /** The same for PATCH, whose filters are checked after its fields, and DELETE; both need at least
      one filter. */
  lemma {:induction false} ChangeErrors(table: string, data: map<string, Value>, q: Params)
    requires NameFits(table)
    ensures data == map[] ==> PatchQuery(table, data, q) == Err(EmptyBody)
    ensures data != map[] && (exists k :: k in data && !NameFits(k)) ==>
      exists k :: FirstBad(data.Keys, k) && PatchQuery(table, data, q) == Err(InvalidColumn(k))
    ensures data != map[] && (forall k :: k in data ==> NameFits(k)) ==>
      if !FiltersFit(q) then exists k :: FirstBad(FilterKeys(q), k) && PatchQuery(table, data, q) == Err(InvalidFilter(k))
      else PatchQuery(table, data, q).Err? ==> PatchQuery(table, data, q) == Err(NoFilter)
    ensures !FiltersFit(q) ==> exists k :: FirstBad(FilterKeys(q), k) && DeleteQuery(table, q) == Err(InvalidFilter(k))
    ensures FiltersFit(q) && DeleteQuery(table, q).Err? ==> DeleteQuery(table, q) == Err(NoFilter)
  {
    KeysChecked(data.Keys);
    FiltersChecked(q);
  }
}
