/** Where the filters of the REST layer fall short of their syntax table: a parameter given more
    than once, of which only the first value is a filter, and a name that is no column, which
    SQLite reads as a string. For each, the exact condition under which nothing goes wrong. */
module RestFilters {
  import opened Prelude
  import opened SqlMeaning
  import opened SqlRun
  import opened Rest
  import opened RestCorrect

  /** What comes of a request: its query's text, run with its bindings. */
  function Ran(e: Engine, request: Result<Query, RestError>, t: Table): Option<Outcome>
  {
    if request.Err? then None
    else match Prepare(request.value.sql) case None => None case Some(s) => Execute(e, s, request.value.args, t)
  }

  /** Every row has exactly the table's columns, as in a database. */
  ghost predicate Rectangular(t: Table)
  {
    forall row :: row in t.rows ==> HasColumns(row, t.columns)
  }

  ghost predicate HasColumns(row: Row, columns: seq<string>)
  {
    forall c :: c in row <==> c in columns
  }

  // ---- Parameters given more than once --------------------------------------------------

  /** The syntax table taken at its word: a parameter that is not reserved is a filter, every time
      it is given. */
  predicate MeetsAll(e: Engine, row: Row, q: Params)
  {
    forall k :: k in FilterKeys(q) ==> SatisfiesEach(e, row, k, q[k])
  }

  predicate SatisfiesEach(e: Engine, row: Row, k: string, values: seq<string>)
  {
    forall i :: 0 <= i < |values| ==> Satisfies(e, row, k, ReadFilter(values[i]))
  }

  /** Whatever passes f passes g, in any order of the values. */
  predicate Implies(f: Filter, g: Filter)
  {
    || g == f
    || (f.Want? && g == WantNotNull)
    || (f.Want? && g.Want? && f.value == g.value && Stronger(f.op, g.op))
  }

  /** To the same value. */
  predicate Stronger(op: CmpOp, than: CmpOp)
  {
    match op
    case Eq => than == Gte || than == Lte
    case Gt => than == Gte || than == Neq
    case Lt => than == Lte || than == Neq
    case _ => false
  }

  /** There is a first value, and it makes the later ones redundant. */
  predicate FirstSuffices(values: seq<string>)
  {
    values != [] && forall i :: 0 <= i < |values| ==> Implies(ReadFilter(values[0]), ReadFilter(values[i]))
  }

  predicate FirstValuesSuffice(q: Params)
  {
    forall k :: k in FilterKeys(q) ==> FirstSuffices(q[k])
  }

  lemma KeyMet(e: Engine, row: Row, q: Params, k: string)
    requires k in FilterKeys(q) && FirstSuffices(q[k])
    ensures SatisfiesEach(e, row, k, q[k]) <==> Satisfies(e, row, k, FilterOf(q, k))
  {
    assert FilterOf(q, k) == ReadFilter(q[k][0]);
    if Satisfies(e, row, k, FilterOf(q, k)) {
      forall i | 0 <= i < |q[k]| ensures Satisfies(e, row, k, ReadFilter(q[k][i])) {
        assert Implies(ReadFilter(q[k][0]), ReadFilter(q[k][i]));
      }
    }
  }

  lemma FirstValuesAreAll(e: Engine, row: Row, q: Params)
    requires FirstValuesSuffice(q)
    ensures Meets(e, row, q) <==> MeetsAll(e, row, q)
  {
    forall k | k in FilterKeys(q)
      ensures SatisfiesEach(e, row, k, q[k]) <==> Satisfies(e, row, k, FilterOf(q, k))
    {
      KeyMet(e, row, q, k);
    }
  }

  // Where a value may lie, the cell lying at 0: to pass a comparison, to fail it, to pass one and
  // fail another.

  function Passing(op: CmpOp): int
  {
    match op case Neq => -1 case Gt => -1 case Lt => 1 case _ => 0
  }

  function Failing(op: CmpOp): int
  {
    match op case Eq => 1 case Gte => 1 case Lte => -1 case _ => 0
  }

  function Between(op: CmpOp, fails: CmpOp): int
  {
    match op
    case Neq => if fails == Lt || fails == Lte then -1 else 1
    case Gte => if fails == Eq || fails == Lte then -1 else 0
    case Lte => if fails == Eq || fails == Gte then 1 else 0
    case Like => Failing(fails)
    case _ => Passing(op)
  }

  function Place(f: Filter, g: Filter, s: string): int
  {
    if g.Want? && s == g.value then
      (if f.Want? && f.value == s && f != g then Between(f.op, g.op) else Failing(g.op))
    else if f.Want? && f.value == s then Passing(f.op)
    else 0
  }

  function Rank(q: Params, k: string, g: Filter, column: string, v: Value): int
  {
    match v
    case Text(s) => Place(FilterOf(q, column), if column == k then g else WantNull, s)
    case _ => 0
  }

  /** An engine that lets the first value of each parameter through, but not the filter g of k. */
  function Against(q: Params, k: string, g: Filter): Engine
  {
    Engine((column, a, b) => Rank(q, k, g, column, a) - Rank(q, k, g, column, b),
           (column, a, b) => !(column == k && g.Want? && g.op == Like && b == Text(g.value)),
           (terms, rows) => rows,
           t => map[])
  }

  lemma AgainstIsOrdered(q: Params, k: string, g: Filter)
    ensures Ordered(Against(q, k, g))
  {
  }

  /** A row that fits the first value of each parameter. */
  function Fitting(q: Params, columns: set<string>): (row: Row)
    ensures row.Keys == columns
  {
    map c | c in columns :: if c in q && FilterOf(q, c) == WantNull then Null else Int(0)
  }

  lemma FittingPasses(q: Params, k: string, g: Filter, other: string)
    requires other in FilterKeys(q)
    ensures Satisfies(Against(q, k, g), Fitting(q, FilterKeys(q)), other, FilterOf(q, other)) <==>
      !(other == k && g.Want? && g == FilterOf(q, k))
  {
  }

  lemma FittingFails(q: Params, k: string, g: Filter)
    requires k in FilterKeys(q) && (!Implies(FilterOf(q, k), g) || (g == FilterOf(q, k) && g.Want?))
    ensures !Satisfies(Against(q, k, g), Fitting(q, FilterKeys(q)), k, g)
  {
  }

  /** A later value that the first does not make redundant: the fitting row meets the first values
      and not all. */
  lemma LaterValueLost(q: Params, k: string, i: nat)
    requires k in FilterKeys(q) && i < |q[k]| && !Implies(ReadFilter(q[k][0]), ReadFilter(q[k][i]))
    ensures var e, row := Against(q, k, ReadFilter(q[k][i])), Fitting(q, FilterKeys(q));
      Meets(e, row, q) && !MeetsAll(e, row, q)
  {
    var g := ReadFilter(q[k][i]);
    var e, row := Against(q, k, g), Fitting(q, FilterKeys(q));
    assert FilterOf(q, k) == ReadFilter(q[k][0]);
    forall other | other in FilterKeys(q) ensures Satisfies(e, row, other, FilterOf(q, other)) {
      FittingPasses(q, k, g, other);
    }
    FittingFails(q, k, g);
    assert !SatisfiesEach(e, row, k, q[k]);
  }

  /** A parameter without values, and no lost value elsewhere: the clause is there all the same. */
  lemma NoValueFilters(q: Params, k: string)
    requires k in FilterKeys(q) && q[k] == []
    requires forall other :: other in FilterKeys(q) && q[other] != [] ==> FirstSuffices(q[other])
    ensures var e, row := Against(q, k, FilterOf(q, k)), Fitting(q, FilterKeys(q));
      !Meets(e, row, q) && MeetsAll(e, row, q)
  {
    var e, row := Against(q, k, FilterOf(q, k)), Fitting(q, FilterKeys(q));
    assert FilterOf(q, k) == Want(Eq, "");
    FittingPasses(q, k, FilterOf(q, k), k);
    forall other | other in FilterKeys(q) ensures SatisfiesEach(e, row, other, q[other]) {
      if q[other] != [] {
        FittingPasses(q, k, FilterOf(q, k), other);
        KeyMet(e, row, q, other);
      }
    }
  }

  /** A row and an engine on which the first values and all values disagree. */
  lemma Disagreement(q: Params) returns (e: Engine, row: Row)
    requires !FirstValuesSuffice(q)
    ensures Ordered(e) && exists k, g :: k in FilterKeys(q) && e == Against(q, k, g)
    ensures forall terms, rows :: e.sorted(terms, rows) == rows
    ensures row == Fitting(q, FilterKeys(q))
    ensures Meets(e, row, q) != MeetsAll(e, row, q)
  {
    row := Fitting(q, FilterKeys(q));
    if k :| k in FilterKeys(q) && q[k] != [] && !FirstSuffices(q[k]) {
      var i :| 0 <= i < |q[k]| && !Implies(ReadFilter(q[k][0]), ReadFilter(q[k][i]));
      e := Against(q, k, ReadFilter(q[k][i]));
      LaterValueLost(q, k, i);
      AgainstIsOrdered(q, k, ReadFilter(q[k][i]));
    } else {
      var k :| k in FilterKeys(q) && !FirstSuffices(q[k]);
      e := Against(q, k, FilterOf(q, k));
      NoValueFilters(q, k);
      AgainstIsOrdered(q, k, FilterOf(q, k));
    }
  }

  /** The filters that are used mean the filters that were given, on every engine and every row,
      exactly when each first value makes the later ones redundant. */
  lemma MeetsAllIff(q: Params)
    ensures (forall e, row :: Ordered(e) ==> (Meets(e, row, q) <==> MeetsAll(e, row, q))) <==> FirstValuesSuffice(q)
  {
    if FirstValuesSuffice(q) {
      forall e, row ensures Meets(e, row, q) <==> MeetsAll(e, row, q) {
        FirstValuesAreAll(e, row, q);
      }
    } else {
      var e, row := Disagreement(q);
    }
  }

  /** The row passes the WHERE clause, fed its bindings. */
  ghost predicate Passes(e: Engine, row: Row, q: Params)
  {
    var keys := SortedKeys(FilterKeys(q));
    Marks(Conds(q, keys)) == |Args(q, keys)| && Holds(e, row, Conds(q, keys), Args(q, keys))
  }

  /** The same of the WHERE clause. */
  lemma WhereMeetsAllIff(q: Params)
    ensures (forall e, row :: Ordered(e) ==> (Passes(e, row, q) <==> MeetsAll(e, row, q))) <==> FirstValuesSuffice(q)
  {
    forall e, row ensures Passes(e, row, q) <==> Meets(e, row, q) {
      HoldsIffMeets(e, row, q);
    }
    MeetsAllIff(q);
  }

  function Copies(row: Row, n: nat): (rows: seq<Row>)
    ensures |rows| == n && forall r :: r in rows ==> r == row
  {
    if n == 0 then [] else [row] + Copies(row, n - 1)
  }

  /** Copies of the fitting row, in a table with the filters' columns. */
  ghost function FilterTable(q: Params, n: nat): (t: Table)
    ensures Rectangular(t) && t.rows == Copies(Fitting(q, FilterKeys(q)), n)
    ensures forall k :: k in FilterKeys(q) ==> k in t.columns
  {
    SortedKeysOk(FilterKeys(q));
    Table(SortedKeys(FilterKeys(q)), Copies(Fitting(q, FilterKeys(q)), n))
  }

  /** The rows to keep are left, in their order. */
  ghost predicate Kept(t: Table, end: Option<Outcome>, keep: Row -> bool)
  {
    end == Some(Outcome(t.(rows := Chosen(t.rows, keep)), []))
  }

  lemma KeptSame(t: Table, end: Option<Outcome>, keep: Row -> bool, keep': Row -> bool)
    requires Kept(t, end, keep) && forall row :: keep(row) == keep'(row)
    ensures Kept(t, end, keep')
  {
    ChosenSame(t.rows, keep, keep');
  }

  /** What is left tells what was kept. */
  lemma KeptTells(t: Table, end: Option<Outcome>, keep: Row -> bool, keep': Row -> bool, row: Row)
    requires Kept(t, end, keep) && Kept(t, end, keep') && row in t.rows
    ensures keep(row) == keep'(row)
  {
    assert row in end.value.table.rows <==> keep(row);
  }

  lemma {:induction false} ChosenAllOrNone(rows: seq<Row>, keep: Row -> bool, all: bool)
    requires forall row :: row in rows ==> keep(row) == all
    ensures Chosen(rows, keep) == if all then rows else []
  {
    if rows != [] {
      ChosenAllOrNone(rows[1..], keep, all);
    }
  }

  lemma KeptAllOrNone(t: Table, end: Option<Outcome>, keep: Row -> bool, all: bool)
    requires Kept(t, end, keep) && forall row :: row in t.rows ==> keep(row) == all
    ensures end == Some(Outcome(t.(rows := if all then t.rows else []), []))
  {
    ChosenAllOrNone(t.rows, keep, all);
  }

  lemma DeleteRan(e: Engine, table: string, q: Params, t: Table)
    requires DeleteQuery(table, q).Ok?
    ensures Kept(t, Ran(e, DeleteQuery(table, q), t), row => !Meets(e, row, q))
  {
    DeleteMeaning(e, table, q, t);
  }

  /** DELETE removes exactly the rows that meet every filter that was given. */
  ghost predicate DeletesExactly(e: Engine, table: string, q: Params, t: Table)
  {
    Kept(t, Ran(e, DeleteQuery(table, q), t), row => !MeetsAll(e, row, q))
  }

  lemma SameHits(e: Engine, q: Params)
    requires FirstValuesSuffice(q)
    ensures forall row :: Meets(e, row, q) == MeetsAll(e, row, q)
  {
    forall row ensures Meets(e, row, q) == MeetsAll(e, row, q) {
      FirstValuesAreAll(e, row, q);
    }
  }

  lemma FilterTableRow(q: Params)
    ensures Fitting(q, FilterKeys(q)) in FilterTable(q, 1).rows
  {
    assert FilterTable(q, 1).rows[0] == Fitting(q, FilterKeys(q));
  }

  /** An accepted DELETE removes what the syntax table says, whatever the table and the engine,
      exactly when each first value makes the later ones redundant. */
  lemma DeleteMeetsAllIff(table: string, q: Params)
    requires DeleteQuery(table, q).Ok?
    ensures (forall e, t :: Ordered(e) && Rectangular(t) ==> DeletesExactly(e, table, q, t)) <==> FirstValuesSuffice(q)
  {
    if FirstValuesSuffice(q) {
      forall e, t ensures DeletesExactly(e, table, q, t) {
        DeleteRan(e, table, q, t);
        SameHits(e, q);
        KeptSame(t, Ran(e, DeleteQuery(table, q), t), row => !Meets(e, row, q), row => !MeetsAll(e, row, q));
      }
    } else {
      var e, row := Disagreement(q);
      var t := FilterTable(q, 1);
      DeleteRan(e, table, q, t);
      FilterTableRow(q);
      if DeletesExactly(e, table, q, t) {
        KeptTells(t, Ran(e, DeleteQuery(table, q), t), r => !Meets(e, r, q), r => !MeetsAll(e, r, q), row);
      }
    }
  }

  /** The body lies over the rows that are hit, the others are as they were, and it all fails if the
      body names a column the table lacks. */
  ghost predicate LaidOver(t: Table, end: Option<Outcome>, data: map<string, Value>, hit: Row -> bool)
  {
    && (end.Some? <==> forall c :: c in data ==> c in t.columns)
    && (end.Some? ==>
          && end.value.table.columns == t.columns && |end.value.table.rows| == |t.rows|
          && forall i :: 0 <= i < |t.rows| ==>
               end.value.table.rows[i] == if hit(t.rows[i]) then t.rows[i] + data else t.rows[i])
  }

  /** PATCH lays the body over exactly the rows that meet every filter that was given. */
  ghost predicate PatchesExactly(e: Engine, table: string, data: map<string, Value>, q: Params, t: Table)
  {
    LaidOver(t, Ran(e, PatchQuery(table, data, q), t), data, row => MeetsAll(e, row, q))
  }

  lemma PatchRan(e: Engine, table: string, data: map<string, Value>, q: Params, t: Table)
    requires PatchQuery(table, data, q).Ok?
    ensures LaidOver(t, Ran(e, PatchQuery(table, data, q), t), data, row => Meets(e, row, q))
  {
    PatchMeaning(e, table, data, q, t);
  }

  lemma LaidOverSame(t: Table, end: Option<Outcome>, data: map<string, Value>, hit: Row -> bool, hit': Row -> bool)
    requires LaidOver(t, end, data, hit) && forall row :: hit(row) == hit'(row)
    ensures LaidOver(t, end, data, hit')
  {
  }

  /** The outcome tells what was hit, by a row that the body changes. */
  lemma LaidOverTells(t: Table, end: Option<Outcome>, data: map<string, Value>, hit: Row -> bool, hit': Row -> bool)
    requires LaidOver(t, end, data, hit) && LaidOver(t, end, data, hit')
    requires t.rows != [] && t.rows[0] + data != t.rows[0] && forall c :: c in data ==> c in t.columns
    ensures hit(t.rows[0]) == hit'(t.rows[0])
  {
  }

  lemma PatchAccepted(table: string, q: Params, k: string, v: Value)
    requires DeleteQuery(table, q).Ok? && k in FilterKeys(q)
    ensures PatchQuery(table, map[k := v], q).Ok?
  {
    ChangesAccepted(table, map[k := v], q);
    assert k in map[k := v];
  }

  lemma BodyShows(q: Params, k: string)
    requires k in FilterKeys(q)
    ensures var row := Fitting(q, FilterKeys(q)); row + map[k := Int(7)] != row
  {
    assert (Fitting(q, FilterKeys(q)) + map[k := Int(7)])[k] == Int(7);
  }

  /** A body that changes the fitting row is laid over it, or not, against what was asked. */
  lemma PatchTells(e: Engine, q: Params, k: string, end: Option<Outcome>)
    requires var row := Fitting(q, FilterKeys(q)); Meets(e, row, q) != MeetsAll(e, row, q)
    requires k in FilterKeys(q) && LaidOver(FilterTable(q, 1), end, map[k := Int(7)], r => Meets(e, r, q))
    ensures !LaidOver(FilterTable(q, 1), end, map[k := Int(7)], r => MeetsAll(e, r, q))
  {
    var t, data := FilterTable(q, 1), map[k := Int(7)];
    BodyShows(q, k);
    assert t.rows[0] == Fitting(q, FilterKeys(q));
    if LaidOver(t, end, data, r => MeetsAll(e, r, q)) {
      LaidOverTells(t, end, data, r => Meets(e, r, q), r => MeetsAll(e, r, q));
    }
  }

  /** The same for PATCH, over every body that is accepted. */
  lemma PatchMeetsAllIff(table: string, q: Params)
    requires DeleteQuery(table, q).Ok?
    ensures (forall e, data, t :: PatchQuery(table, data, q).Ok? && Ordered(e) && Rectangular(t) ==>
               PatchesExactly(e, table, data, q, t)) <==> FirstValuesSuffice(q)
  {
    if FirstValuesSuffice(q) {
      forall e, data, t | PatchQuery(table, data, q).Ok? ensures PatchesExactly(e, table, data, q, t) {
        PatchRan(e, table, data, q, t);
        SameHits(e, q);
        LaidOverSame(t, Ran(e, PatchQuery(table, data, q), t), data,
                     row => Meets(e, row, q), row => MeetsAll(e, row, q));
      }
    } else {
      var e, row := Disagreement(q);
      var k, g :| k in FilterKeys(q) && e == Against(q, k, g);
      var data, t := map[k := Int(7)], FilterTable(q, 1);
      PatchAccepted(table, q, k, Int(7));
      PatchRan(e, table, data, q, t);
      PatchTells(e, q, k, Ran(e, PatchQuery(table, data, q), t));
      assert !PatchesExactly(e, table, data, q, t);
    }
  }

  /** What a GET asks for besides its filters. */
  datatype Shape = Shape(columns: Option<seq<string>>, order: seq<Term>, limit: nat, offset: nat)

  ghost predicate Asks(q: Params, s: Shape)
  {
    && SelectionOf(Get(q, "select")) == Ok(s.columns) && OrderOf(Get(q, "order")) == Ok(s.order)
    && LimitOf(Get(q, "limit")) == Some(s.limit) && OffsetOf(Get(q, "offset")) == Some(s.offset)
  }

  lemma GetAsks(table: string, q: Params) returns (s: Shape)
    requires GetQuery(table, q).Ok?
    ensures Asks(q, s)
  {
    s := Shape(SelectionOf(Get(q, "select")).value, OrderOf(Get(q, "order")).value,
               LimitOf(Get(q, "limit")).value, OffsetOf(Get(q, "offset")).value);
  }

  /** The page of the rows that were hit, ordered and projected as asked. */
  ghost predicate Answered(e: Engine, s: Shape, t: Table, end: Option<Outcome>, hit: Row -> bool)
  {
    end == Some(Outcome(t, ProjectedAll(Page(e.sorted(s.order, Chosen(t.rows, hit)), s.limit, s.offset),
                                        s.columns.GetOr(t.columns))))
  }

  lemma AnsweredSame(e: Engine, s: Shape, t: Table, end: Option<Outcome>, hit: Row -> bool, hit': Row -> bool)
    requires Answered(e, s, t, end, hit) && (s.limit == 0 || forall row :: hit(row) == hit'(row))
    ensures Answered(e, s, t, end, hit')
  {
    if s.limit > 0 {
      ChosenSame(t.rows, hit, hit');
    }
  }

  /** GET answers with the page of the rows that meet every filter that was given. */
  ghost predicate GetsExactly(e: Engine, table: string, q: Params, t: Table)
  {
    exists s :: Asks(q, s) && Answered(e, s, t, Ran(e, GetQuery(table, q), t), row => MeetsAll(e, row, q))
  }

  lemma GetRan(e: Engine, table: string, q: Params, t: Table, s: Shape)
    requires GetQuery(table, q).Ok? && Asks(q, s)
    ensures Answered(e, s, t, Ran(e, GetQuery(table, q), t), row => Meets(e, row, q))
  {
    GetMeaning(e, table, q, t);
  }

  lemma {:induction false} ChosenCopies(row: Row, n: nat, keep: Row -> bool)
    ensures Chosen(Copies(row, n), keep) == if keep(row) then Copies(row, n) else []
  {
    if n > 0 {
      ChosenCopies(row, n - 1, keep);
      assert Copies(row, n)[1..] == Copies(row, n - 1);
    }
  }

  /** Enough copies of a row to reach past the offset: a page with a row, or an empty one. */
  lemma PagesDiffer(row: Row, limit: nat, offset: nat, hit: Row -> bool, hit': Row -> bool)
    requires hit(row) != hit'(row) && limit > 0
    ensures var rows := Copies(row, offset + 1);
      |Page(Chosen(rows, hit), limit, offset)| != |Page(Chosen(rows, hit'), limit, offset)|
  {
    ChosenCopies(row, offset + 1, hit);
    ChosenCopies(row, offset + 1, hit');
  }

  /** The length of the answer tells whether the copies were hit. */
  lemma {:induction false} AnsweredTells(
    e: Engine, s: Shape, t: Table, row: Row, end: Option<Outcome>, hit: Row -> bool, hit': Row -> bool)
    requires (forall terms, rows :: e.sorted(terms, rows) == rows) && s.limit > 0
    requires t.rows == Copies(row, s.offset + 1) && hit(row) != hit'(row)
    requires Answered(e, s, t, end, hit)
    ensures !Answered(e, s, t, end, hit')
  {
    PagesDiffer(row, s.limit, s.offset, hit, hit');
  }

  /** The same for GET, except that an empty page is right whatever the filters. */
  lemma GetMeetsAllIff(table: string, q: Params)
    requires GetQuery(table, q).Ok?
    ensures (forall e, t :: Ordered(e) && Rectangular(t) ==> GetsExactly(e, table, q, t)) <==>
      FirstValuesSuffice(q) || LimitOf(Get(q, "limit")) == Some(0)
  {
    var s := GetAsks(table, q);
    if FirstValuesSuffice(q) || s.limit == 0 {
      forall e, t ensures GetsExactly(e, table, q, t) {
        GetRan(e, table, q, t, s);
        if s.limit > 0 {
          SameHits(e, q);
        }
        AnsweredSame(e, s, t, Ran(e, GetQuery(table, q), t), row => Meets(e, row, q), row => MeetsAll(e, row, q));
      }
    } else {
      var e, row := Disagreement(q);
      var t := FilterTable(q, s.offset + 1);
      GetRan(e, table, q, t, s);
      AnsweredTells(e, s, t, row, Ran(e, GetQuery(table, q), t), r => Meets(e, r, q), r => MeetsAll(e, r, q));
      assert !GetsExactly(e, table, q, t);
    }
  }

  lemma BothRead()
    ensures ReadFilter("gt.5") == Want(Gt, "5") && ReadFilter("lt.10") == Want(Lt, "10")
  {
    FilterRoundTrip(Want(Gt, "5"));
    FilterRoundTrip(Want(Lt, "10"));
    assert "gt" + "." + "5" == "gt.5" && "lt" + "." + "10" == "lt.10";
  }

  const FIVE_TO_TEN: Params := map["age" := ["gt.5", "lt.10"]]

  lemma OnlyFirstMet(e: Engine, row: Row)
    requires row == map["age" := Int(100)]
    requires e.holds(Gt, "age", Int(100), Text("5")) && !e.holds(Lt, "age", Int(100), Text("10"))
    ensures FilterKeys(FIVE_TO_TEN) == {"age"}
    ensures Meets(e, row, FIVE_TO_TEN) && !MeetsAll(e, row, FIVE_TO_TEN)
  {
    var q := FIVE_TO_TEN;
    BothRead();
    assert FilterOf(q, "age") == Want(Gt, "5") && ReadFilter(q["age"][1]) == Want(Lt, "10");
    assert !SatisfiesEach(e, row, "age", q["age"]);
    assert "age" in FilterKeys(q);
  }

  /** The query that the repository's tests first try, age over 5 and under 10, on a row of age 100:
      it meets one filter and not the other, and DELETE removes it. */
  lemma RepeatedParameterIsLost(e: Engine, t: Table)
    requires e.holds(Gt, "age", Int(100), Text("5")) && !e.holds(Lt, "age", Int(100), Text("10"))
    requires t.rows == [map["age" := Int(100)]]
    ensures !MeetsAll(e, t.rows[0], FIVE_TO_TEN)
    ensures DeleteQuery("t", FIVE_TO_TEN).Ok?
    ensures Ran(e, DeleteQuery("t", FIVE_TO_TEN), t) == Some(Outcome(t.(rows := []), []))
  {
    OnlyFirstMet(e, t.rows[0]);
    ChangesAccepted("t", map[], FIVE_TO_TEN);
    DeleteRan(e, "t", FIVE_TO_TEN, t);
    KeptAllOrNone(t, Ran(e, DeleteQuery("t", FIVE_TO_TEN), t), row => !Meets(e, row, FIVE_TO_TEN), false);
  }

  // ---- Names that are no columns --------------------------------------------------------

  /** No row has a say in a filter on a name that is no column: it is true of all rows or of none,
      as it is of a row without columns. */
  lemma UnknownNameIsConstant(e: Engine, row: Row, columns: seq<string>, k: string, f: Filter)
    requires HasColumns(row, columns) && k !in columns
    ensures Satisfies(e, row, k, f) <==> Satisfies(e, map[], k, f)
    ensures f == WantNotNull ==> Satisfies(e, row, k, f)
  {
  }

  /** A filter that nothing passes that reads as the name itself. */
  predicate NeverTrueOf(name: string, f: Filter)
  {
    f == WantNull || (f.Want? && f.value == name && (f.op == Neq || f.op == Gt || f.op == Lt))
  }

  lemma NeverTrue(e: Engine, row: Row, columns: seq<string>, k: string, f: Filter)
    requires Ordered(e) && HasColumns(row, columns) && k !in columns && NeverTrueOf(k, f)
    ensures !Satisfies(e, row, k, f)
  {
    assert e.compare(k, Text(k), Text(k)) == 0;
  }

  ghost predicate NoColumns(q: Params, columns: seq<string>)
  {
    forall k :: k in FilterKeys(q) ==> k !in columns
  }

  lemma UnknownNamesAreConstant(e: Engine, row: Row, columns: seq<string>, q: Params)
    requires HasColumns(row, columns) && NoColumns(q, columns)
    ensures Meets(e, row, q) <==> Meets(e, map[], q)
  {
    forall k | k in FilterKeys(q) ensures Satisfies(e, row, k, FilterOf(q, k)) <==> Satisfies(e, map[], k, FilterOf(q, k)) {
      UnknownNameIsConstant(e, row, columns, k, FilterOf(q, k));
    }
  }

  lemma NamesConstantOver(e: Engine, t: Table, q: Params)
    requires Rectangular(t) && NoColumns(q, t.columns)
    ensures forall row :: row in t.rows ==> Meets(e, row, q) == Meets(e, map[], q)
  {
    forall row | row in t.rows ensures Meets(e, row, q) == Meets(e, map[], q) {
      UnknownNamesAreConstant(e, row, t.columns, q);
    }
  }

  /** A DELETE whose filters all name no column removes every row or none. */
  lemma UnknownNamesDeleteAllOrNone(e: Engine, table: string, q: Params, t: Table)
    requires DeleteQuery(table, q).Ok? && Rectangular(t) && NoColumns(q, t.columns)
    ensures Ran(e, DeleteQuery(table, q), t) ==
      Some(Outcome(t.(rows := if Meets(e, map[], q) then [] else t.rows), []))
  {
    DeleteRan(e, table, q, t);
    NamesConstantOver(e, t, q);
    KeptAllOrNone(t, Ran(e, DeleteQuery(table, q), t), row => !Meets(e, row, q), !Meets(e, map[], q));
  }

  /** A PATCH whose filters all name no column overwrites every row or none. */
  lemma UnknownNamesPatchAllOrNone(e: Engine, table: string, data: map<string, Value>, q: Params, t: Table)
    requires PatchQuery(table, data, q).Ok? && Rectangular(t) && NoColumns(q, t.columns)
    ensures LaidOver(t, Ran(e, PatchQuery(table, data, q), t), data, row => Meets(e, map[], q))
  {
    PatchRan(e, table, data, q, t);
    NamesConstantOver(e, t, q);
  }

  /** Asking for rows where a misspelt name is not null empties the table. */
  lemma UnknownNameEmptiesTable(e: Engine, t: Table)
    requires Rectangular(t) && "zz" !in t.columns
    ensures var q: Params := map["zz" := ["not.null"]];
      && DeleteQuery("t", q).Ok?
      && Ran(e, DeleteQuery("t", q), t) == Some(Outcome(t.(rows := []), []))
  {
    var q: Params := map["zz" := ["not.null"]];
    assert FilterKeys(q) == {"zz"};
    ChangesAccepted("t", map[], q);
    assert Meets(e, map[], q);
    UnknownNamesDeleteAllOrNone(e, "t", q, t);
  }

  /** The filters look at the rows: some filter is on a column, and none on another name is never
      true of that name. */
  ghost predicate LooksAtRows(q: Params, columns: seq<string>)
  {
    && (exists k :: k in FilterKeys(q) && k in columns)
    && (forall k :: k in FilterKeys(q) && k !in columns ==> !NeverTrueOf(k, FilterOf(q, k)))
  }

  /** Some rows were removed and others kept. */
  ghost predicate RemovedSome(t: Table, end: Option<Outcome>)
  {
    end.Some? && end.value.table.rows != [] && end.value.table.rows != t.rows
  }

  lemma KnownPasses(q: Params, columns: set<string>, k: string)
    requires k in FilterKeys(q) && k in columns
    ensures Satisfies(Against(q, "", WantNull), Fitting(q, columns), k, FilterOf(q, k))
  {
  }

  lemma UnknownPasses(q: Params, columns: set<string>, k: string)
    requires k in FilterKeys(q) && k !in columns && !NeverTrueOf(k, FilterOf(q, k))
    ensures Satisfies(Against(q, "", WantNull), Fitting(q, columns), k, FilterOf(q, k))
  {
    assert Cell(Fitting(q, columns), k) == Text(k);
  }

  lemma FlippedFails(e: Engine, row: Row, k: string, f: Filter)
    requires k in row && row[k] == (if f == WantNull then Text("") else Null)
    ensures !Satisfies(e, row, k, f)
  {
  }

  /** The fitting row, with one column the other way. */
  lemma TwoRows(q: Params, columns: seq<string>) returns (e: Engine, yes: Row, no: Row)
    requires LooksAtRows(q, columns)
    ensures HasColumns(yes, columns) && HasColumns(no, columns)
    ensures Ordered(e) && Meets(e, yes, q) && !Meets(e, no, q)
  {
    var k :| k in FilterKeys(q) && k in columns;
    var all := set c | c in columns;
    e := Against(q, "", WantNull);
    AgainstIsOrdered(q, "", WantNull);
    yes := Fitting(q, all);
    no := yes[k := if FilterOf(q, k) == WantNull then Text("") else Null];
    FlippedFails(e, no, k, FilterOf(q, k));
    FittingMeets(q, columns, all);
    FiltersAreTheOthers(q);
  }

  lemma FittingMeets(q: Params, columns: seq<string>, all: set<string>)
    requires LooksAtRows(q, columns) && all == set c | c in columns
    ensures Meets(Against(q, "", WantNull), Fitting(q, all), q)
  {
    forall other | other in FilterKeys(q)
      ensures Satisfies(Against(q, "", WantNull), Fitting(q, all), other, FilterOf(q, other))
    {
      if other in columns {
        KnownPasses(q, all, other);
      } else {
        UnknownPasses(q, all, other);
      }
    }
    FiltersAreTheOthers(q);
  }

  lemma SomeRemoved(t: Table, end: Option<Outcome>, keep: Row -> bool, yes: Row, no: Row)
    requires Kept(t, end, keep) && keep(yes) && !keep(no) && yes in t.rows && no in t.rows
    ensures RemovedSome(t, end)
  {
    assert yes in end.value.table.rows && no !in end.value.table.rows;
  }

  lemma NoneOrAllRemoved(e: Engine, q: Params, t: Table, end: Option<Outcome>)
    requires Kept(t, end, row => !Meets(e, row, q))
    requires Ordered(e) && Rectangular(t) && !LooksAtRows(q, t.columns)
    ensures !RemovedSome(t, end)
  {
    if NoColumns(q, t.columns) {
      NamesConstantOver(e, t, q);
      KeptAllOrNone(t, end, row => !Meets(e, row, q), !Meets(e, map[], q));
    } else {
      var k :| k in FilterKeys(q) && k !in t.columns && NeverTrueOf(k, FilterOf(q, k));
      forall row | row in t.rows ensures !Meets(e, row, q) {
        NeverTrue(e, row, t.columns, k, FilterOf(q, k));
      }
      KeptAllOrNone(t, end, row => !Meets(e, row, q), true);
    }
  }

  lemma TwoRowTable(columns: seq<string>, yes: Row, no: Row) returns (t: Table)
    requires HasColumns(yes, columns) && HasColumns(no, columns)
    ensures Rectangular(t) && t.columns == columns && yes in t.rows && no in t.rows
  {
    t := Table(columns, [yes, no]);
  }

  /** What protects a table is not that there is a filter: a DELETE can tell its rows apart exactly
      when some filter is on a column of the table and none on another name is never true of it. */
  lemma DeletesSomeIff(table: string, q: Params, columns: seq<string>)
    requires DeleteQuery(table, q).Ok?
    ensures (exists e, t ::
        Ordered(e) && Rectangular(t) && t.columns == columns && RemovedSome(t, Ran(e, DeleteQuery(table, q), t)))
      <==> LooksAtRows(q, columns)
  {
    if LooksAtRows(q, columns) {
      var e, yes, no := TwoRows(q, columns);
      var t := TwoRowTable(columns, yes, no);
      DeleteRan(e, table, q, t);
      SomeRemoved(t, Ran(e, DeleteQuery(table, q), t), row => !Meets(e, row, q), no, yes);
    } else {
      forall e, t | Ordered(e) && Rectangular(t) && t.columns == columns
        ensures !RemovedSome(t, Ran(e, DeleteQuery(table, q), t))
      {
        DeleteRan(e, table, q, t);
        NoneOrAllRemoved(e, q, t, Ran(e, DeleteQuery(table, q), t));
      }
    }
  }
}
