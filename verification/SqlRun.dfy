/** Running the REST layer's statements on a table: bindings are consumed from left to right, and
    what SQLite decides on its own (comparison by affinity and collation, row order, defaults)
    comes from the engine. */
module SqlRun {
  import opened Prelude
  import opened SqlMeaning

  datatype Value = Null | Int(n: int) | Real(r: real) | Text(s: string) | Blob(b: Bytes)

  type Row = map<string, Value>

  datatype Table = Table(columns: seq<string>, rows: seq<Row>)

  /** compare orders the values of a column, none of them NULL, by its affinity and collation: one
      order decides all six comparisons. like is LIKE. */
  datatype Engine = Engine(
    compare: (string, Value, Value) -> int,
    like: (string, Value, Value) -> bool,
    sorted: (seq<Term>, seq<Row>) -> seq<Row>,
    defaults: Table -> Row)
  {
    /** A cell of a column compared with a value. */
    predicate holds(op: CmpOp, column: string, cell: Value, value: Value)
    {
      match op
      case Eq => compare(column, cell, value) == 0
      case Neq => compare(column, cell, value) != 0
      case Gt => compare(column, cell, value) > 0
      case Gte => compare(column, cell, value) >= 0
      case Lt => compare(column, cell, value) < 0
      case Lte => compare(column, cell, value) <= 0
      case Like => like(column, cell, value)
    }
  }

  /** compare is an order. */
  ghost predicate Ordered(e: Engine)
  {
    && (forall column, a, b :: e.compare(column, a, b) < 0 <==> e.compare(column, b, a) > 0)
    && (forall column, a, b, c ::
          e.compare(column, a, b) <= 0 && e.compare(column, b, c) <= 0 ==> e.compare(column, a, c) <= 0)
  }

  /** The value of a quoted name in a row: the column's or, when there is no such column, the name
      itself as a string, which is what SQLite reads it as. */
  function Cell(row: Row, column: string): Value
  {
    if column in row then row[column] else Text(column)
  }

  /** How many bindings the conjuncts take. */
  function Marks(conds: seq<Cond>): nat
  {
    if conds == [] then 0 else Marks(conds[1..]) + if conds[0].test.Compare? then 1 else 0
  }

  /** All conjuncts are true of the row; a comparison with NULL is not. */
  predicate Holds(e: Engine, row: Row, conds: seq<Cond>, args: seq<Value>)
    requires |args| == Marks(conds)
  {
    conds == [] || (
      var cell := Cell(row, conds[0].column);
      match conds[0].test
      case IsNull => cell == Null && Holds(e, row, conds[1..], args)
      case NotNull => cell != Null && Holds(e, row, conds[1..], args)
      case Compare(op) =>
        && cell != Null && args[0] != Null && e.holds(op, conds[0].column, cell, args[0])
        && Holds(e, row, conds[1..], args[1..]))
  }

  function Chosen(rows: seq<Row>, keep: Row -> bool): (r: seq<Row>)
    ensures forall row :: row in r <==> row in rows && keep(row)
  {
    if rows == [] then [] else (if keep(rows[0]) then [rows[0]] else []) + Chosen(rows[1..], keep)
  }

  function Page(rows: seq<Row>, limit: nat, offset: nat): (r: seq<Row>)
    ensures |r| <= limit
    ensures forall i :: 0 <= i < |r| ==> offset + i < |rows| && r[i] == rows[offset + i]
    ensures |r| < limit ==> offset + |r| >= |rows|
  {
    if offset >= |rows| then []
    else if |rows| - offset <= limit then rows[offset..]
    else rows[offset..offset + limit]
  }

  function Projected(row: Row, columns: seq<string>): (r: seq<(string, Value)>)
    ensures |r| == |columns| && forall i :: 0 <= i < |r| ==> r[i] == (columns[i], Cell(row, columns[i]))
  {
    if columns == [] then [] else [(columns[0], Cell(row, columns[0]))] + Projected(row, columns[1..])
  }

  function ProjectedAll(rows: seq<Row>, columns: seq<string>): (r: seq<seq<(string, Value)>>)
    ensures |r| == |rows| && forall i :: 0 <= i < |r| ==> r[i] == Projected(rows[i], columns)
  {
    if rows == [] then [] else [Projected(rows[0], columns)] + ProjectedAll(rows[1..], columns)
  }

  /** The row with each name set to the value bound at its position. */
  function Assigned(row: Row, names: seq<string>, args: seq<Value>): Row
    requires |names| == |args|
    decreases |names|
  {
    if names == [] then row else Assigned(row[names[0] := args[0]], names[1..], args[1..])
  }

  function Updated(rows: seq<Row>, keep: Row -> bool, names: seq<string>, args: seq<Value>): (r: seq<Row>)
    requires |names| == |args|
    ensures |r| == |rows|
    ensures forall i :: 0 <= i < |rows| ==> r[i] == if keep(rows[i]) then Assigned(rows[i], names, args) else rows[i]
  {
    if rows == [] then []
    else [if keep(rows[0]) then Assigned(rows[0], names, args) else rows[0]] + Updated(rows[1..], keep, names, args)
  }

  datatype Outcome = Outcome(table: Table, output: seq<seq<(string, Value)>>)

  /** None is an error: a wrong number of bindings, or a column to write that is not there. */
  function Execute(e: Engine, s: Stmt, args: seq<Value>, t: Table): Option<Outcome>
  {
    match s
    case Select(columns, _, conds, order, limit, offset) =>
      if |args| != Marks(conds) then None
      else
        var rows := Page(e.sorted(order, Chosen(t.rows, row => Holds(e, row, conds, args))), limit, offset);
        Some(Outcome(t, ProjectedAll(rows, columns.GetOr(t.columns))))
    case Insert(_, names) =>
      if |args| != |names| || exists n :: n in names && n !in t.columns then None
      else
        var row := Assigned(e.defaults(t), names, args);
        Some(Outcome(t.(rows := t.rows + [row]), [Projected(row, t.columns)]))
    case Update(_, sets, conds) =>
      if |args| != |sets| + Marks(conds) || exists n :: n in sets && n !in t.columns then None
      else
        var keep := (row: Row) => Holds(e, row, conds, args[|sets|..]);
        Some(Outcome(t.(rows := Updated(t.rows, keep, sets, args[..|sets|])), []))
    case Delete(_, conds) =>
      if |args| != Marks(conds) then None
      else Some(Outcome(t.(rows := Chosen(t.rows, row => !Holds(e, row, conds, args))), []))
  }

  /** Writing each of a map's values under its own name, in any order, is laying the map over the
      row. */
  lemma {:induction false} AssignedIsOverlay(row: Row, names: seq<string>, args: seq<Value>, data: map<string, Value>)
    requires |names| == |args|
    requires forall i :: 0 <= i < |names| ==> names[i] in data && args[i] == data[names[i]]
    ensures forall c :: c in Assigned(row, names, args) <==> c in row || c in names
    ensures forall c :: c in Assigned(row, names, args) ==>
      Assigned(row, names, args)[c] == if c in names then data[c] else row[c]
    decreases |names|
  {
    if names != [] {
      assert names == [names[0]] + names[1..];
      AssignedIsOverlay(row[names[0] := args[0]], names[1..], args[1..], data);
    }
  }
}
