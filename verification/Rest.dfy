/** The REST layer's compiler (server/handler/rest.go): URL parameters and a JSON body become SQL
    text with quoted names and bindings for every value. The functions say what is built, the
    methods build it as the code does, and RestCorrect says what it means. Strings are sequences
    of bytes, one char per byte. */
module Rest {
  import opened Prelude
  import opened SqlText
  import opened SqlMeaning
  import opened SqlRun
  import Decimal
  import Strings

  /** url.Values: every parameter with the values it was given, first one first. */
  type Params = map<string, seq<string>>

  const RESERVED: set<string> := {"select", "order", "limit", "offset"}
  const DEFAULT_LIMIT: nat := 100
  const MAX_LIMIT: nat := 1000
  const MAX_IDENT: nat := 128

  datatype RestError =
    | InvalidTable | InvalidSelect(column: string) | InvalidFilter(key: string)
    | InvalidOrder(column: string) | InvalidDirection(text: string)
    | InvalidLimit | InvalidOffset | EmptyBody | InvalidColumn(name: string) | NoFilter

  datatype Query = Query(sql: string, args: seq<Value>)

  /** url.Values.Get. */
  function Get(q: Params, key: string): string
  {
    if key in q && q[key] != [] then q[key][0] else ""
  }

  predicate ValidIdent(name: string)
  {
    1 <= |name| <= MAX_IDENT
  }

  function FirstInvalid(names: seq<string>): Option<string>
  {
    if names == [] then None
    else if !ValidIdent(names[0]) then Some(names[0])
    else FirstInvalid(names[1..])
  }

  lemma {:induction false} FirstInvalidOk(names: seq<string>)
    ensures var r := FirstInvalid(names);
      && (r.None? <==> forall n :: n in names ==> ValidIdent(n))
      && (r.Some? ==> r.value in names && !ValidIdent(r.value))
  {
    if names != [] {
      FirstInvalidOk(names[1..]);
      assert names == [names[0]] + names[1..];
    }
  }

  // ---- Key order ------------------------------------------------------------------------

  ghost predicate ListsKeys(keys: seq<string>, names: set<string>)
  {
    && (forall k :: k in keys <==> k in names)
    && (forall i, j :: 0 <= i < j < |keys| ==> keys[i] != keys[j])
  }

  ghost function Listing(names: set<string>): (keys: seq<string>)
    ensures ListsKeys(keys, names)
    decreases |names|
  {
    if names == {} then []
    else
      var n :| n in names;
      [n] + Listing(names - {n})
  }

  /** The keys of a map, sorted. */
  ghost function SortedKeys(names: set<string>): seq<string>
  {
    Strings.Sort(Listing(names))
  }

  lemma SortedKeysOk(names: set<string>)
    ensures ListsKeys(SortedKeys(names), names) && Strings.Sorted(SortedKeys(names))
  {
    var keys := Listing(names);
    Strings.SortOk(keys);
    SameElements(keys, SortedKeys(names));
  }

  lemma SameElements(a: seq<string>, b: seq<string>)
    requires multiset(a) == multiset(b)
    ensures forall k :: k in a <==> k in b
    ensures (forall i, j :: 0 <= i < j < |a| ==> a[i] != a[j]) ==> forall i, j :: 0 <= i < j < |b| ==> b[i] != b[j]
  {
    forall k ensures k in a <==> k in b {
      assert k in a <==> k in multiset(a);
      assert k in b <==> k in multiset(b);
    }
    if forall i, j :: 0 <= i < j < |a| ==> a[i] != a[j] {
      forall i, j | 0 <= i < j < |b| ensures b[i] != b[j] {
        CountsOnce(a, b[i]);
        CountsTwice(b, i, j);
      }
    }
  }

  lemma CountsTwice(b: seq<string>, i: nat, j: nat)
    requires i < j < |b|
    ensures b[i] == b[j] ==> multiset(b)[b[i]] >= 2
  {
    assert b == b[..i] + [b[i]] + b[i + 1..j] + [b[j]] + b[j + 1..];
  }

  lemma {:induction false} CountsOnce(a: seq<string>, x: string)
    requires forall i, j :: 0 <= i < j < |a| ==> a[i] != a[j]
    ensures multiset(a)[x] <= 1
  {
    if a != [] {
      CountsOnce(a[1..], x);
      assert a == [a[0]] + a[1..];
      if x == a[0] {
        assert x !in a[1..];
      }
    }
  }

  /** Whatever order a map yields its keys in, they sort to the same list. */
  lemma {:induction false} AnyOrderSorts(keys: seq<string>, names: set<string>)
    requires ListsKeys(keys, names)
    ensures Strings.Sort(keys) == SortedKeys(names)
  {
    var other := Listing(names);
    forall k ensures multiset(keys)[k] == multiset(other)[k] {
      CountsOnce(keys, k);
      CountsOnce(other, k);
      assert k in keys <==> k in multiset(keys);
      assert k in other <==> k in multiset(other);
    }
    Strings.SortIgnoresOrder(keys, other);
  }

  // ---- Filters --------------------------------------------------------------------------

  /** What one filter parameter asks for. */
  datatype Filter = WantNull | WantNotNull | Want(op: CmpOp, value: string)

  function OpName(op: CmpOp): string
  {
    match op
    case Eq => "eq"
    case Neq => "neq"
    case Gt => "gt"
    case Gte => "gte"
    case Lt => "lt"
    case Lte => "lte"
    case Like => "like"
  }

  function OpSql(op: CmpOp): string
  {
    match op
    case Eq => "="
    case Neq => "!="
    case Gt => ">"
    case Gte => ">="
    case Lt => "<"
    case Lte => "<="
    case Like => "LIKE"
  }

  /** The switch of buildRestWhere, in its order. */
  function ReadFilter(val: string): Filter
  {
    if val == "is.null" then WantNull
    else if val == "not.null" then WantNotNull
    else if Strings.HasPrefix(val, "eq.") then Want(Eq, val[3..])
    else if Strings.HasPrefix(val, "neq.") then Want(Neq, val[4..])
    else if Strings.HasPrefix(val, "gt.") then Want(Gt, val[3..])
    else if Strings.HasPrefix(val, "gte.") then Want(Gte, val[4..])
    else if Strings.HasPrefix(val, "lt.") then Want(Lt, val[3..])
    else if Strings.HasPrefix(val, "lte.") then Want(Lte, val[4..])
    else if Strings.HasPrefix(val, "like.") then Want(Like, val[5..])
    else Want(Eq, val)
  }

  function TestOf(f: Filter): Test
  {
    match f case WantNull => IsNull case WantNotNull => NotNull case Want(op, _) => Compare(op)
  }

  function ArgsOf(f: Filter): seq<Value>
  {
    if f.Want? then [Text(f.value)] else []
  }

  function CondSql(key: string, f: Filter): string
  {
    match f
    case WantNull => Quote(key) + " IS NULL"
    case WantNotNull => Quote(key) + " IS NOT NULL"
    case Want(op, _) => Quote(key) + " " + OpSql(op) + " ?"
  }

  function FilterOf(q: Params, key: string): Filter
  {
    ReadFilter(Get(q, key))
  }

  function Parts(q: Params, keys: seq<string>): seq<string>
  {
    if keys == [] then [] else [CondSql(keys[0], FilterOf(q, keys[0]))] + Parts(q, keys[1..])
  }

  function Args(q: Params, keys: seq<string>): seq<Value>
  {
    if keys == [] then [] else ArgsOf(FilterOf(q, keys[0])) + Args(q, keys[1..])
  }

  function FilterKeys(q: Params): set<string>
  {
    q.Keys - RESERVED
  }

  /** buildRestWhere: clauses and bindings in key order, or the first key that is no name. */
  ghost function Where(q: Params): Result<(seq<string>, seq<Value>), RestError>
  {
    var keys := SortedKeys(FilterKeys(q));
    match FirstInvalid(keys)
    case Some(k) => Err(InvalidFilter(k))
    case None => Ok((Parts(q, keys), Args(q, keys)))
  }

  lemma {:induction false} OneMorePart(q: Params, keys: seq<string>, k: string)
    ensures Parts(q, keys + [k]) == Parts(q, keys) + [CondSql(k, FilterOf(q, k))]
  {
    if keys == [] {
      assert [] + [k] == [k] && [k][1..] == [];
    } else {
      OneMorePart(q, keys[1..], k);
      assert (keys + [k])[1..] == keys[1..] + [k];
    }
  }

  lemma {:induction false} OneMoreArg(q: Params, keys: seq<string>, k: string)
    ensures Args(q, keys + [k]) == Args(q, keys) + ArgsOf(FilterOf(q, k))
  {
    if keys == [] {
      assert [] + [k] == [k] && [k][1..] == [];
      assert ArgsOf(FilterOf(q, k)) + [] == ArgsOf(FilterOf(q, k));
    } else {
      var rest := keys[1..];
      OneMoreArg(q, rest, k);
      assert (keys + [k])[1..] == rest + [k] && (keys + [k])[0] == keys[0];
      Associates(ArgsOf(FilterOf(q, keys[0])), Args(q, rest), ArgsOf(FilterOf(q, k)));
    }
  }

  /** Range over a map's keys, leaving some out, and sort what was collected. */
  method CollectKeys(names: set<string>, skip: set<string>) returns (keys: seq<string>)
    ensures keys == SortedKeys(names - skip)
  {
    keys := [];
    var left := names;
    while left != {}
      invariant left <= names && ListsKeys(keys, names - left - skip)
      decreases |left|
    {
      var k :| k in left;
      assert k !in keys;
      if k !in skip {
        keys := keys + [k];
      }
      left := left - {k};
    }
    assert names - {} - skip == names - skip;
    AnyOrderSorts(keys, names - skip);
    keys := Strings.Sort(keys);
  }

  /** The clause and the bindings of one filter. */
  method BuildFilter(key: string, f: Filter) returns (part: string, bindings: seq<Value>)
    ensures part == CondSql(key, f) && bindings == ArgsOf(f)
  {
    var col := Quote(key);
    match f
    case WantNull => part, bindings := col + " IS NULL", [];
    case WantNotNull => part, bindings := col + " IS NOT NULL", [];
    case Want(op, value) => part, bindings := col + " " + OpSql(op) + " ?", [Text(value)];
  }

  method BuildRestWhere(q: Params) returns (r: Result<(seq<string>, seq<Value>), RestError>)
    ensures r == Where(q)
  {
    var keys := CollectKeys(q.Keys, RESERVED);
    var parts: seq<string>, bindings: seq<Value> := [], [];
    assert keys[..0] == [] && keys[0..] == keys;
    for i := 0 to |keys|
      invariant FirstInvalid(keys) == FirstInvalid(keys[i..])
      invariant parts == Parts(q, keys[..i]) && bindings == Args(q, keys[..i])
    {
      var key, done := keys[i], keys[..i];
      assert keys[i..][0] == key && keys[i..][1..] == keys[i + 1..];
      if !ValidIdent(key) {
        return Err(InvalidFilter(key));
      }
      OneMorePart(q, done, key);
      OneMoreArg(q, done, key);
      var part, args := BuildFilter(key, FilterOf(q, key));
      parts := parts + [part];
      bindings := bindings + args;
      assert keys[..i + 1] == done + [key];
    }
    assert keys[..|keys|] == keys && keys[|keys|..] == [];
    r := Ok((parts, bindings));
  }

  // ---- Ordering and projection ----------------------------------------------------------

  predicate IsSpace(c: char)
  {
    c == ' ' || '\t' <= c <= '\r'
  }

  function TrimSpace(s: string): string
  {
    Strings.Trim(s, IsSpace)
  }

  function Lower(s: string): string
  {
    if s == "" then "" else [if 'A' <= s[0] <= 'Z' then s[0] - 'A' + 'a' else s[0]] + Lower(s[1..])
  }

  function ReadTerm(part: string): Result<Term, RestError>
  {
    var (col, dir) := Strings.CutAt(part, '.');
    if !ValidIdent(col) then Err(InvalidOrder(col))
    else if dir.None? || Lower(dir.value) == "asc" then Ok(Term(col, false))
    else if Lower(dir.value) == "desc" then Ok(Term(col, true))
    else Err(InvalidDirection(dir.value))
  }

  /** Empty parts are skipped; the first bad one is the error. */
  function ReadOrder(parts: seq<string>): Result<seq<Term>, RestError>
  {
    if parts == [] then Ok([])
    else
      var part := TrimSpace(parts[0]);
      if part == "" then ReadOrder(parts[1..])
      else
        match ReadTerm(part)
        case Err(e) => Err(e)
        case Ok(t) => Continued([t], ReadOrder(parts[1..]))
  }

  function TermSql(t: Term): string
  {
    Quote(t.column) + " " + (if t.descending then "DESC" else "ASC")
  }

  function OrderSql(ts: seq<Term>): string
  {
    if ts == [] then "" else " ORDER BY " + Strings.Join(Map(ts, TermSql), ", ")
  }

  function OrderOf(order: string): Result<seq<Term>, RestError>
  {
    if order == "" then Ok([]) else ReadOrder(Strings.Split(order, ','))
  }

  /** One part of the order parameter, trimmed and not empty. */
  method BuildTerm(part: string) returns (r: Result<string, RestError>)
    ensures r == match ReadTerm(part) case Err(e) => Err(e) case Ok(t) => Ok(TermSql(t))
  {
    var (col, segment) := Strings.CutAt(part, '.');
    if !ValidIdent(col) {
      return Err(InvalidOrder(col));
    }
    var dir := "ASC";
    if segment.Some? {
      if Lower(segment.value) == "desc" {
        dir := "DESC";
      } else if Lower(segment.value) != "asc" {
        return Err(InvalidDirection(segment.value));
      }
    }
    r := Ok(Quote(col) + " " + dir);
  }

  method BuildRestOrder(order: string) returns (r: Result<string, RestError>)
    ensures r == match OrderOf(order) case Err(e) => Err(e) case Ok(ts) => Ok(OrderSql(ts))
  {
    if order == "" {
      return Ok("");
    }
    var parts := Strings.Split(order, ',');
    var clauses: seq<string> := [];
    ghost var terms: seq<Term> := [];
    assert parts[0..] == parts && forall ts: seq<Term> :: terms + ts == ts;
    for i := 0 to |parts|
      invariant clauses == Map(terms, TermSql)
      invariant ReadOrder(parts) == Continued(terms, ReadOrder(parts[i..]))
    {
      var part := TrimSpace(parts[i]);
      assert parts[i..][0] == parts[i] && parts[i..][1..] == parts[i + 1..];
      if part == "" {
        continue;
      }
      var clause := BuildTerm(part);
      if clause.Err? {
        return Err(clause.error);
      }
      ghost var t := ReadTerm(part).value;
      ContinuedMore(terms, t, ReadOrder(parts[i + 1..]));
      clauses := clauses + [clause.value];
      terms := terms + [t];
    }
    assert parts[|parts|..] == [] && terms + [] == terms;
    r := Ok(if clauses == [] then "" else " ORDER BY " + Strings.Join(clauses, ", "));
  }

  /** What has been read, followed by the rest unless that is an error. */
  function Continued<T>(done: seq<T>, rest: Result<seq<T>, RestError>): Result<seq<T>, RestError>
  {
    match rest case Err(e) => Err(e) case Ok(ts) => Ok(done + ts)
  }

  lemma ContinuedMore<T>(done: seq<T>, t: T, rest: Result<seq<T>, RestError>)
    ensures Continued(done, Continued([t], rest)) == Continued(done + [t], rest)
  {
    if rest.Ok? {
      assert done + ([t] + rest.value) == done + [t] + rest.value;
    }
  }

  /** The names of a projection: trimmed, empty ones skipped, the first bad one the error. */
  function ReadSelection(parts: seq<string>): Result<seq<string>, RestError>
  {
    if parts == [] then Ok([])
    else
      var c := TrimSpace(parts[0]);
      if c == "" then ReadSelection(parts[1..])
      else if !ValidIdent(c) then Err(InvalidSelect(c))
      else Continued([c], ReadSelection(parts[1..]))
  }

  /** Every column when the parameter names none. */
  function SelectionOf(sel: string): Result<Option<seq<string>>, RestError>
  {
    if sel == "" then Ok(None)
    else
      match ReadSelection(Strings.Split(sel, ','))
      case Err(e) => Err(e)
      case Ok(cs) => Ok(if cs == [] then None else Some(cs))
  }

  function SelectionSql(columns: Option<seq<string>>): string
  {
    match columns case None => "*" case Some(cs) => Strings.Join(Map(cs, Quote), ", ")
  }

  // ---- Limit and offset -----------------------------------------------------------------

  /** strconv.Atoi: an optional sign and digits, within 64 bits. */
  function Atoi(s: string): Option<int>
  {
    var digits := if s != "" && (s[0] == '+' || s[0] == '-') then s[1..] else s;
    if digits == "" || exists c :: c in digits && !Decimal.IsDigit(c) then None
    else
      var v := if s[0] == '-' then -(Decimal.Value(digits) as int) else Decimal.Value(digits);
      if -0x8000_0000_0000_0000 <= v < 0x8000_0000_0000_0000 then Some(v) else None
  }

  function LimitOf(s: string): Option<nat>
  {
    if s == "" then Some(DEFAULT_LIMIT)
    else
      match Atoi(s)
      case None => None
      case Some(v) => if v < 0 then None else if v > MAX_LIMIT then Some(MAX_LIMIT) else Some(v)
  }

  function OffsetOf(s: string): Option<nat>
  {
    if s == "" then Some(0)
    else
      match Atoi(s)
      case None => None
      case Some(v) => if v < 0 then None else Some(v)
  }

  // ---- The four operations --------------------------------------------------------------

  function WhereSql(parts: seq<string>): string
  {
    if parts == [] then "" else " WHERE " + Strings.Join(parts, " AND ")
  }

  function SelectSql(
    columns: Option<seq<string>>, table: string, parts: seq<string>, order: seq<Term>, limit: nat, offset: nat): string
  {
    "SELECT " + (SelectionSql(columns) + (" FROM " + (Quote(table) + (WhereSql(parts) + (OrderSql(order) +
    (" LIMIT " + (Decimal.Render(limit) + (" OFFSET " + Decimal.Render(offset)))))))))
  }

  /** doGet up to the query, its checks in order. */
  ghost function GetQuery(table: string, q: Params): Result<Query, RestError>
  {
    if !ValidIdent(table) then Err(InvalidTable)
    else
      match SelectionOf(Get(q, "select"))
      case Err(e) => Err(e)
      case Ok(columns) =>
        match Where(q)
        case Err(e) => Err(e)
        case Ok((parts, args)) =>
          match OrderOf(Get(q, "order"))
          case Err(e) => Err(e)
          case Ok(order) =>
            var limit, offset := LimitOf(Get(q, "limit")), OffsetOf(Get(q, "offset"));
            if limit.None? then Err(InvalidLimit)
            else if offset.None? then Err(InvalidOffset)
            else Ok(Query(SelectSql(columns, table, parts, order, limit.value, offset.value), args))
  }

  /** The loop over the names of a projection. */
  method BuildSelection(sel: string) returns (r: Result<string, RestError>)
    ensures r == match SelectionOf(sel) case Err(e) => Err(e) case Ok(cs) => Ok(SelectionSql(cs))
  {
    if sel == "" {
      return Ok("*");
    }
    var cols := Strings.Split(sel, ',');
    var quoted: seq<string> := [];
    ghost var names: seq<string> := [];
    assert cols[0..] == cols && forall cs: seq<string> :: names + cs == cs;
    for i := 0 to |cols|
      invariant quoted == Map(names, Quote)
      invariant ReadSelection(cols) == Continued(names, ReadSelection(cols[i..]))
    {
      var c := TrimSpace(cols[i]);
      assert cols[i..][0] == cols[i] && cols[i..][1..] == cols[i + 1..];
      if c == "" {
        continue;
      }
      if !ValidIdent(c) {
        return Err(InvalidSelect(c));
      }
      ContinuedMore(names, c, ReadSelection(cols[i + 1..]));
      quoted := quoted + [Quote(c)];
      names := names + [c];
    }
    assert cols[|cols|..] == [] && names + [] == names;
    r := Ok(if |quoted| > 0 then Strings.Join(quoted, ", ") else "*");
  }

  method DoGet(table: string, q: Params) returns (r: Result<Query, RestError>)
    ensures r == GetQuery(table, q)
  {
    if !ValidIdent(table) {
      return Err(InvalidTable);
    }
    var selectSql := BuildSelection(Get(q, "select"));
    if selectSql.Err? {
      return Err(selectSql.error);
    }
    var where := BuildRestWhere(q);
    if where.Err? {
      return Err(where.error);
    }
    var (whereParts, bindings) := where.value;
    var whereSql := "";
    if |whereParts| > 0 {
      whereSql := " WHERE " + Strings.Join(whereParts, " AND ");
    }
    var orderSql := BuildRestOrder(Get(q, "order"));
    if orderSql.Err? {
      return Err(orderSql.error);
    }
    var limit: nat := DEFAULT_LIMIT;
    var lstr := Get(q, "limit");
    if lstr != "" {
      var v := Atoi(lstr);
      if v.None? || v.value < 0 {
        return Err(InvalidLimit);
      }
      limit := if v.value > MAX_LIMIT then MAX_LIMIT else v.value;
    }
    var offset: nat := 0;
    var ostr := Get(q, "offset");
    if ostr != "" {
      var v := Atoi(ostr);
      if v.None? || v.value < 0 {
        return Err(InvalidOffset);
      }
      offset := v.value;
    }
    var sql := "SELECT " + (selectSql.value + (" FROM " + (Quote(table) + (whereSql + (orderSql.value +
      (" LIMIT " + (Decimal.Render(limit) + (" OFFSET " + Decimal.Render(offset)))))))));
    r := Ok(Query(sql, bindings));
  }

  function SetSql(name: string): string
  {
    Quote(name) + " = ?"
  }

  function MarkSql(name: string): string
  {
    "?"
  }

  /** A Go map read: nil when the key is missing. */
  function Field(data: map<string, Value>, name: string): Value
  {
    if name in data then data[name] else Null
  }

  function ValuesOf(names: seq<string>, data: map<string, Value>): (r: seq<Value>)
    ensures |r| == |names| && forall i :: 0 <= i < |names| ==> r[i] == Field(data, names[i])
  {
    Map(names, n => Field(data, n))
  }

  function UpdateSql(table: string, names: seq<string>, parts: seq<string>): string
  {
    "UPDATE " + (Quote(table) + (" SET " + (Strings.Join(Map(names, SetSql), ", ") + WhereSql(parts))))
  }

  function InsertSql(table: string, names: seq<string>): string
  {
    "INSERT INTO " + (Quote(table) + (" (" + (Strings.Join(Map(names, Quote), ", ") + (") VALUES (" +
    (Strings.Join(Map(names, MarkSql), ", ") + ") RETURNING *")))))
  }

  function DeleteSql(table: string, parts: seq<string>): string
  {
    "DELETE FROM " + (Quote(table) + WhereSql(parts))
  }

  ghost function PostQuery(table: string, data: map<string, Value>): Result<Query, RestError>
  {
    var keys := SortedKeys(data.Keys);
    if !ValidIdent(table) then Err(InvalidTable)
    else if data == map[] then Err(EmptyBody)
    else
      match FirstInvalid(keys)
      case Some(k) => Err(InvalidColumn(k))
      case None => Ok(Query(InsertSql(table, keys), ValuesOf(keys, data)))
  }

  ghost function PatchQuery(table: string, data: map<string, Value>, q: Params): Result<Query, RestError>
  {
    var keys := SortedKeys(data.Keys);
    if !ValidIdent(table) then Err(InvalidTable)
    else if data == map[] then Err(EmptyBody)
    else
      match FirstInvalid(keys)
      case Some(k) => Err(InvalidColumn(k))
      case None =>
        match Where(q)
        case Err(e) => Err(e)
        case Ok((parts, args)) =>
          if parts == [] then Err(NoFilter)
          else Ok(Query(UpdateSql(table, keys, parts), ValuesOf(keys, data) + args))
  }

  ghost function DeleteQuery(table: string, q: Params): Result<Query, RestError>
  {
    if !ValidIdent(table) then Err(InvalidTable)
    else
      match Where(q)
      case Err(e) => Err(e)
      case Ok((parts, args)) => if parts == [] then Err(NoFilter) else Ok(Query(DeleteSql(table, parts), args))
  }

  /** The loop over the fields of a body: each name checked, its text and its value appended. */
  method BuildFields(data: map<string, Value>, text: string -> string)
    returns (r: Result<(seq<string>, seq<Value>), RestError>)
    ensures var keys := SortedKeys(data.Keys);
      r == match FirstInvalid(keys)
           case Some(k) => Err(InvalidColumn(k))
           case None => Ok((Map(keys, text), ValuesOf(keys, data)))
  {
    var keys := CollectKeys(data.Keys, {});
    assert data.Keys - {} == data.Keys;
    var clauses: seq<string>, bindings: seq<Value> := [], [];
    assert keys[..0] == [] && keys[0..] == keys;
    for i := 0 to |keys|
      invariant FirstInvalid(keys) == FirstInvalid(keys[i..])
      invariant clauses == Map(keys[..i], text) && bindings == ValuesOf(keys[..i], data)
    {
      var key, done := keys[i], keys[..i];
      assert keys[i..][0] == key && keys[i..][1..] == keys[i + 1..];
      if !ValidIdent(key) {
        return Err(InvalidColumn(key));
      }
      assert keys[..i + 1] == done + [key];
      OneMoreField(done, key, text, data);
      clauses := clauses + [text(key)];
      bindings := bindings + [Field(data, key)];
    }
    assert keys[..|keys|] == keys && keys[|keys|..] == [];
    r := Ok((clauses, bindings));
  }

  lemma {:induction false} OneMoreField(names: seq<string>, name: string, text: string -> string, data: map<string, Value>)
    ensures Map(names + [name], text) == Map(names, text) + [text(name)]
    ensures ValuesOf(names + [name], data) == ValuesOf(names, data) + [Field(data, name)]
  {
  }

  method DoPost(table: string, data: map<string, Value>) returns (r: Result<Query, RestError>)
    ensures r == PostQuery(table, data)
  {
    if !ValidIdent(table) {
      return Err(InvalidTable);
    }
    if data == map[] {
      return Err(EmptyBody);
    }
    var fields := BuildFields(data, Quote);
    if fields.Err? {
      return Err(fields.error);
    }
    var (cols, bindings) := fields.value;
    var marks := Map(cols, MarkSql);
    assert marks == Map(SortedKeys(data.Keys), MarkSql);
    var sql := "INSERT INTO " + (Quote(table) + (" (" + (Strings.Join(cols, ", ") + (") VALUES (" +
      (Strings.Join(marks, ", ") + ") RETURNING *")))));
    r := Ok(Query(sql, bindings));
  }

  method DoPatch(table: string, data: map<string, Value>, q: Params) returns (r: Result<Query, RestError>)
    ensures r == PatchQuery(table, data, q)
  {
    if !ValidIdent(table) {
      return Err(InvalidTable);
    }
    if data == map[] {
      return Err(EmptyBody);
    }
    var fields := BuildFields(data, SetSql);
    if fields.Err? {
      return Err(fields.error);
    }
    var (clauses, bindings) := fields.value;
    var where := BuildRestWhere(q);
    if where.Err? {
      return Err(where.error);
    }
    var (whereParts, whereBindings) := where.value;
    if |whereParts| == 0 {
      return Err(NoFilter);
    }
    var sql := "UPDATE " + (Quote(table) + (" SET " + (Strings.Join(clauses, ", ") +
      (" WHERE " + Strings.Join(whereParts, " AND ")))));
    r := Ok(Query(sql, bindings + whereBindings));
  }

  method DoDelete(table: string, q: Params) returns (r: Result<Query, RestError>)
    ensures r == DeleteQuery(table, q)
  {
    if !ValidIdent(table) {
      return Err(InvalidTable);
    }
    var where := BuildRestWhere(q);
    if where.Err? {
      return Err(where.error);
    }
    var (whereParts, bindings) := where.value;
    if |whereParts| == 0 {
      return Err(NoFilter);
    }
    var sql := "DELETE FROM " + (Quote(table) + (" WHERE " + Strings.Join(whereParts, " AND ")));
    r := Ok(Query(sql, bindings));
  }
}
