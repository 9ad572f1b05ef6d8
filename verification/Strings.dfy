/** Byte-wise string order, and sorting: what sort.Strings and SQLite's BINARY collation use. */
module Strings {
  import opened Prelude

  predicate Leq(a: string, b: string)
  {
    a == "" || (b != "" && (a[0] < b[0] || (a[0] == b[0] && Leq(a[1..], b[1..]))))
  }

  lemma {:induction false} LeqTotal(a: string, b: string)
    ensures Leq(a, b) || Leq(b, a)
  {
    if a != "" && b != "" {
      LeqTotal(a[1..], b[1..]);
    }
  }

  lemma {:induction false} LeqAntisym(a: string, b: string)
    requires Leq(a, b) && Leq(b, a)
    ensures a == b
  {
    if a != "" {
      LeqAntisym(a[1..], b[1..]);
      assert a == [a[0]] + a[1..] && b == [b[0]] + b[1..];
    }
  }

  lemma {:induction false} LeqTrans(a: string, b: string, c: string)
    requires Leq(a, b) && Leq(b, c)
    ensures Leq(a, c)
  {
    if a != "" && a[0] == b[0] == c[0] {
      LeqTrans(a[1..], b[1..], c[1..]);
    }
  }

  /** The order of the dictionary: a prefix comes first, and otherwise the first byte that differs
      decides. */
  lemma {:induction false} LeqIff(a: string, b: string)
    ensures Leq(a, b) <==>
      a <= b || exists i :: 0 <= i < |a| && i < |b| && a[..i] == b[..i] && a[i] < b[i]
  {
    if a != "" && b != "" && a[0] == b[0] {
      LeqIff(a[1..], b[1..]);
      assert a == [a[0]] + a[1..] && b == [b[0]] + b[1..];
      if a[1..] <= b[1..] {
        assert a <= b;
      }
      if i :| 0 <= i < |a[1..]| && i < |b[1..]| && a[1..][..i] == b[1..][..i] && a[1..][i] < b[1..][i] {
        assert a[..i + 1] == [a[0]] + a[1..][..i] && b[..i + 1] == [b[0]] + b[1..][..i];
        assert a[i + 1] < b[i + 1];
      }
      if a <= b {
        assert a[1..] <= b[1..];
      }
      if i :| 0 <= i < |a| && i < |b| && a[..i] == b[..i] && a[i] < b[i] {
        assert i > 0 && a[..i][1..] == a[1..][..i - 1] && b[..i][1..] == b[1..][..i - 1];
        assert a[1..][i - 1] < b[1..][i - 1];
      }
    } else if a != "" && b != "" {
      if a[0] < b[0] {
        assert a[..0] == b[..0];
      }
      forall i | 0 < i < |a| && i < |b| ensures a[..i] != b[..i] {
        assert a[..i][0] == a[0] && b[..i][0] == b[0];
      }
    }
  }

  ghost predicate Sorted(xs: seq<string>)
  {
    forall i, j :: 0 <= i < j < |xs| ==> Leq(xs[i], xs[j])
  }

  function Insert(x: string, xs: seq<string>): seq<string>
  {
    if xs == [] || Leq(x, xs[0]) then [x] + xs else [xs[0]] + Insert(x, xs[1..])
  }

  /** sort.Strings. */
  function Sort(xs: seq<string>): seq<string>
  {
    if xs == [] then [] else Insert(xs[0], Sort(xs[1..]))
  }

  lemma {:induction false} InsertOk(x: string, xs: seq<string>)
    ensures multiset(Insert(x, xs)) == multiset(xs) + multiset{x}
    ensures Sorted(xs) ==> Sorted(Insert(x, xs))
  {
    if xs == [] {
    } else if Leq(x, xs[0]) {
      if Sorted(xs) {
        forall j | 0 <= j < |xs| ensures Leq(x, xs[j]) {
          if j > 0 { LeqTrans(x, xs[0], xs[j]); }
        }
      }
    } else {
      var rest := Insert(x, xs[1..]);
      InsertOk(x, xs[1..]);
      assert xs == [xs[0]] + xs[1..];
      if Sorted(xs) {
        LeqTotal(x, xs[0]);
        forall j | 0 <= j < |rest| ensures Leq(xs[0], rest[j]) {
          assert rest[j] in multiset(rest);
          if rest[j] != x {
            assert rest[j] in xs[1..];
          }
        }
      }
    }
  }

  lemma {:induction false} SortOk(xs: seq<string>)
    ensures multiset(Sort(xs)) == multiset(xs) && Sorted(Sort(xs))
  {
    if xs != [] {
      SortOk(xs[1..]);
      InsertOk(xs[0], Sort(xs[1..]));
      assert xs == [xs[0]] + xs[1..];
    }
  }

  lemma SameLeast(xs: seq<string>, ys: seq<string>)
    requires Sorted(xs) && Sorted(ys) && multiset(xs) == multiset(ys) && xs != [] && ys != []
    ensures xs[0] == ys[0]
  {
    assert xs[0] in multiset(ys) && ys[0] in multiset(xs);
    var i :| 0 <= i < |ys| && ys[i] == xs[0];
    var j :| 0 <= j < |xs| && xs[j] == ys[0];
    if xs[0] != ys[0] {
      LeqAntisym(xs[0], ys[0]);
    }
  }

  /** A sorted sequence is determined by its elements. */
  lemma {:induction false} SortedUnique(xs: seq<string>, ys: seq<string>)
    requires Sorted(xs) && Sorted(ys) && multiset(xs) == multiset(ys)
    ensures xs == ys
  {
    assert |multiset(xs)| == |xs| && |multiset(ys)| == |ys|;
    if xs != [] {
      SameLeast(xs, ys);
      assert xs == [xs[0]] + xs[1..] && ys == [ys[0]] + ys[1..];
      assert multiset(xs[1..]) == multiset(xs) - multiset{xs[0]};
      assert multiset(ys[1..]) == multiset(ys) - multiset{ys[0]};
      SortedUnique(xs[1..], ys[1..]);
    }
  }

  /** So the order in which keys are collected does not matter. */
  lemma {:induction false} SortIgnoresOrder(xs: seq<string>, ys: seq<string>)
    requires multiset(xs) == multiset(ys)
    ensures Sort(xs) == Sort(ys)
  {
    SortOk(xs);
    SortOk(ys);
    SortedUnique(Sort(xs), Sort(ys));
  }

  // ---- Splitting and joining ------------------------------------------------------------

  /** strings.Split by a one-character separator. */
  function Split(s: string, sep: char): (parts: seq<string>)
    ensures parts != []
  {
    if s == "" then [""]
    else
      var rest := Split(s[1..], sep);
      if s[0] == sep then [""] + rest else [[s[0]] + rest[0]] + rest[1..]
  }

  /** strings.Join. */
  function Join(parts: seq<string>, sep: string): string
  {
    if parts == [] then ""
    else if |parts| == 1 then parts[0]
    else parts[0] + sep + Join(parts[1..], sep)
  }

  lemma {:induction false} SplitFirst(a: string, sep: char, b: string)
    requires sep !in a
    ensures Split(a, sep) == [a]
    ensures Split(a + [sep] + b, sep) == [a] + Split(b, sep)
  {
    if a == "" {
      assert a + [sep] + b == [sep] + b;
    } else {
      SplitFirst(a[1..], sep, b);
      assert a == [a[0]] + a[1..];
      assert (a + [sep] + b)[1..] == a[1..] + [sep] + b;
    }
  }

  lemma {:induction false} SplitOfJoin(parts: seq<string>, sep: char)
    requires parts != [] && forall i :: 0 <= i < |parts| ==> sep !in parts[i]
    ensures Split(Join(parts, [sep]), sep) == parts
  {
    if |parts| == 1 {
      SplitFirst(parts[0], sep, "");
    } else {
      SplitFirst(parts[0], sep, Join(parts[1..], [sep]));
      SplitOfJoin(parts[1..], sep);
    }
  }

  lemma {:induction false} SplitHasNoSep(s: string, sep: char)
    ensures forall i :: 0 <= i < |Split(s, sep)| ==> sep !in Split(s, sep)[i]
  {
    if s != "" {
      SplitHasNoSep(s[1..], sep);
    }
  }

  // ---- Quotation marks ------------------------------------------------------------------

  /** Every quotation mark doubled: how SQL and CSV both quote. */
  function Doubled(s: string): string
  {
    if s == "" then "" else Escaped(s[0]) + Doubled(s[1..])
  }

  function Escaped(c: char): string
  {
    if c == '"' then "\"\"" else [c]
  }

  // ---- Prefixes, cutting and trimming ---------------------------------------------------

  /** strings.HasPrefix, letter by letter. */
  predicate HasPrefix(s: string, prefix: string)
    ensures HasPrefix(s, prefix) ==> |prefix| <= |s|
  {
    prefix == "" || (s != "" && s[0] == prefix[0] && HasPrefix(s[1..], prefix[1..]))
  }

  lemma {:induction false} HasPrefixIs(s: string, prefix: string)
    ensures HasPrefix(s, prefix) <==> prefix <= s
  {
    if prefix != "" && s != "" {
      HasPrefixIs(s[1..], prefix[1..]);
      if prefix <= s {
        assert s[..|prefix|][1..] == s[1..][..|prefix| - 1];
      }
    }
  }

  /** strings.SplitN(s, sep, 2): up to the first separator, and after it if there is one. */
  function CutAt(s: string, sep: char): (string, Option<string>)
  {
    if s == "" then ("", None)
    else if s[0] == sep then ("", Some(s[1..]))
    else var (a, b) := CutAt(s[1..], sep); ([s[0]] + a, b)
  }

  lemma {:induction false} CutAtFirst(a: string, sep: char, b: string)
    requires sep !in a
    ensures CutAt(a + [sep] + b, sep) == (a, Some(b))
  {
    var s := a + [sep] + b;
    if a == "" {
      assert s[1..] == b;
    } else {
      assert s[1..] == a[1..] + [sep] + b;
      CutAtFirst(a[1..], sep, b);
      assert [a[0]] + a[1..] == a;
    }
  }

  lemma {:induction false} CutAtParts(s: string, sep: char)
    ensures var (a, b) := CutAt(s, sep);
      sep !in a && s == if b.Some? then a + [sep] + b.value else a
  {
    if s != "" && s[0] != sep {
      CutAtParts(s[1..], sep);
      var (a, b) := CutAt(s[1..], sep);
      assert s == [s[0]] + s[1..];
      if b.Some? {
        assert [s[0]] + (a + [sep] + b.value) == [s[0]] + a + [sep] + b.value;
      }
    }
  }

  lemma {:induction false} CutAtNone(s: string, sep: char)
    requires sep !in s
    ensures CutAt(s, sep) == (s, None)
  {
    if s != "" {
      CutAtNone(s[1..], sep);
      assert [s[0]] + s[1..] == s;
    }
  }

  function TrimStart(s: string, space: char -> bool): string
  {
    if s != "" && space(s[0]) then TrimStart(s[1..], space) else s
  }

  function TrimEnd(s: string, space: char -> bool): string
  {
    if s != "" && space(s[|s| - 1]) then TrimEnd(s[..|s| - 1], space) else s
  }

  function Trim(s: string, space: char -> bool): string
  {
    TrimEnd(TrimStart(s, space), space)
  }

  lemma {:induction false} TrimStartShrinks(s: string, space: char -> bool)
    ensures |TrimStart(s, space)| <= |s|
    ensures s != "" && space(s[0]) ==> |TrimStart(s, space)| < |s|
  {
    if s != "" && space(s[0]) {
      TrimStartShrinks(s[1..], space);
    }
  }

  lemma {:induction false} TrimEndShrinks(s: string, space: char -> bool)
    ensures |TrimEnd(s, space)| <= |s|
    ensures s != "" && space(s[|s| - 1]) ==> |TrimEnd(s, space)| < |s|
  {
    if s != "" && space(s[|s| - 1]) {
      TrimEndShrinks(s[..|s| - 1], space);
    }
  }

  predicate Tight(s: string, space: char -> bool)
  {
    s == "" || (!space(s[0]) && !space(s[|s| - 1]))
  }

  /** Trimming leaves alone exactly what has no space at either end. */
  lemma TrimFixesTight(s: string, space: char -> bool)
    ensures Trim(s, space) == s <==> Tight(s, space)
  {
    TrimStartShrinks(s, space);
    TrimEndShrinks(TrimStart(s, space), space);
  }

  lemma {:induction false} TrimStartAppend(s: string, c: char, space: char -> bool)
    requires space(c)
    ensures TrimStart(s + [c], space) == if TrimStart(s, space) == "" then "" else TrimStart(s, space) + [c]
  {
    if s == "" {
      assert [c][1..] == "" && s + [c] == [c];
    } else if space(s[0]) {
      assert (s + [c])[1..] == s[1..] + [c];
      TrimStartAppend(s[1..], c, space);
    }
  }

  /** A space at the end makes no difference. */
  lemma TrimAppend(s: string, c: char, space: char -> bool)
    requires space(c)
    ensures Trim(s + [c], space) == Trim(s, space)
  {
    TrimStartAppend(s, c, space);
    var t := TrimStart(s, space);
    assert (t + [c])[..|t + [c]| - 1] == t;
  }

  lemma {:induction false} TrimStartFrom(s: string, space: char -> bool)
    ensures forall c :: c in TrimStart(s, space) ==> c in s
  {
    if s != "" {
      TrimStartFrom(s[1..], space);
    }
  }

  lemma {:induction false} TrimEndFrom(s: string, space: char -> bool)
    ensures forall c :: c in TrimEnd(s, space) ==> c in s
  {
    if s != "" {
      TrimEndFrom(s[..|s| - 1], space);
    }
  }

  /** Trimming adds nothing. */
  lemma TrimFrom(s: string, c: char, space: char -> bool)
    ensures c in Trim(s, space) ==> c in s
  {
    TrimStartFrom(s, space);
    TrimEndFrom(TrimStart(s, space), space);
  }

  lemma {:induction false} TrimStartKeeps(s: string, i: nat, space: char -> bool)
    requires i < |s| && !space(s[i])
    ensures TrimStart(s, space) != "" && s[i] in TrimStart(s, space)
  {
    if space(s[0]) {
      TrimStartKeeps(s[1..], i - 1, space);
    }
  }

  lemma {:induction false} TrimEndKeeps(s: string, i: nat, space: char -> bool)
    requires i < |s| && !space(s[i])
    ensures TrimEnd(s, space) != ""
  {
    if space(s[|s| - 1]) {
      TrimEndKeeps(s[..|s| - 1], i, space);
    }
  }

  lemma VisibleIsNotBlank(s: string, i: nat, space: char -> bool)
    requires i < |s| && !space(s[i])
    ensures Trim(s, space) != ""
  {
    TrimStartKeeps(s, i, space);
    var t := TrimStart(s, space);
    var k :| 0 <= k < |t| && t[k] == s[i];
    TrimEndKeeps(t, k, space);
  }

  lemma {:induction false} TrimStartSkips(a: string, s: string, space: char -> bool)
    requires forall c :: c in a ==> space(c)
    ensures TrimStart(a + s, space) == TrimStart(s, space)
  {
    if a == "" {
      assert a + s == s;
    } else {
      assert (a + s)[0] == a[0] && (a + s)[1..] == a[1..] + s;
      TrimStartSkips(a[1..], s, space);
    }
  }

  /** Spaces around a string make no difference. */
  lemma {:induction false} TrimSkips(a: string, s: string, b: string, space: char -> bool)
    requires forall c :: c in a ==> space(c)
    requires forall c :: c in b ==> space(c)
    ensures Trim(a + s + b, space) == Trim(s, space)
    decreases |b|
  {
    if b == "" {
      assert a + s + b == a + s;
      TrimStartSkips(a, s, space);
    } else {
      var n := |b| - 1;
      TrimSkips(a, s, b[..n], space);
      TrimAppend(a + s + b[..n], b[n], space);
      assert a + s + b[..n] + [b[n]] == a + s + b;
    }
  }

  lemma {:induction false} BlankIff(s: string, space: char -> bool)
    ensures Trim(s, space) == "" <==> forall c :: c in s ==> space(c)
  {
    if i :| 0 <= i < |s| && !space(s[i]) {
      VisibleIsNotBlank(s, i, space);
    } else {
      TrimSkips(s, "", "", space);
      assert s + "" + "" == s;
    }
  }

  /** A character of a string is the separator or in one of the parts, and nothing else is in them. */
  lemma {:induction false} SplitKeeps(s: string, sep: char, c: char)
    requires c != sep
    ensures c in s <==> exists i :: 0 <= i < |Split(s, sep)| && c in Split(s, sep)[i]
  {
    var parts := Split(s, sep);
    if s != "" {
      var rest := Split(s[1..], sep);
      SplitKeeps(s[1..], sep, c);
      assert s == [s[0]] + s[1..];
      if s[0] == sep {
        assert forall i :: 0 <= i < |rest| ==> parts[i + 1] == rest[i];
        if c in s {
          var i :| 0 <= i < |rest| && c in rest[i];
          assert c in parts[i + 1];
        }
      } else {
        assert parts[0] == [s[0]] + rest[0] && forall i :: 1 <= i < |rest| ==> parts[i] == rest[i];
        if c in s[1..] {
          var i :| 0 <= i < |rest| && c in rest[i];
          assert c in parts[i];
        } else if c == s[0] {
          assert c in parts[0];
        }
      }
    }
  }

  /** A character put in front of the first part comes first. */
  lemma {:induction false} JoinHead(c: char, parts: seq<string>, sep: string)
    requires parts != []
    ensures Join([[c] + parts[0]] + parts[1..], sep) == [c] + Join(parts, sep)
  {
    var more := [[c] + parts[0]] + parts[1..];
    assert more[1..] == parts[1..];
    if |parts| > 1 {
      var tail := sep + Join(parts[1..], sep);
      assert parts[0] + sep + Join(parts[1..], sep) == parts[0] + tail;
      assert [c] + parts[0] + sep + Join(parts[1..], sep) == [c] + (parts[0] + tail);
    }
  }

  lemma {:induction false} JoinOfSplit(s: string, sep: char)
    ensures Join(Split(s, sep), [sep]) == s
  {
    if s != "" {
      var rest := Split(s[1..], sep);
      JoinOfSplit(s[1..], sep);
      assert s == [s[0]] + s[1..];
      if s[0] == sep {
        assert ([""] + rest)[1..] == rest;
      } else {
        JoinHead(s[0], rest, [sep]);
      }
    }
  }

  lemma {:induction false} TrimStartAround(s: string, space: char -> bool) returns (a: string)
    ensures s == a + TrimStart(s, space) && forall c :: c in a ==> space(c)
    ensures TrimStart(s, space) == "" || !space(TrimStart(s, space)[0])
  {
    if s != "" && space(s[0]) {
      var rest := TrimStartAround(s[1..], space);
      a := [s[0]] + rest;
      Associates([s[0]], rest, TrimStart(s[1..], space));
      assert s == [s[0]] + s[1..];
    } else {
      a := "";
    }
  }

  lemma {:induction false} TrimEndAround(s: string, space: char -> bool) returns (b: string)
    ensures s == TrimEnd(s, space) + b && forall c :: c in b ==> space(c)
    ensures TrimEnd(s, space) == "" || (!space(TrimEnd(s, space)[|TrimEnd(s, space)| - 1]) && TrimEnd(s, space)[0] == s[0])
  {
    if s != "" && space(s[|s| - 1]) {
      var rest := TrimEndAround(s[..|s| - 1], space);
      b := rest + [s[|s| - 1]];
      assert s == s[..|s| - 1] + [s[|s| - 1]];
    } else {
      b := "";
    }
  }

  /** What trimming takes off is spaces at both ends, all of them. */
  lemma TrimAround(s: string, space: char -> bool) returns (a: string, b: string)
    ensures s == a + Trim(s, space) + b && Tight(Trim(s, space), space)
    ensures forall c :: c in a || c in b ==> space(c)
  {
    a := TrimStartAround(s, space);
    b := TrimEndAround(TrimStart(s, space), space);
    assert a + (Trim(s, space) + b) == a + Trim(s, space) + b;
  }
}
