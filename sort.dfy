/** The ordering of the TXT table (list_software.py:110): `sorted` with the key
    `(name.lower(), version or "")`. Python compares strings code point by code point (a proper
    prefix first) and tuples field by field, and `sorted` is stable.

    `SortRows` is a stable insertion sort standing in for `sorted`; the lemmas show that its
    result is ordered by the key, keeps the records of each key in input order, is a permutation
    of its input, and is the only sequence with these three properties. */
module StableSort {
  import opened Text
  import opened Inventory

  // ----- the order on keys ------------------------------------------------------------------

  /** Python's `<` on strings. */
  predicate StrLt(a: string, b: string)
  {
    if a == [] then b != []
    else b != [] && (a[0] < b[0] || (a[0] == b[0] && StrLt(a[1..], b[1..])))
  }

  lemma {:induction false} StrLtIrreflexive(a: string)
    ensures !StrLt(a, a)
  {
    if a != [] {
      StrLtIrreflexive(a[1..]);
    }
  }

  lemma {:induction false} StrLtTransitive(a: string, b: string, c: string)
    requires StrLt(a, b) && StrLt(b, c)
    ensures StrLt(a, c)
  {
    if a != [] && a[0] == b[0] && b[0] == c[0] {
      StrLtTransitive(a[1..], b[1..], c[1..]);
    }
  }

  lemma {:induction false} StrLtTotal(a: string, b: string)
    ensures a == b || StrLt(a, b) || StrLt(b, a)
  {
    if a != [] && b != [] && a[0] == b[0] {
      StrLtTotal(a[1..], b[1..]);
      assert a == [a[0]] + a[1..] && b == [b[0]] + b[1..];
    }
  }

  /** The sort key of a row: the lower-cased name, then the version. */
  datatype SortKey = SortKey(name: string, version: string)

  /** `(x["Software Name"].lower(), x.get("Version") or "")`; the version of a record is always a
      string, so the `or ""` leaves it as it is. */
  function KeyFor(r: Record): SortKey
  {
    SortKey(Lower(r.name), r.version)
  }

  /** Python's `<` on the key tuples. */
  predicate KeyLt(a: SortKey, b: SortKey)
  {
    StrLt(a.name, b.name) || (a.name == b.name && StrLt(a.version, b.version))
  }

  lemma KeyLtIrreflexive(a: SortKey)
    ensures !KeyLt(a, a)
  {
    StrLtIrreflexive(a.name);
    StrLtIrreflexive(a.version);
  }

  lemma KeyLtTransitive(a: SortKey, b: SortKey, c: SortKey)
    requires KeyLt(a, b) && KeyLt(b, c)
    ensures KeyLt(a, c)
  {
    if StrLt(a.name, b.name) && StrLt(b.name, c.name) {
      StrLtTransitive(a.name, b.name, c.name);
    } else if a.name == b.name && b.name == c.name {
      StrLtTransitive(a.version, b.version, c.version);
    }
  }

  lemma KeyLtTotal(a: SortKey, b: SortKey)
    ensures a == b || KeyLt(a, b) || KeyLt(b, a)
  {
    StrLtTotal(a.name, b.name);
    StrLtTotal(a.version, b.version);
  }

  /** For keys that are not below `b`: a key below `a` is below `b` too. */
  lemma KeyLtNotBelow(k: SortKey, a: SortKey, b: SortKey)
    requires KeyLt(k, a) && !KeyLt(b, a)
    ensures KeyLt(k, b)
  {
    KeyLtTotal(a, b);
    if a != b {
      KeyLtTransitive(k, a, b);
    }
  }

  // ----- sorting ----------------------------------------------------------------------------

  /** No row has a key below that of a row before it. */
  predicate Sorted(s: seq<Record>)
  {
    forall i, j :: 0 <= i < j < |s| ==> !KeyLt(KeyFor(s[j]), KeyFor(s[i]))
  }

  /** Puts `x` into sorted `s` after every row whose key is not above its own. */
  function Insert(x: Record, s: seq<Record>): (r: seq<Record>)
    ensures |r| == |s| + 1
  {
    if s == [] then [x]
    else if KeyLt(KeyFor(x), KeyFor(s[0])) then [x] + s
    else [s[0]] + Insert(x, s[1..])
  }

  /** `sorted(data, key=...)`. */
  function SortRows(rs: seq<Record>): (r: seq<Record>)
    ensures |r| == |rs|
  {
    if rs == [] then [] else Insert(rs[|rs| - 1], SortRows(rs[..|rs| - 1]))
  }

  /** The rows with sort key `k`, in order. */
  function Filter(s: seq<Record>, k: SortKey): seq<Record>
  {
    if s == [] then []
    else (if KeyFor(s[0]) == k then [s[0]] else []) + Filter(s[1..], k)
  }

  // ----- properties -------------------------------------------------------------------------

  lemma {:induction false} InsertMultiset(x: Record, s: seq<Record>)
    ensures multiset(Insert(x, s)) == multiset(s) + multiset{x}
  {
    if s != [] && !KeyLt(KeyFor(x), KeyFor(s[0])) {
      InsertMultiset(x, s[1..]);
      assert s == [s[0]] + s[1..];
    }
  }

  /** No row of `u` has a key below that of `y`. */
  predicate NotBelow(y: Record, u: seq<Record>)
  {
    forall j :: 0 <= j < |u| ==> !KeyLt(KeyFor(u[j]), KeyFor(y))
  }

  lemma SortedCons(y: Record, u: seq<Record>)
    requires Sorted(u) && NotBelow(y, u)
    ensures Sorted([y] + u)
  {
    var t := [y] + u;
    forall i, j | 0 <= i < j < |t| ensures !KeyLt(KeyFor(t[j]), KeyFor(t[i])) {
      assert t[j] == u[j - 1];
      if i > 0 {
        assert t[i] == u[i - 1];
      }
    }
  }

  lemma SortedUncons(s: seq<Record>)
    requires Sorted(s) && s != []
    ensures Sorted(s[1..]) && NotBelow(s[0], s[1..])
  {
    var tail := s[1..];
    forall i, j | 0 <= i < j < |tail| ensures !KeyLt(KeyFor(tail[j]), KeyFor(tail[i])) {
      assert tail[i] == s[i + 1] && tail[j] == s[j + 1];
    }
    forall j | 0 <= j < |tail| ensures !KeyLt(KeyFor(tail[j]), KeyFor(s[0])) {
      assert tail[j] == s[j + 1];
    }
  }

  lemma KeyLeqTransitive(a: SortKey, b: SortKey, c: SortKey)
    requires !KeyLt(b, a) && !KeyLt(c, b)
    ensures !KeyLt(c, a)
  {
    KeyLtTotal(a, b);
    KeyLtTotal(b, c);
    KeyLtIrreflexive(a);
    if KeyLt(a, b) && KeyLt(b, c) {
      KeyLtTransitive(a, b, c);
      if KeyLt(c, a) {
        KeyLtTransitive(a, c, a);
      }
    } else if KeyLt(a, b) && KeyLt(c, a) {
      KeyLtTransitive(c, a, b);
    } else if KeyLt(b, c) && KeyLt(c, a) {
      KeyLtTransitive(b, c, a);
    }
  }

  /** A lower bound of `s` that is not above `x` stays a lower bound once `x` is inserted. */
  lemma {:induction false} InsertNotBelow(y: Record, x: Record, s: seq<Record>)
    requires NotBelow(y, s) && !KeyLt(KeyFor(x), KeyFor(y))
    ensures NotBelow(y, Insert(x, s))
  {
    if s != [] && !KeyLt(KeyFor(x), KeyFor(s[0])) {
      assert NotBelow(y, s[1..]) by {
        forall j | 0 <= j < |s[1..]| ensures !KeyLt(KeyFor(s[1..][j]), KeyFor(y)) {
          assert s[1..][j] == s[j + 1];
        }
      }
      InsertNotBelow(y, x, s[1..]);
      var u := [s[0]] + Insert(x, s[1..]);
      forall j | 0 <= j < |u| ensures !KeyLt(KeyFor(u[j]), KeyFor(y)) {
        if j > 0 {
          assert u[j] == Insert(x, s[1..])[j - 1];
        }
      }
    }
  }

  lemma {:induction false} InsertSorted(x: Record, s: seq<Record>)
    requires Sorted(s)
    ensures Sorted(Insert(x, s))
  {
    if s == [] {
    } else if KeyLt(KeyFor(x), KeyFor(s[0])) {
      forall j | 0 <= j < |s| ensures !KeyLt(KeyFor(s[j]), KeyFor(x)) {
        KeyLtIrreflexive(KeyFor(s[0]));
        if KeyLt(KeyFor(s[0]), KeyFor(x)) {
          KeyLtTransitive(KeyFor(s[0]), KeyFor(x), KeyFor(s[0]));
        }
        if j > 0 {
          assert !KeyLt(KeyFor(s[j]), KeyFor(s[0]));
        }
        KeyLeqTransitive(KeyFor(x), KeyFor(s[0]), KeyFor(s[j]));
      }
      SortedCons(x, s);
    } else {
      SortedUncons(s);
      InsertSorted(x, s[1..]);
      InsertNotBelow(s[0], x, s[1..]);
      SortedCons(s[0], Insert(x, s[1..]));
    }
  }

  lemma {:induction false} FilterAppend(a: seq<Record>, b: seq<Record>, k: SortKey)
    ensures Filter(a + b, k) == Filter(a, k) + Filter(b, k)
  {
    if a == [] {
      assert a + b == b;
    } else {
      FilterAppend(a[1..], b, k);
      var h := if KeyFor(a[0]) == k then [a[0]] else [];
      assert (a + b)[0] == a[0] && (a + b)[1..] == a[1..] + b;
      assert Filter(a + b, k) == h + (Filter(a[1..], k) + Filter(b, k));
      assert Filter(a, k) == h + Filter(a[1..], k);
      RowsAssoc(h, Filter(a[1..], k), Filter(b, k));
    }
  }

  lemma FilterOne(x: Record, k: SortKey)
    ensures Filter([x], k) == if KeyFor(x) == k then [x] else []
  {
    assert [x][1..] == [];
  }

  lemma RowsAssoc(a: seq<Record>, b: seq<Record>, c: seq<Record>)
    ensures a + (b + c) == (a + b) + c
  {
  }

  /** In sorted rows, no row has a key below that of the first row. */
  lemma {:induction false} FilterBelow(s: seq<Record>, k: SortKey)
    requires Sorted(s) && s != []
    ensures KeyLt(k, KeyFor(s[0])) ==> Filter(s, k) == []
  {
    if KeyLt(k, KeyFor(s[0])) {
      KeyLtIrreflexive(k);
      var tail := s[1..];
      if tail != [] {
        assert Sorted(tail) by {
          forall i, j | 0 <= i < j < |tail| ensures !KeyLt(KeyFor(tail[j]), KeyFor(tail[i])) {
            assert tail[i] == s[i + 1] && tail[j] == s[j + 1];
          }
        }
        KeyLtNotBelow(k, KeyFor(s[0]), KeyFor(tail[0]));
        FilterBelow(tail, k);
      }
    }
  }

  /** Inserting `x` leaves every other key's rows as they were and puts `x` after the rows with
      its own key. */
  lemma {:induction false} InsertFilter(x: Record, s: seq<Record>, k: SortKey)
    requires Sorted(s)
    ensures Filter(Insert(x, s), k) == Filter(s, k) + (if KeyFor(x) == k then [x] else [])
  {
    if s == [] {
    } else if KeyLt(KeyFor(x), KeyFor(s[0])) {
      FilterBelow(s, KeyFor(x));
      assert ([x] + s)[1..] == s;
    } else {
      var tail := s[1..];
      assert Sorted(tail) by {
        forall i, j | 0 <= i < j < |tail| ensures !KeyLt(KeyFor(tail[j]), KeyFor(tail[i])) {
          assert tail[i] == s[i + 1] && tail[j] == s[j + 1];
        }
      }
      InsertFilter(x, tail, k);
      assert ([s[0]] + Insert(x, tail))[1..] == Insert(x, tail);
    }
  }

  /** `sorted` returns its input ordered by the key. */
  lemma {:induction false} SortRowsSorted(rs: seq<Record>)
    ensures Sorted(SortRows(rs))
  {
    if rs != [] {
      SortRowsSorted(rs[..|rs| - 1]);
      InsertSorted(rs[|rs| - 1], SortRows(rs[..|rs| - 1]));
    }
  }

  /** `sorted` returns a permutation of its input. */
  lemma {:induction false} SortRowsPermutation(rs: seq<Record>)
    ensures multiset(SortRows(rs)) == multiset(rs)
  {
    if rs != [] {
      var init, last := rs[..|rs| - 1], rs[|rs| - 1];
      SortRowsPermutation(init);
      InsertMultiset(last, SortRows(init));
      assert rs == init + [last];
    }
  }

  /** `sorted` is stable: the rows of each key come out in input order. */
  lemma {:induction false} SortRowsStable(rs: seq<Record>, k: SortKey)
    ensures Filter(SortRows(rs), k) == Filter(rs, k)
  {
    if rs != [] {
      var init, last := rs[..|rs| - 1], rs[|rs| - 1];
      SortRowsStable(init, k);
      SortRowsSorted(init);
      assert SortRows(rs) == Insert(last, SortRows(init));
      InsertFilter(last, SortRows(init), k);
      assert rs == init + [last];
      FilterAppend(init, [last], k);
      FilterOne(last, k);
    }
  }

  lemma {:induction false} FilterCount(s: seq<Record>, x: Record)
    ensures multiset(Filter(s, KeyFor(x)))[x] == multiset(s)[x]
  {
    if s != [] {
      FilterCount(s[1..], x);
      assert s == [s[0]] + s[1..];
    }
  }

  /** Sequences with the same rows for every key hold the same rows. */
  lemma SameFiltersSameLength(a: seq<Record>, b: seq<Record>)
    requires forall k :: Filter(a, k) == Filter(b, k)
    ensures |a| == |b|
  {
    forall x ensures multiset(a)[x] == multiset(b)[x] {
      FilterCount(a, x);
      FilterCount(b, x);
    }
    assert multiset(a) == multiset(b);
  }

  /** There is only one sorted sequence with given rows per key: a stable sort of `rs` can only
      return `SortRows(rs)`. */
  lemma {:induction false} SortedUnique(a: seq<Record>, b: seq<Record>)
    requires Sorted(a) && Sorted(b)
    requires forall k :: Filter(a, k) == Filter(b, k)
    ensures a == b
    decreases |a|
  {
    SameFiltersSameLength(a, b);
    if a != [] {
      var ka, kb := KeyFor(a[0]), KeyFor(b[0]);
      FilterBelow(a, kb);
      FilterBelow(b, ka);
      KeyLtTotal(ka, kb);
      assert Filter(a, ka) == [a[0]] + Filter(a[1..], ka);
      assert Filter(b, kb) == [b[0]] + Filter(b[1..], kb);
      assert ka == kb;
      assert Filter(a, ka) == Filter(b, ka);
      assert Filter(a, ka)[0] == a[0] && Filter(b, kb)[0] == b[0];
      var ta, tb := a[1..], b[1..];
      forall k ensures Filter(ta, k) == Filter(tb, k) {
        var head := if ka == k then [a[0]] else [];
        assert Filter(a, k) == head + Filter(ta, k);
        assert Filter(b, k) == head + Filter(tb, k);
        assert Filter(a, k) == Filter(b, k);
        assert Filter(ta, k) == (head + Filter(ta, k))[|head|..];
        assert Filter(tb, k) == (head + Filter(tb, k))[|head|..];
      }
      assert Sorted(ta) && Sorted(tb) by {
        forall i, j | 0 <= i < j < |ta| ensures !KeyLt(KeyFor(ta[j]), KeyFor(ta[i])) {
          assert ta[i] == a[i + 1] && ta[j] == a[j + 1];
        }
        forall i, j | 0 <= i < j < |tb| ensures !KeyLt(KeyFor(tb[j]), KeyFor(tb[i])) {
          assert tb[i] == b[i + 1] && tb[j] == b[j + 1];
        }
      }
      SortedUnique(ta, tb);
      assert a == [a[0]] + ta && b == [b[0]] + tb;
    }
  }

  /** `SortRows` is exactly Python's stable `sorted`: any ordered sequence that keeps the rows of
      each key of `rs` in their input order is `SortRows(rs)`. */
  lemma SortRowsCharacterized(rs: seq<Record>, t: seq<Record>)
    requires Sorted(t)
    requires forall k :: Filter(t, k) == Filter(rs, k)
    ensures t == SortRows(rs)
  {
    SortRowsSorted(rs);
    forall k ensures Filter(t, k) == Filter(SortRows(rs), k) {
      SortRowsStable(rs, k);
    }
    SortedUnique(t, SortRows(rs));
  }
}
