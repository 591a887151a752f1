/** The building blocks of the repositories' declarative queries: WHERE is
    `Filter`, ORDER BY ... DESC is the stable insertion sort `SortDesc`,
    a stream's `distinct()` is `Distinct`, a page is `Take`, and a table
    scan in primary-key order is `SortedKeys`. */
module Ordering {

  /** `key` does not increase along `s`. */
  predicate SortedBy<T>(s: seq<T>, key: T -> int) {
    forall i, j :: 0 <= i < j < |s| ==> key(s[i]) >= key(s[j])
  }

  predicate NoDuplicates<T(==)>(s: seq<T>) {
    forall i, j :: 0 <= i < j < |s| ==> s[i] != s[j]
  }

  // ---------------------------------------------------------------- Filter

  /** The elements of `s` satisfying `p`, in their order in `s`. */
  function Filter<T(!new)>(s: seq<T>, p: T -> bool): (r: seq<T>)
    ensures |r| <= |s|
    ensures forall x :: x in r <==> x in s && p(x)
  {
    if s == [] then []
    else
      var last := s[|s| - 1];
      assert s == s[..|s| - 1] + [last];
      Filter(s[..|s| - 1], p) + (if p(last) then [last] else [])
  }

  lemma {:induction false} FilterAppend<T(!new)>(a: seq<T>, b: seq<T>, p: T -> bool)
    ensures Filter(a + b, p) == Filter(a, p) + Filter(b, p)
    decreases |b|
  {
    if b == [] {
      assert a + b == a;
    } else {
      var b' := b[..|b| - 1];
      assert (a + b)[..|a + b| - 1] == a + b';
      assert (a + b)[|a + b| - 1] == b[|b| - 1];
      FilterAppend(a, b', p);
    }
  }

  /** Filtering by two predicates pointwise equal gives the same result. */
  lemma {:induction false} FilterSame<T(!new)>(s: seq<T>, p: T -> bool, q: T -> bool)
    requires forall x :: x in s ==> p(x) == q(x)
    ensures Filter(s, p) == Filter(s, q)
    decreases |s|
  {
    if s != [] {
      assert s == s[..|s| - 1] + [s[|s| - 1]];
      FilterSame(s[..|s| - 1], p, q);
    }
  }

  /** Filtering twice is filtering once by the conjunction. */
  lemma {:induction false} FilterFilter<T(!new)>(s: seq<T>, p: T -> bool, q: T -> bool, both: T -> bool)
    requires forall x :: x in s ==> both(x) == (p(x) && q(x))
    ensures Filter(Filter(s, p), q) == Filter(s, both)
    decreases |s|
  {
    if s != [] {
      var s', last := s[..|s| - 1], s[|s| - 1];
      assert s == s' + [last];
      FilterFilter(s', p, q, both);
      FilterAppend(Filter(s', p), if p(last) then [last] else [], q);
    }
  }

  /** Nothing of `s` satisfies `p` exactly when the filter is empty. */
  lemma FilterEmpty<T(!new)>(s: seq<T>, p: T -> bool)
    requires forall x :: x in s ==> !p(x)
    ensures Filter(s, p) == []
  {
    if Filter(s, p) != [] {
      assert Filter(s, p)[0] in Filter(s, p);
    }
  }

  /** When every element satisfies `p`, filtering keeps everything. */
  lemma {:induction false} FilterAll<T(!new)>(s: seq<T>, p: T -> bool)
    requires forall x :: x in s ==> p(x)
    ensures Filter(s, p) == s
    decreases |s|
  {
    if s != [] {
      assert s == s[..|s| - 1] + [s[|s| - 1]];
      FilterAll(s[..|s| - 1], p);
    }
  }

  /** Filtering keeps each selected element as often as it occurs. */
  lemma {:induction false} FilterCount<T(!new)>(s: seq<T>, p: T -> bool, x: T)
    ensures multiset(Filter(s, p))[x] == if p(x) then multiset(s)[x] else 0
    decreases |s|
  {
    if s != [] {
      var s', last := s[..|s| - 1], s[|s| - 1];
      assert s == s' + [last];
      FilterCount(s', p, x);
    }
  }

  lemma FilterCounts<T(!new)>(s: seq<T>, p: T -> bool)
    ensures forall x :: multiset(Filter(s, p))[x] == if p(x) then multiset(s)[x] else 0
  {
    forall x ensures multiset(Filter(s, p))[x] == if p(x) then multiset(s)[x] else 0 {
      FilterCount(s, p, x);
    }
  }

  // ------------------------------------------------------ Stable sorting

  /** Inserts `x` after every element whose key is at least `key(x)`. */
  function Insert<T(!new)>(s: seq<T>, x: T, key: T -> int): (r: seq<T>)
    ensures |r| == |s| + 1
    ensures multiset(r) == multiset(s) + multiset{x}
    decreases |s|
  {
    if s == [] || key(s[|s| - 1]) >= key(x) then s + [x]
    else
      assert s == s[..|s| - 1] + [s[|s| - 1]];
      Insert(s[..|s| - 1], x, key) + [s[|s| - 1]]
  }

  lemma {:induction false} InsertSorted<T(!new)>(s: seq<T>, x: T, key: T -> int)
    requires SortedBy(s, key)
    ensures SortedBy(Insert(s, x, key), key)
    decreases |s|
  {
    if s == [] || key(s[|s| - 1]) >= key(x) {
    } else {
      var s', last := s[..|s| - 1], s[|s| - 1];
      InsertSorted(s', x, key);
      var r' := Insert(s', x, key);
      forall y | y in r' ensures key(y) >= key(last) {
        assert y in multiset(r');
        if y != x {
          assert y in multiset(s');
          var i :| 0 <= i < |s'| && s'[i] == y;
          assert s[i] == y;
        }
      }
      assert forall i :: 0 <= i < |r'| ==> r'[i] in r';
    }
  }

  /** ORDER BY key DESC, keeping the input order among equal keys. */
  function SortDesc<T(!new)>(s: seq<T>, key: T -> int): (r: seq<T>)
    ensures |r| == |s|
    ensures multiset(r) == multiset(s)
    ensures forall x :: x in r <==> x in s
    ensures SortedBy(r, key)
    decreases |s|
  {
    if s == [] then []
    else
      var s', last := s[..|s| - 1], s[|s| - 1];
      assert s == s' + [last];
      var r' := SortDesc(s', key);
      InsertSorted(r', last, key);
      var r := Insert(r', last, key);
      assert forall x :: x in r <==> x in multiset(r);
      r
  }

  lemma FilterSnoc<T(!new)>(s: seq<T>, x: T, p: T -> bool)
    ensures Filter(s + [x], p) == Filter(s, p) + (if p(x) then [x] else [])
  {
    assert (s + [x])[..|s|] == s;
  }

  lemma InsertSnoc<T(!new)>(s: seq<T>, y: T, x: T, key: T -> int)
    requires key(y) < key(x)
    ensures Insert(s + [y], x, key) == Insert(s, x, key) + [y]
  {
    assert (s + [y])[..|s|] == s;
  }

  /** In a sorted sequence every element's key is at least the last one's. */
  lemma SortedLast<T(!new)>(s: seq<T>, y: T, key: T -> int)
    requires SortedBy(s, key) && y in s
    ensures key(y) >= key(s[|s| - 1])
  {
    var i :| 0 <= i < |s| && s[i] == y;
  }

  /** Filtering commutes with inserting into a sorted sequence. */
  lemma {:induction false} FilterInsert<T(!new)>(s: seq<T>, x: T, key: T -> int, p: T -> bool)
    requires SortedBy(s, key)
    ensures Filter(Insert(s, x, key), p)
         == if p(x) then Insert(Filter(s, p), x, key) else Filter(s, p)
    decreases |s|
  {
    if s == [] || key(s[|s| - 1]) >= key(x) {
      FilterInsertAbove(s, x, key, p);
    } else {
      FilterInsertBelow(s, x, key, p);
    }
  }

  /** The case of `FilterInsert` where `x` goes last. */
  lemma FilterInsertAbove<T(!new)>(s: seq<T>, x: T, key: T -> int, p: T -> bool)
    requires SortedBy(s, key)
    requires s == [] || key(s[|s| - 1]) >= key(x)
    ensures Filter(Insert(s, x, key), p)
         == if p(x) then Insert(Filter(s, p), x, key) else Filter(s, p)
  {
    var f := Filter(s, p);
    InsertAtEnd(s, x, key);
    FilterSnoc(s, x, p);
    if p(x) {
      if f != [] {
        SortedLast(s, f[|f| - 1], key);
      }
      InsertAtEnd(f, x, key);
    }
  }

  /** An element whose key is at most the last key goes last. */
  lemma InsertAtEnd<T(!new)>(s: seq<T>, x: T, key: T -> int)
    requires s == [] || key(s[|s| - 1]) >= key(x)
    ensures Insert(s, x, key) == s + [x]
  {
  }

  /** The case of `FilterInsert` where `x` goes before the last element. */
  lemma {:induction false} FilterInsertBelow<T(!new)>(s: seq<T>, x: T, key: T -> int, p: T -> bool)
    requires SortedBy(s, key)
    requires s != [] && key(s[|s| - 1]) < key(x)
    ensures Filter(Insert(s, x, key), p)
         == if p(x) then Insert(Filter(s, p), x, key) else Filter(s, p)
    decreases |s|, 0
  {
    var s', last := s[..|s| - 1], s[|s| - 1];
    assert s == s' + [last];
    assert SortedBy(s', key);
    FilterInsert(s', x, key, p);
    var r' := Insert(s', x, key);
    assert Insert(s, x, key) == r' + [last];
    FilterSnoc(r', last, p);
    FilterSnoc(s', last, p);
    var tail := if p(last) then [last] else [];
    assert Filter(Insert(s, x, key), p) == Filter(r', p) + tail;
    assert Filter(s, p) == Filter(s', p) + tail;
    if p(x) {
      assert Filter(r', p) == Insert(Filter(s', p), x, key);
      if p(last) {
        InsertSnoc(Filter(s', p), last, x, key);
        assert Insert(Filter(s, p), x, key) == Insert(Filter(s', p), x, key) + [last];
      } else {
        assert Filter(s, p) == Filter(s', p);
        assert Filter(Insert(s, x, key), p) == Filter(r', p);
      }
    } else {
      assert Filter(r', p) == Filter(s', p);
    }
  }

  lemma SortSnoc<T(!new)>(s: seq<T>, x: T, key: T -> int)
    ensures SortDesc(s + [x], key) == Insert(SortDesc(s, key), x, key)
  {
    assert (s + [x])[..|s|] == s;
  }

  /** A list without duplicates holds each element at most once. */
  lemma {:induction false} NoDuplicatesCount<T(!new)>(s: seq<T>, x: T)
    requires NoDuplicates(s)
    ensures multiset(s)[x] <= 1
    decreases |s|
  {
    if s != [] {
      var s', last := s[..|s| - 1], s[|s| - 1];
      assert s == s' + [last];
      assert NoDuplicates(s');
      NoDuplicatesCount(s', x);
      forall i | 0 <= i < |s'| ensures s'[i] != last {
        assert s'[i] == s[i];
      }
      assert last !in s';
    }
  }

  /** An element found at two positions occurs at least twice. */
  lemma RepeatCounts<T>(r: seq<T>, i: nat, j: nat)
    requires i < j < |r| && r[i] == r[j]
    ensures multiset(r)[r[i]] >= 2
  {
    assert r == r[..j] + r[j..];
    assert r[i] in r[..j];
    assert r[j] in r[j..];
  }

  /** Sorting a list without duplicates leaves none. */
  lemma SortKeepsNoDuplicates<T(!new)>(s: seq<T>, key: T -> int)
    requires NoDuplicates(s)
    ensures NoDuplicates(SortDesc(s, key))
  {
    var r := SortDesc(s, key);
    forall i, j | 0 <= i < j < |r| ensures r[i] != r[j] {
      if r[i] == r[j] {
        RepeatCounts(r, i, j);
        NoDuplicatesCount(s, r[i]);
        assert false;
      }
    }
  }

  /** A stable sort commutes with a filter: ordering then selecting equals
      selecting then ordering. */
  lemma {:induction false} SortFilterCommute<T(!new)>(s: seq<T>, key: T -> int, p: T -> bool)
    ensures Filter(SortDesc(s, key), p) == SortDesc(Filter(s, p), key)
    decreases |s|
  {
    if s != [] {
      var s', last := s[..|s| - 1], s[|s| - 1];
      assert s == s' + [last];
      SortFilterCommute(s', key, p);
      SortSnoc(s', last, key);
      FilterInsert(SortDesc(s', key), last, key, p);
      FilterSnoc(s', last, p);
      if p(last) {
        SortSnoc(Filter(s', p), last, key);
        assert SortDesc(Filter(s, p), key) == Insert(SortDesc(Filter(s', p), key), last, key);
      } else {
        assert Filter(s, p) == Filter(s', p);
      }
    }
  }

  // -------------------------------------------------------------- Distinct

  /** Keeps the first occurrence of every element (a stream's distinct()). */
  function Distinct<T(==,!new)>(s: seq<T>): (r: seq<T>)
    ensures |r| <= |s|
    ensures forall x :: x in r <==> x in s
    ensures NoDuplicates(r)
    decreases |s|
  {
    if s == [] then []
    else
      var s', last := s[..|s| - 1], s[|s| - 1];
      assert s == s' + [last];
      var d := Distinct(s');
      if last in d then d else d + [last]
  }

  // ---------------------------------------------------------------- Paging

  /** The first page of size `n`. */
  function Take<T>(s: seq<T>, n: nat): (r: seq<T>)
    ensures |r| <= n && |r| <= |s|
    ensures |r| == if n <= |s| then n else |s|
    ensures r == s[..|r|]
  {
    if n <= |s| then s[..n] else s
  }

  /** A prefix keeps the order and holds only elements of the whole. */
  lemma TakeKeepsOrder<T>(s: seq<T>, n: nat, key: T -> int)
    requires SortedBy(s, key)
    ensures SortedBy(Take(s, n), key)
    ensures forall x :: x in Take(s, n) ==> x in s
  {
    var r := Take(s, n);
    forall x | x in r ensures x in s {
      var i :| 0 <= i < |r| && r[i] == x;
      assert s[i] == x;
    }
  }

  // ------------------------------------------------ Primary-key order scan

  predicate IsMinOf(m: nat, s: set<nat>) {
    m in s && forall x :: x in s ==> m <= x
  }

  lemma {:induction false} MinExists(s: set<nat>)
    requires s != {}
    ensures exists m :: IsMinOf(m, s)
    decreases |s|
  {
    var y :| y in s;
    var rest := s - {y};
    assert s == rest + {y};
    if rest == {} {
      assert s == {y};
      assert IsMinOf(y, s);
    } else {
      assert |rest| < |s|;
      MinExists(rest);
      var m :| IsMinOf(m, rest);
      var best := if y < m then y else m;
      forall x | x in s ensures best <= x {
        if x != y {
          assert x in rest;
        }
      }
      assert IsMinOf(best, s);
    }
  }

  function MinOf(s: set<nat>): (m: nat)
    requires s != {}
    ensures m in s && forall x :: x in s ==> m <= x
  {
    MinExists(s);
    var m :| IsMinOf(m, s);
    m
  }

  /** The keys in ascending order: the order of a scan by primary key. */
  function SortedKeys(s: set<nat>): (r: seq<nat>)
    ensures |r| == |s|
    ensures forall k :: k in r <==> k in s
    ensures forall i, j :: 0 <= i < j < |r| ==> r[i] < r[j]
    decreases |s|
  {
    if s == {} then []
    else
      var m := MinOf(s);
      var rest := SortedKeys(s - {m});
      PrependMin(s, m, rest);
      [m] + rest
  }

  lemma PrependMin(s: set<nat>, m: nat, rest: seq<nat>)
    requires m in s && forall x :: x in s ==> m <= x
    requires |rest| == |s - {m}|
    requires forall k :: k in rest <==> k in s - {m}
    requires forall i, j :: 0 <= i < j < |rest| ==> rest[i] < rest[j]
    ensures |[m] + rest| == |s|
    ensures forall k :: k in [m] + rest <==> k in s
    ensures forall i, j :: 0 <= i < j < |[m] + rest| ==> ([m] + rest)[i] < ([m] + rest)[j]
  {
    var r := [m] + rest;
    assert s == (s - {m}) + {m};
    forall i, j | 0 <= i < j < |r| ensures r[i] < r[j] {
      assert r[j] == rest[j - 1] && rest[j - 1] in rest;
      if i > 0 {
        assert r[i] == rest[i - 1];
      }
    }
  }

  /** The values of `m` at the keys `ks`, in the order of `ks`. */
  function ValuesAt<K, V>(m: map<K, V>, ks: seq<K>): (r: seq<V>)
    requires forall k :: k in ks ==> k in m
    ensures |r| == |ks|
    ensures forall i :: 0 <= i < |ks| ==> r[i] == m[ks[i]]
    decreases |ks|
  {
    if ks == [] then []
    else ValuesAt(m, ks[..|ks| - 1]) + [m[ks[|ks| - 1]]]
  }

  /** The keys among `ks` whose values satisfy `p`. */
  function KeysWhere<K, V>(m: map<K, V>, ks: seq<K>, p: V -> bool): set<K>
    requires forall k :: k in ks ==> k in m
  {
    set k | k in ks && p(m[k])
  }

  /** Counting the selected rows of a scan over distinct keys counts the
      selected keys. */
  lemma {:induction false} CountSelectedValues<K, V(!new)>(m: map<K, V>, ks: seq<K>, p: V -> bool)
    requires forall k :: k in ks ==> k in m
    requires forall i, j :: 0 <= i < j < |ks| ==> ks[i] != ks[j]
    ensures |Filter(ValuesAt(m, ks), p)| == |KeysWhere(m, ks, p)|
    decreases |ks|
  {
    if ks != [] {
      var ks', last := ks[..|ks| - 1], ks[|ks| - 1];
      assert ks == ks' + [last];
      assert last !in ks';
      CountSelectedValues(m, ks', p);
      ValuesAtSnoc(m, ks', last);
      FilterSnoc(ValuesAt(m, ks'), m[last], p);
      KeysWhereSnoc(m, ks', last, p);
      assert last !in KeysWhere(m, ks', p);
    }
  }

  lemma ValuesAtSnoc<K, V>(m: map<K, V>, ks: seq<K>, k: K)
    requires forall k' :: k' in ks ==> k' in m
    requires k in m
    ensures ValuesAt(m, ks + [k]) == ValuesAt(m, ks) + [m[k]]
  {
    assert (ks + [k])[..|ks|] == ks;
  }

  lemma KeysWhereSnoc<K, V>(m: map<K, V>, ks: seq<K>, k: K, p: V -> bool)
    requires forall k' :: k' in ks ==> k' in m
    requires k in m
    ensures KeysWhere(m, ks + [k], p) == KeysWhere(m, ks, p) + (if p(m[k]) then {k} else {})
  {
    var after, before := KeysWhere(m, ks + [k], p), KeysWhere(m, ks, p) + (if p(m[k]) then {k} else {});
    forall x ensures x in after <==> x in before {
      assert x in ks + [k] <==> x in ks || x == k;
    }
  }
}
