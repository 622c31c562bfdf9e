/** Sequence operations behind the portal's listings: filtering an array,
    `Array.prototype.slice` (with its negative-index rules), MongoDB's
    `skip`/`limit` cursor window, and the stable newest-first sort that both
    `Array.prototype.sort` and `.sort({ createdAt: -1 })` perform. */
module Ordering {
  import opened Wrappers

  /** `s.filter(p)`. */
  function Filter<T(!new)>(s: seq<T>, p: T -> bool): (r: seq<T>)
    ensures |r| <= |s|
    ensures forall x :: x in r <==> x in s && p(x)
  {
    if s == [] then [] else (if p(s[0]) then [s[0]] else []) + Filter(s[1..], p)
  }

  lemma {:induction false} FilterAppend<T(!new)>(a: seq<T>, b: seq<T>, p: T -> bool)
    ensures Filter(a + b, p) == Filter(a, p) + Filter(b, p)
  {
    if a != [] {
      assert (a + b)[1..] == a[1..] + b;
      FilterAppend(a[1..], b, p);
    } else {
      assert a + b == b;
    }
  }

  /** A filter keeps every copy of an element it accepts and none of one it rejects. */
  lemma {:induction false} FilterMultiset<T(!new)>(s: seq<T>, p: T -> bool, x: T)
    ensures multiset(Filter(s, p))[x] == if p(x) then multiset(s)[x] else 0
  {
    if s != [] {
      FilterMultiset(s[1..], p, x);
      assert s == [s[0]] + s[1..];
    }
  }

  /** The index that `slice` uses for a start or end argument `i` on an array of length `len`. */
  function SliceIndex(i: int, len: nat): (k: nat)
    ensures k <= len
  {
    if i < 0 then (if len + i < 0 then 0 else len + i) else if i > len then len else i
  }

  /** `s.slice(start, end)`. */
  function JsSlice<T>(s: seq<T>, start: int, end: int): (r: seq<T>)
    ensures |r| <= |s|
  {
    var a, b := SliceIndex(start, |s|), SliceIndex(end, |s|);
    if a < b then s[a..b] else []
  }

  function Min(a: int, b: int): int { if a <= b then a else b }

  /** For `0 <= lo <= hi`, `s.slice(lo, hi)` is the window from `lo` to `hi`, cut at the end of `s`. */
  lemma WindowSlice<T>(s: seq<T>, lo: int, hi: int)
    requires 0 <= lo <= hi
    ensures JsSlice(s, lo, hi) == s[Min(lo, |s|)..Min(hi, |s|)]
    ensures |JsSlice(s, lo, hi)| <= hi - lo
  {
  }

  /** For `page >= 1` and `limit >= 0`, `s.slice((page - 1) * limit, page * limit)` is the
      `page`-th window of `limit` elements, cut at the end of `s`. */
  lemma PageWindow<T>(s: seq<T>, page: int, limit: int)
    requires page >= 1 && limit >= 0
    ensures var lo := (page - 1) * limit;
      lo <= page * limit &&
      JsSlice(s, lo, page * limit) == s[Min(lo, |s|)..Min(page * limit, |s|)] &&
      |JsSlice(s, lo, page * limit)| <= limit
  {
    var lo, hi := (page - 1) * limit, page * limit;
    assert lo >= 0 by { assert page - 1 >= 0; }
    assert hi == lo + limit;
    WindowSlice(s, lo, hi);
  }

  /** `s.slice(0, limit)` for a non-negative `limit` is the first `limit` elements. */
  lemma PrefixSlice<T>(s: seq<T>, limit: int)
    requires limit >= 0
    ensures JsSlice(s, 0, limit) == s[..Min(limit, |s|)]
  {
  }

  /** Page 0 yields nothing, since the slice then ends at index 0; a negative page counts
      back from the end of the array instead. */
  lemma PageZeroIsEmpty<T>(s: seq<T>, limit: int)
    requires limit > 0
    ensures JsSlice(s, (0 - 1) * limit, 0 * limit) == []
  {
  }

  /** MongoDB's `.limit(limit).skip((page - 1) * limit)`: a negative skip is a server error
      (`None`), a limit of 0 means no limit, and a negative limit `-n` returns at most `n`. */
  function MongoPage<T>(s: seq<T>, page: int, limit: int): (r: Option<seq<T>>)
  {
    MongoWindow(s, (page - 1) * limit, limit)
  }

  function MongoWindow<T>(s: seq<T>, skip: int, limit: int): Option<seq<T>>
  {
    if skip < 0 then None
    else
      var rest := if skip <= |s| then s[skip..] else [];
      var n := if limit < 0 then -limit else limit;
      Some(if limit == 0 || n >= |rest| then rest else rest[..n])
  }

  lemma MongoWindowIsSlice<T>(s: seq<T>, skip: int, limit: int)
    requires skip >= 0 && limit > 0
    ensures MongoWindow(s, skip, limit) == Some(JsSlice(s, skip, skip + limit))
  {
    if skip <= |s| {
      var rest := s[skip..];
      if limit < |rest| {
        assert rest[..limit] == s[skip..skip + limit];
      } else {
        assert SliceIndex(skip + limit, |s|) == |s|;
        assert rest == s[skip..|s|];
      }
    }
  }

  /** With a page of at least 1 and a positive limit the cursor window is the same as the
      array slice used by the in-memory routes. */
  lemma MongoPageIsSlice<T>(s: seq<T>, page: int, limit: int)
    requires page >= 1 && limit > 0
    ensures MongoPage(s, page, limit) == Some(JsSlice(s, (page - 1) * limit, page * limit))
  {
    var lo := (page - 1) * limit;
    assert lo >= 0 by { assert page - 1 >= 0; }
    assert page * limit == lo + limit;
    MongoWindowIsSlice(s, lo, limit);
  }

  predicate SortedDesc<T>(s: seq<T>, key: T -> int)
  {
    forall i, j :: 0 <= i < j < |s| ==> key(s[i]) >= key(s[j])
  }

  /** Inserts `x` after every element whose key is at least `x`'s, which keeps equal keys in
      arrival order. */
  function InsertDesc<T>(x: T, s: seq<T>, key: T -> int): seq<T>
  {
    if s == [] then [x]
    else if key(s[0]) >= key(x) then [s[0]] + InsertDesc(x, s[1..], key)
    else [x] + s
  }

  /** Stable sort by descending key: the comparator `(a, b) => key(b) - key(a)`. */
  function SortDesc<T>(s: seq<T>, key: T -> int): seq<T>
  {
    if s == [] then [] else InsertDesc(s[|s| - 1], SortDesc(s[..|s| - 1], key), key)
  }

  /** The elements of `s` with key `k`, in order. */
  function WithKey<T>(s: seq<T>, key: T -> int, k: int): seq<T>
  {
    if s == [] then [] else (if key(s[0]) == k then [s[0]] else []) + WithKey(s[1..], key, k)
  }

  lemma {:induction false} WithKeyAppend<T>(a: seq<T>, b: seq<T>, key: T -> int, k: int)
    ensures WithKey(a + b, key, k) == WithKey(a, key, k) + WithKey(b, key, k)
  {
    if a != [] {
      assert (a + b)[1..] == a[1..] + b;
      WithKeyAppend(a[1..], b, key, k);
    } else {
      assert a + b == b;
    }
  }

  lemma {:induction false} WithKeyAbsent<T>(s: seq<T>, key: T -> int, k: int)
    requires forall i :: 0 <= i < |s| ==> key(s[i]) != k
    ensures WithKey(s, key, k) == []
  {
    if s != [] { WithKeyAbsent(s[1..], key, k); }
  }

  lemma {:induction false} InsertDescMultiset<T>(x: T, s: seq<T>, key: T -> int)
    ensures multiset(InsertDesc(x, s, key)) == multiset(s) + multiset{x}
  {
    if s != [] && key(s[0]) >= key(x) {
      InsertDescMultiset(x, s[1..], key);
      assert s == [s[0]] + s[1..];
    }
  }

  /** Inserting below a bound keeps every key below it. */
  lemma {:induction false} InsertDescBounded<T>(x: T, s: seq<T>, key: T -> int, m: int)
    requires key(x) <= m && forall i :: 0 <= i < |s| ==> key(s[i]) <= m
    ensures forall i :: 0 <= i < |InsertDesc(x, s, key)| ==> key(InsertDesc(x, s, key)[i]) <= m
  {
    if s != [] && key(s[0]) >= key(x) {
      var r, r1 := InsertDesc(x, s, key), InsertDesc(x, s[1..], key);
      InsertDescBounded(x, s[1..], key, m);
      assert r == [s[0]] + r1;
      forall i | 0 <= i < |r| ensures key(r[i]) <= m {
        if i > 0 { assert r[i] == r1[i - 1]; }
      }
    }
  }

  /** An element at least as new as everything after it extends a sorted sequence. */
  lemma ConsSorted<T>(a: T, r: seq<T>, key: T -> int)
    requires SortedDesc(r, key) && forall i :: 0 <= i < |r| ==> key(r[i]) <= key(a)
    ensures SortedDesc([a] + r, key)
  {
    var c := [a] + r;
    forall i, j | 0 <= i < j < |c| ensures key(c[i]) >= key(c[j]) {
      assert c[j] == r[j - 1];
      if i > 0 { assert c[i] == r[i - 1]; }
    }
  }

  lemma {:induction false} InsertDescSorted<T>(x: T, s: seq<T>, key: T -> int)
    requires SortedDesc(s, key)
    ensures SortedDesc(InsertDesc(x, s, key), key)
  {
    if s == [] {
      assert InsertDesc(x, s, key) == [x];
    } else if key(s[0]) >= key(x) {
      var t := s[1..];
      assert SortedDesc(t, key) && forall i :: 0 <= i < |t| ==> key(t[i]) <= key(s[0]) by {
        forall i | 0 <= i < |t| ensures key(t[i]) <= key(s[0]) { assert t[i] == s[i + 1]; }
        forall i, j | 0 <= i < j < |t| ensures key(t[i]) >= key(t[j]) { assert t[i] == s[i + 1] && t[j] == s[j + 1]; }
      }
      InsertDescSorted(x, t, key);
      InsertDescBounded(x, t, key, key(s[0]));
      ConsSorted(s[0], InsertDesc(x, t, key), key);
    } else {
      forall i | 0 <= i < |s| ensures key(s[i]) <= key(x) {
        if i > 0 { assert key(s[0]) >= key(s[i]); }
      }
      ConsSorted(x, s, key);
    }
  }

  lemma {:induction false} InsertDescWithKey<T>(x: T, s: seq<T>, key: T -> int, k: int)
    requires SortedDesc(s, key)
    ensures WithKey(InsertDesc(x, s, key), key, k) == WithKey(s, key, k) + (if key(x) == k then [x] else [])
  {
    var r := InsertDesc(x, s, key);
    var tail := if key(x) == k then [x] else [];
    if s == [] {
    } else if key(s[0]) >= key(x) {
      var r1 := InsertDesc(x, s[1..], key);
      var head := if key(s[0]) == k then [s[0]] else [];
      InsertDescWithKey(x, s[1..], key, k);
      assert r == [s[0]] + r1;
      assert r[1..] == r1;
      assert WithKey(r, key, k) == head + WithKey(r1, key, k);
      assert WithKey(s, key, k) == head + WithKey(s[1..], key, k);
    } else {
      assert r == [x] + s;
      assert r[1..] == s;
      assert WithKey(r, key, k) == tail + WithKey(s, key, k);
      if key(x) == k {
        WithKeyAbsent(s, key, k);
      }
    }
  }

  lemma {:induction false} SortDescSorted<T>(s: seq<T>, key: T -> int)
    ensures SortedDesc(SortDesc(s, key), key)
  {
    if s != [] {
      SortDescSorted(s[..|s| - 1], key);
      InsertDescSorted(s[|s| - 1], SortDesc(s[..|s| - 1], key), key);
    }
  }

  lemma {:induction false} SortDescMultiset<T>(s: seq<T>, key: T -> int)
    ensures multiset(SortDesc(s, key)) == multiset(s)
  {
    if s != [] {
      var init, x := s[..|s| - 1], s[|s| - 1];
      var sorted := SortDesc(init, key);
      SortDescMultiset(init, key);
      InsertDescMultiset(x, sorted, key);
      assert SortDesc(s, key) == InsertDesc(x, sorted, key);
      assert s == init + [x];
      assert multiset(s) == multiset(init) + multiset{x};
    }
  }

  lemma {:induction false} SortDescWithKey<T>(s: seq<T>, key: T -> int, k: int)
    ensures WithKey(SortDesc(s, key), key, k) == WithKey(s, key, k)
  {
    if s != [] {
      var init, x := s[..|s| - 1], s[|s| - 1];
      SortDescWithKey(init, key, k);
      SortDescSorted(init, key);
      InsertDescWithKey(x, SortDesc(init, key), key, k);
      WithKeyAppend(init, [x], key, k);
      assert s == init + [x];
    }
  }

  /** The sort orders newest first, loses and invents nothing, and keeps the relative order
      of elements with equal keys (it is stable). */
  lemma SortDescFacts<T>(s: seq<T>, key: T -> int)
    ensures SortedDesc(SortDesc(s, key), key)
    ensures multiset(SortDesc(s, key)) == multiset(s)
    ensures |SortDesc(s, key)| == |s|
    ensures forall k :: WithKey(SortDesc(s, key), key, k) == WithKey(s, key, k)
  {
    SortDescSorted(s, key);
    SortDescMultiset(s, key);
    assert |multiset(SortDesc(s, key))| == |multiset(s)|;
    forall k ensures WithKey(SortDesc(s, key), key, k) == WithKey(s, key, k) {
      SortDescWithKey(s, key, k);
    }
  }

  lemma {:induction false} InsertDescAtEnd<T>(x: T, s: seq<T>, key: T -> int)
    requires forall i :: 0 <= i < |s| ==> key(s[i]) >= key(x)
    ensures InsertDesc(x, s, key) == s + [x]
  {
    if s != [] {
      InsertDescAtEnd(x, s[1..], key);
      assert s == [s[0]] + s[1..];
    }
  }

  /** Sorting an already newest-first sequence leaves it as it is. */
  lemma {:induction false} SortDescOfSorted<T>(s: seq<T>, key: T -> int)
    requires SortedDesc(s, key)
    ensures SortDesc(s, key) == s
  {
    if s != [] {
      var init := s[..|s| - 1];
      SortDescOfSorted(init, key);
      InsertDescAtEnd(s[|s| - 1], init, key);
      assert s == init + [s[|s| - 1]];
    }
  }

  lemma {:induction false} FilterBounded<T(!new)>(s: seq<T>, p: T -> bool, key: T -> int, m: int)
    requires forall i :: 0 <= i < |s| ==> key(s[i]) <= m
    ensures forall i :: 0 <= i < |Filter(s, p)| ==> key(Filter(s, p)[i]) <= m
  {
    if s != [] {
      FilterBounded(s[1..], p, key, m);
    }
  }

  /** Filtering keeps a newest-first sequence newest-first. */
  lemma {:induction false} FilterSorted<T(!new)>(s: seq<T>, p: T -> bool, key: T -> int)
    requires SortedDesc(s, key)
    ensures SortedDesc(Filter(s, p), key)
  {
    if s != [] {
      var t := s[1..];
      assert SortedDesc(t, key) && forall i :: 0 <= i < |t| ==> key(t[i]) <= key(s[0]) by {
        forall i | 0 <= i < |t| ensures key(t[i]) <= key(s[0]) { assert t[i] == s[i + 1]; }
        forall i, j | 0 <= i < j < |t| ensures key(t[i]) >= key(t[j]) { assert t[i] == s[i + 1] && t[j] == s[j + 1]; }
      }
      FilterSorted(t, p, key);
      FilterBounded(t, p, key, key(s[0]));
      if p(s[0]) {
        ConsSorted(s[0], Filter(t, p), key);
      }
    }
  }

  /** `s.slice(0, end)` is always a prefix of `s`. */
  lemma SliceFromStart<T>(s: seq<T>, end: int)
    ensures JsSlice(s, 0, end) == s[..SliceIndex(end, |s|)]
  {
  }

  lemma PrefixSorted<T>(s: seq<T>, n: nat, key: T -> int)
    requires n <= |s| && SortedDesc(s, key)
    ensures SortedDesc(s[..n], key)
  {
  }

  /** Inserting an element newer than everything in `b` into `a + b` leaves `b` untouched. */
  lemma {:induction false} InsertDescBeforeOlder<T>(x: T, a: seq<T>, b: seq<T>, key: T -> int)
    requires forall i :: 0 <= i < |b| ==> key(b[i]) < key(x)
    ensures InsertDesc(x, a + b, key) == InsertDesc(x, a, key) + b
  {
    if a == [] {
      assert a + b == b;
    } else {
      assert (a + b)[0] == a[0];
      assert (a + b)[1..] == a[1..] + b;
      if key(a[0]) >= key(x) {
        InsertDescBeforeOlder(x, a[1..], b, key);
      } else {
        assert a == [a[0]] + a[1..];
      }
    }
  }

  /** When everything in `y` is strictly newer than everything in `x`, sorting `x + y` puts
      the sorted `y` in front of the sorted `x`. */
  lemma {:induction false} SortDescNewerFirst<T>(x: seq<T>, y: seq<T>, key: T -> int)
    requires forall i, j :: 0 <= i < |x| && 0 <= j < |y| ==> key(x[i]) < key(y[j])
    ensures SortDesc(x + y, key) == SortDesc(y, key) + SortDesc(x, key)
    decreases |y|
  {
    if y == [] {
      assert x + y == x;
    } else {
      var init, e := y[..|y| - 1], y[|y| - 1];
      assert x + y == (x + init) + [e];
      assert (x + y)[..|x + y| - 1] == x + init;
      SortDescNewerFirst(x, init, key);
      var sx := SortDesc(x, key);
      SortDescFacts(x, key);
      forall i | 0 <= i < |sx| ensures key(sx[i]) < key(e) {
        assert sx[i] in multiset(x);
        var k :| 0 <= k < |x| && x[k] == sx[i];
      }
      InsertDescBeforeOlder(e, SortDesc(init, key), sx, key);
    }
  }
}
