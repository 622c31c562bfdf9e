/** The sequence edit behind a notice update's `removeAttachments`: the
    requested indices are sorted descending and each one that is in range at
    the moment it is processed splices out the element then at that position. */
module AttachmentEdit {
  import opened Ordering

  /** The sort key of the comparator `(a, b) => b - a`. */
  function Id(i: int): int { i }

  /** The removal order: the requested indices, largest first. */
  function RemovalOrder(indices: seq<int>): seq<int>
  {
    SortDesc(indices, Id)
  }

  /** `s.splice(i, 1)` behind the guard `i >= 0 && i < s.length`. */
  function SpliceOut<T>(s: seq<T>, i: int): (r: seq<T>)
    ensures 0 <= i < |s| ==> |r| == |s| - 1
    ensures !(0 <= i < |s|) ==> r == s
  {
    if 0 <= i < |s| then s[..i] + s[i + 1..] else s
  }

  /** The `forEach` over the removal order, one splice per index. */
  function RemoveAll<T>(s: seq<T>, order: seq<int>): seq<T>
  {
    if order == [] then s else SpliceOut(RemoveAll(s, order[..|order| - 1]), order[|order| - 1])
  }

  predicate StrictlyDescending(s: seq<int>)
  {
    forall i, j :: 0 <= i < j < |s| ==> s[i] > s[j]
  }

  predicate NoRepeats(s: seq<int>)
  {
    forall i, j :: 0 <= i < j < |s| ==> s[i] != s[j]
  }

  function Elems(s: seq<int>): set<int>
  {
    set x | x in s
  }

  /** The elements of `s` from position `lo` on whose original position is not in `drop`,
      in their original order. */
  function KeepFrom<T>(s: seq<T>, drop: set<int>, lo: nat): (r: seq<T>)
    ensures lo <= |s| ==> |r| <= |s| - lo
    decreases |s| - lo
  {
    if lo >= |s| then [] else (if lo in drop then [] else [s[lo]]) + KeepFrom(s, drop, lo + 1)
  }

  function Keep<T>(s: seq<T>, drop: set<int>): (r: seq<T>)
    ensures |r| <= |s|
  {
    KeepFrom(s, drop, 0)
  }

  /** How many positions in `[lo, n)` are in `drop`. */
  function DropCount(n: nat, drop: set<int>, lo: nat): nat
    decreases n - lo
  {
    if lo >= n then 0 else (if lo in drop then 1 else 0) + DropCount(n, drop, lo + 1)
  }

  /** Positions below the first dropped one are kept as they are. */
  lemma {:induction false} KeepFromPrefix<T>(s: seq<T>, drop: set<int>, lo: nat, m: nat)
    requires lo <= m <= |s|
    requires forall d :: lo <= d < m ==> d !in drop
    ensures KeepFrom(s, drop, lo) == s[lo..m] + KeepFrom(s, drop, m)
    decreases m - lo
  {
    if lo < m {
      KeepFromPrefix(s, drop, lo + 1, m);
      var rest := KeepFrom(s, drop, m);
      assert lo !in drop;
      assert KeepFrom(s, drop, lo) == [s[lo]] + KeepFrom(s, drop, lo + 1);
      assert KeepFrom(s, drop, lo + 1) == s[lo + 1..m] + rest;
      assert s[lo..m] == [s[lo]] + s[lo + 1..m];
      assert [s[lo]] + (s[lo + 1..m] + rest) == ([s[lo]] + s[lo + 1..m]) + rest;
    } else {
      assert s[lo..m] == [];
    }
  }

  /** Only the positions from `lo` to the end matter. */
  lemma {:induction false} KeepFromSameDrops<T>(s: seq<T>, d1: set<int>, d2: set<int>, lo: nat)
    requires forall d :: lo <= d < |s| ==> (d in d1 <==> d in d2)
    ensures KeepFrom(s, d1, lo) == KeepFrom(s, d2, lo)
    decreases |s| - lo
  {
    if lo < |s| {
      KeepFromSameDrops(s, d1, d2, lo + 1);
    }
  }

  lemma {:induction false} KeepFromLength<T>(s: seq<T>, drop: set<int>, lo: nat)
    requires lo <= |s|
    ensures |KeepFrom(s, drop, lo)| == |s| - lo - DropCount(|s|, drop, lo)
    decreases |s| - lo
  {
    if lo < |s| {
      KeepFromLength(s, drop, lo + 1);
    }
  }

  /** Splicing out position `m` of what survives larger drops is dropping `m` as well. */
  lemma SpliceBelowDrops<T>(s: seq<T>, drop: set<int>, m: int)
    requires forall d :: d in drop ==> d > m
    ensures SpliceOut(Keep(s, drop), m) == Keep(s, drop + {m})
  {
    if 0 <= m < |s| {
      KeepFromPrefix(s, drop, 0, m);
      KeepFromPrefix(s, drop + {m}, 0, m);
      KeepFromSameDrops(s, drop, drop + {m}, m + 1);
      var k := KeepFrom(s, drop, m + 1);
      assert KeepFrom(s, drop, m) == [s[m]] + k;
      assert KeepFrom(s, drop + {m}, m) == k;
      var kept := s[0..m] + ([s[m]] + k);
      assert Keep(s, drop) == kept;
      assert kept[..m] == s[..m];
      assert kept[m + 1..] == k;
      assert s[0..m] == s[..m];
    } else {
      KeepFromSameDrops(s, drop, drop + {m}, 0);
    }
  }

  /** With strictly descending indices every splice removes the element the index named
      in the original sequence: the result is the original with those positions dropped. */
  lemma {:induction false} RemoveAllDescending<T>(s: seq<T>, order: seq<int>)
    requires StrictlyDescending(order)
    ensures RemoveAll(s, order) == Keep(s, Elems(order))
  {
    if order == [] {
      KeepFromSameDrops(s, {}, Elems(order), 0);
      KeepFromPrefix(s, {}, 0, |s|);
      assert s[0..|s|] == s;
    } else {
      var init, m := order[..|order| - 1], order[|order| - 1];
      RemoveAllDescending(s, init);
      forall d | d in Elems(init) ensures d > m {
        var i :| 0 <= i < |init| && init[i] == d;
      }
      SpliceBelowDrops(s, Elems(init), m);
      assert order == init + [m];
      assert Elems(order) == Elems(init) + {m};
    }
  }

  lemma {:induction false} NoRepeatsCounts(s: seq<int>)
    requires NoRepeats(s)
    ensures forall x :: multiset(s)[x] <= 1
  {
    if s != [] {
      var init := s[..|s| - 1];
      NoRepeatsCounts(init);
      assert s == init + [s[|s| - 1]];
      assert s[|s| - 1] !in init;
    }
  }

  lemma TwoPositions(s: seq<int>, i: nat, j: nat)
    requires i < j < |s|
    ensures s[i] == s[j] ==> multiset(s)[s[j]] >= 2
  {
    assert s == s[..j] + [s[j]] + s[j + 1..];
    assert s[i] in s[..j];
  }

  lemma CountsNoRepeats(s: seq<int>)
    requires forall x :: multiset(s)[x] <= 1
    ensures NoRepeats(s)
  {
    forall i, j | 0 <= i < j < |s| ensures s[i] != s[j] {
      TwoPositions(s, i, j);
    }
  }

  /** Distinct indices sort into a strictly descending order with the same elements. */
  lemma RemovalOrderFacts(indices: seq<int>)
    requires NoRepeats(indices)
    ensures StrictlyDescending(RemovalOrder(indices))
    ensures Elems(RemovalOrder(indices)) == Elems(indices)
  {
    var order := RemovalOrder(indices);
    SortDescFacts(indices, Id);
    NoRepeatsCounts(indices);
    CountsNoRepeats(order);
    forall x ensures x in order <==> x in indices {
      assert x in order <==> x in multiset(order);
      assert x in indices <==> x in multiset(indices);
    }
  }

  /** With distinct requested indices the survivors are exactly the elements whose
      original position was not requested, in their original order, and the length drops
      by the number of requested positions that exist. */
  lemma RemoveDistinct<T>(s: seq<T>, indices: seq<int>)
    requires NoRepeats(indices)
    ensures RemoveAll(s, RemovalOrder(indices)) == Keep(s, Elems(indices))
    ensures |RemoveAll(s, RemovalOrder(indices))| == |s| - DropCount(|s|, Elems(indices), 0)
  {
    RemovalOrderFacts(indices);
    RemoveAllDescending(s, RemovalOrder(indices));
    KeepFromLength(s, Elems(indices), 0);
  }

  /** Only the positions from `lo` to `n` matter to the count. */
  lemma {:induction false} DropCountSameDrops(n: nat, d1: set<int>, d2: set<int>, lo: nat)
    requires forall d :: lo <= d < n ==> (d in d1 <==> d in d2)
    ensures DropCount(n, d1, lo) == DropCount(n, d2, lo)
    decreases n - lo
  {
    if lo < n {
      DropCountSameDrops(n, d1, d2, lo + 1);
    }
  }

  /** When every dropped position lies in `[lo, n)`, all of them are counted. */
  lemma {:induction false} DropCountInRange(n: nat, drop: set<int>, lo: nat)
    requires forall d :: d in drop ==> lo <= d < n
    ensures DropCount(n, drop, lo) == |drop|
    decreases n - lo
  {
    if lo >= n {
      if drop != {} {
        var d :| d in drop;
        assert false;
      }
    } else if lo in drop {
      DropCountSameDrops(n, drop, drop - {lo}, lo + 1);
      DropCountInRange(n, drop - {lo}, lo + 1);
      assert |drop| == |drop - {lo}| + 1;
    } else {
      DropCountInRange(n, drop, lo + 1);
    }
  }

  lemma {:induction false} ElemsOfDistinct(s: seq<int>)
    requires NoRepeats(s)
    ensures |Elems(s)| == |s|
  {
    if s != [] {
      var init, last := s[..|s| - 1], s[|s| - 1];
      ElemsOfDistinct(init);
      assert s == init + [last];
      assert Elems(s) == Elems(init) + {last};
      assert last !in Elems(init);
    }
  }

  /** Distinct indices that all exist remove exactly as many elements as there are indices. */
  lemma RemoveDistinctInRange<T>(s: seq<T>, indices: seq<int>)
    requires NoRepeats(indices)
    requires forall k :: 0 <= k < |indices| ==> 0 <= indices[k] < |s|
    ensures RemoveAll(s, RemovalOrder(indices)) == Keep(s, Elems(indices))
    ensures |RemoveAll(s, RemovalOrder(indices))| == |s| - |indices|
  {
    RemoveDistinct(s, indices);
    DropCountInRange(|s|, Elems(indices), 0);
    ElemsOfDistinct(indices);
  }

  /** A repeated index removes one element more: `[1, 1]` on three elements leaves only
      the first. */
  lemma RepeatedIndexRemovesTwo<T>(a: T, b: T, c: T)
    ensures RemoveAll([a, b, c], RemovalOrder([1, 1])) == [a]
  {
    assert [1, 1][..1] == [1];
    assert SortDesc([1], Id) == [1];
    assert RemovalOrder([1, 1]) == [1, 1];
    assert [1, 1][..1] == [1] && [1][..0] == [];
    assert RemoveAll([a, b, c], [1]) == [a, c];
  }
}
