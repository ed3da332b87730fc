/**
 * The order in which FindCandidates and FindCandidatePairs of lsh.go put the pairs of one
 * bucket: for every position `i` and every later position `j`, the pair of set numbers
 * `(i, j)` and then `(j, i)`. A bucket is given here by the set numbers of its addresses.
 */
module Pairs {
  import opened Common
  /** The puts of position `i` against the positions `i + 1 .. j - 1`. */
  function PairPuts(ns: seq<int>, i: nat, j: nat): seq<(int, int)>
    requires i < |ns| && j <= |ns|
    decreases j
  {
    if j <= i + 1 then []
    else PairPuts(ns, i, j - 1) + [(ns[i], ns[j - 1]), (ns[j - 1], ns[i])]
  }

  /** The puts of the first `i` positions, each against every later one. */
  function PositionPuts(ns: seq<int>, i: nat): seq<(int, int)>
    requires i <= |ns|
  {
    if i == 0 then [] else PositionPuts(ns, i - 1) + PairPuts(ns, i - 1, |ns|)
  }

  /** All the puts of a bucket. */
  function BucketPuts(ns: seq<int>): seq<(int, int)>
  {
    PositionPuts(ns, |ns|)
  }

  /** A bucket of fewer than two sets puts nothing, so skipping it changes nothing. */
  lemma SmallBucket(ns: seq<int>)
    requires |ns| < 2
    ensures BucketPuts(ns) == []
  {
    if |ns| == 1 {
      assert PositionPuts(ns, 1) == PositionPuts(ns, 0) + PairPuts(ns, 0, 1);
    }
  }

  lemma PairPutsNone(done: seq<(int, int)>, ns: seq<int>, i: nat)
    requires i < |ns|
    ensures done + PairPuts(ns, i, i + 1) == done
  {
  }

  lemma PairPutsNext(done: seq<(int, int)>, ns: seq<int>, i: nat, j: nat)
    requires i < j < |ns|
    ensures done + PairPuts(ns, i, j + 1) == done + PairPuts(ns, i, j) + [(ns[i], ns[j]), (ns[j], ns[i])]
  {
  }

  lemma PositionPutsNone(done: seq<(int, int)>, ns: seq<int>)
    ensures done + PositionPuts(ns, 0) == done
  {
  }

  lemma PositionPutsNext(done: seq<(int, int)>, ns: seq<int>, i: nat)
    requires i < |ns|
    ensures done + PositionPuts(ns, i + 1) == done + PositionPuts(ns, i) + PairPuts(ns, i, |ns|)
  {
  }

  /** Two more puts add to the count of a pair once for each of them that is that pair. */
  lemma CountTwoMore(p: seq<(int, int)>, u: (int, int), v: (int, int), a: int, b: int)
    ensures CountPair(p + [u, v], a, b) == CountPair(p, a, b) + (if u == (a, b) then 1 else 0) + (if v == (a, b) then 1 else 0)
  {
    CountPairSnoc(p, u, a, b);
    CountPairSnoc(p + [u], v, a, b);
    assert p + [u] + [v] == p + [u, v];
  }

  /** Position `i - 1` adds its puts to those of the positions before it. */
  lemma PositionStep(ns: seq<int>, i: nat, a: int, b: int)
    requires 0 < i <= |ns|
    ensures CountPair(PositionPuts(ns, i), a, b) == CountPair(PositionPuts(ns, i - 1), a, b) + CountPair(PairPuts(ns, i - 1, |ns|), a, b)
  {
    CountPairAppend(PositionPuts(ns, i - 1), PairPuts(ns, i - 1, |ns|), a, b);
  }

  /** Every pair is put as often in one order as in the other. */
  lemma {:induction false} PairPutsMirrored(ns: seq<int>, i: nat, j: nat, a: int, b: int)
    requires i < |ns| && j <= |ns|
    ensures CountPair(PairPuts(ns, i, j), a, b) == CountPair(PairPuts(ns, i, j), b, a)
    decreases j
  {
    if j > i + 1 {
      var x, y := ns[i], ns[j - 1];
      var prev := PairPuts(ns, i, j - 1);
      assert PairPuts(ns, i, j) == prev + [(x, y), (y, x)];
      PairPutsMirrored(ns, i, j - 1, a, b);
      CountTwoMore(prev, (x, y), (y, x), a, b);
      CountTwoMore(prev, (x, y), (y, x), b, a);
    }
  }

  lemma {:induction false} PositionPutsMirrored(ns: seq<int>, i: nat, a: int, b: int)
    requires i <= |ns|
    ensures CountPair(PositionPuts(ns, i), a, b) == CountPair(PositionPuts(ns, i), b, a)
  {
    if i > 0 {
      PositionPutsMirrored(ns, i - 1, a, b);
      PairPutsMirrored(ns, i - 1, |ns|, a, b);
      PositionStep(ns, i, a, b);
      PositionStep(ns, i, b, a);
    }
  }

  /** `x` is at one of the positions `lo .. hi - 1`. */
  predicate Among(ns: seq<int>, x: int, lo: nat, hi: nat)
    requires lo <= hi <= |ns|
    decreases hi - lo
  {
    if hi == lo then false else Among(ns, x, lo, hi - 1) || ns[hi - 1] == x
  }

  lemma {:induction false} AmongAt(ns: seq<int>, x: int, lo: nat, hi: nat) returns (k: nat)
    requires lo <= hi <= |ns| && Among(ns, x, lo, hi)
    ensures lo <= k < hi && ns[k] == x
    decreases hi - lo
  {
    if ns[hi - 1] == x {
      k := hi - 1;
    } else {
      k := AmongAt(ns, x, lo, hi - 1);
    }
  }

  lemma {:induction false} AtAmong(ns: seq<int>, x: int, lo: nat, hi: nat, k: nat)
    requires lo <= k < hi <= |ns| && ns[k] == x
    ensures Among(ns, x, lo, hi)
    decreases hi - lo
  {
    if k < hi - 1 {
      AtAmong(ns, x, lo, hi - 1, k);
    }
  }

  /** Positions `lo .. hi - 1` split at `mid`. */
  lemma {:induction false} AmongSplit(ns: seq<int>, x: int, lo: nat, mid: nat, hi: nat)
    requires lo <= mid <= hi <= |ns|
    ensures Among(ns, x, lo, hi) <==> Among(ns, x, lo, mid) || Among(ns, x, mid, hi)
    decreases hi
  {
    if hi > mid {
      AmongSplit(ns, x, lo, mid, hi - 1);
    }
  }

  /** All the positions hold exactly the elements of the sequence. */
  lemma AmongAll(ns: seq<int>, x: int)
    ensures Among(ns, x, 0, |ns|) <==> x in ns
  {
    if Among(ns, x, 0, |ns|) {
      var k := AmongAt(ns, x, 0, |ns|);
    }
    if x in ns {
      var k :| 0 <= k < |ns| && ns[k] == x;
      AtAmong(ns, x, 0, |ns|, k);
    }
  }

  /** No position `lo .. hi - 1` holds `x` when none of them is `x`. */
  lemma {:induction false} NotAmong(ns: seq<int>, x: int, lo: nat, hi: nat)
    requires lo <= hi <= |ns| && forall k :: lo <= k < hi ==> ns[k] != x
    ensures !Among(ns, x, lo, hi)
    decreases hi - lo
  {
    if hi > lo {
      NotAmong(ns, x, lo, hi - 1);
    }
  }

  /** In a sequence without repeats, the element at `p` is at no position before `p`. */
  lemma NotBefore(ns: seq<int>, lo: nat, p: nat)
    requires NoDup(ns) && lo <= p < |ns|
    ensures !Among(ns, ns[p], lo, p)
  {
    NotAmong(ns, ns[p], lo, p);
  }

  /** In a sequence without repeats, the element at `p` is at no position after `p`. */
  lemma NotAfter(ns: seq<int>, p: nat, hi: nat)
    requires NoDup(ns) && p < hi <= |ns|
    ensures !Among(ns, ns[p], p + 1, hi)
  {
    NotAmong(ns, ns[p], p + 1, hi);
  }

  /** In a sequence without repeats, an element before `p` is at no position from `i` on, for `i > p`. */
  lemma NotTwice(ns: seq<int>, x: int, p: nat, i: nat)
    requires NoDup(ns) && p < i <= |ns|
    ensures !(Among(ns, x, 0, p) && Among(ns, x, i, |ns|))
  {
    if Among(ns, x, 0, p) {
      var k := AmongAt(ns, x, 0, p);
      NotAmong(ns, x, i, |ns|);
    }
  }

  /**
   * In a bucket without repeated sets, position `i` pairs with a later position holding `b`
   * exactly once when it holds `a`, and in the other order when it holds `b`.
   */
  lemma {:induction false} PairPutsCount(ns: seq<int>, i: nat, j: nat, a: int, b: int)
    requires NoDup(ns) && a != b && i < j <= |ns|
    ensures CountPair(PairPuts(ns, i, j), a, b) ==
      if (ns[i] == a && Among(ns, b, i + 1, j)) || (ns[i] == b && Among(ns, a, i + 1, j)) then 1 else 0
    decreases j
  {
    if j > i + 1 {
      var q := j - 1;
      var x, y := ns[i], ns[q];
      var prev := PairPuts(ns, i, q);
      assert PairPuts(ns, i, j) == prev + [(x, y), (y, x)];
      PairPutsCount(ns, i, q, a, b);
      CountTwoMore(prev, (x, y), (y, x), a, b);
      NotBefore(ns, i + 1, q);
      assert x != y;
    }
  }

  /**
   * The first `i` positions have put the pair of two different sets once when both are in
   * the bucket and one of them is among those positions, and never otherwise.
   */
  lemma {:induction false} PositionPutsCount(ns: seq<int>, i: nat, a: int, b: int)
    requires NoDup(ns) && a != b && i <= |ns|
    ensures CountPair(PositionPuts(ns, i), a, b) ==
      if Among(ns, a, 0, |ns|) && Among(ns, b, 0, |ns|) && (Among(ns, a, 0, i) || Among(ns, b, 0, i)) then 1 else 0
  {
    if i > 0 {
      PositionPutsCount(ns, i - 1, a, b);
      PairPutsCount(ns, i - 1, |ns|, a, b);
      PositionStep(ns, i, a, b);
      AmongStep(ns, i - 1, a, b);
    }
  }

  /**
   * Whether position `p` is the first of the two positions holding `a` and `b`: the step by
   * which a bucket's count of a pair goes from 0 to 1.
   */
  lemma AmongStep(ns: seq<int>, p: nat, a: int, b: int)
    requires NoDup(ns) && a != b && p < |ns|
    ensures (if Among(ns, a, 0, |ns|) && Among(ns, b, 0, |ns|) && (Among(ns, a, 0, p + 1) || Among(ns, b, 0, p + 1)) then 1 else 0) ==
      (if Among(ns, a, 0, |ns|) && Among(ns, b, 0, |ns|) && (Among(ns, a, 0, p) || Among(ns, b, 0, p)) then 1 else 0) +
      (if (ns[p] == a && Among(ns, b, p + 1, |ns|)) || (ns[p] == b && Among(ns, a, p + 1, |ns|)) then 1 else 0)
  {
    AmongSplit(ns, a, 0, p, |ns|);
    AmongSplit(ns, b, 0, p, |ns|);
    AmongSplit(ns, a, p, p + 1, |ns|);
    AmongSplit(ns, b, p, p + 1, |ns|);
    assert Among(ns, a, p, p + 1) <==> ns[p] == a;
    assert Among(ns, b, p, p + 1) <==> ns[p] == b;
    NotBefore(ns, 0, p);
    NotAfter(ns, p, |ns|);
    NotTwice(ns, a, p, p + 1);
    NotTwice(ns, b, p, p + 1);
  }

  /** A bucket without repeated sets puts each ordered pair of two of its sets exactly once. */
  lemma BucketPutsCount(ns: seq<int>, a: int, b: int)
    requires NoDup(ns) && a != b
    ensures CountPair(BucketPuts(ns), a, b) == if a in ns && b in ns then 1 else 0
  {
    PositionPutsCount(ns, |ns|, a, b);
    AmongAll(ns, a);
    AmongAll(ns, b);
  }

  /** Only distinct positions are paired, so a bucket without repeats never pairs a set with itself. */
  lemma {:induction false} PairPutsNoSelf(ns: seq<int>, i: nat, j: nat, a: int)
    requires NoDup(ns) && i < |ns| && j <= |ns|
    ensures CountPair(PairPuts(ns, i, j), a, a) == 0
    decreases j
  {
    if j > i + 1 {
      var x, y := ns[i], ns[j - 1];
      var prev := PairPuts(ns, i, j - 1);
      assert PairPuts(ns, i, j) == prev + [(x, y), (y, x)];
      PairPutsNoSelf(ns, i, j - 1, a);
      CountTwoMore(prev, (x, y), (y, x), a, a);
      assert x != y;
    }
  }

  lemma {:induction false} PositionPutsNoSelf(ns: seq<int>, i: nat, a: int)
    requires NoDup(ns) && i <= |ns|
    ensures CountPair(PositionPuts(ns, i), a, a) == 0
  {
    if i == 0 {
      assert PositionPuts(ns, i) == [];
    } else {
      PositionStep(ns, i, a, a);
      PositionPutsNoSelf(ns, i - 1, a);
      PairPutsNoSelf(ns, i - 1, |ns|, a);
    }
  }
}
