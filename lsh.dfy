/**
 * The banded locality-sensitive hashing of lsh.go: the signature matrix is cut into bands of
 * rows, each set's vector in a band is hashed into one of the band's buckets, and sets that
 * share a bucket are put into the candidate stores pair by pair.
 */
module Lsh {
  import opened Common
  import opened Hash
  import opened Stores
  import opened Pairs
  import opened MinHash

  // ---------------------------------------------------------------------------------------
  // Hashing a band vector to a bucket.

  const TwoTo63: int := 0x8000_0000_0000_0000
  const TwoTo64: int := 0x1_0000_0000_0000_0000

  /** Go's `int` is 64 bits wide: an arithmetic result wraps around into [-2^63, 2^63). */
  function Wrap64(x: int): (r: int)
    ensures -TwoTo63 <= r < TwoTo63
  {
    var m := x % TwoTo64;
    if m < TwoTo63 then m else m - TwoTo64
  }

  /** A value already in the 64-bit range is left as it is. */
  lemma Wrap64Identity(x: int)
    requires -TwoTo63 <= x < TwoTo63
    ensures Wrap64(x) == x
  {
    if x < 0 {
      ModUnique(x, TwoTo64, -1, x + TwoTo64);
    } else {
      ModUnique(x, TwoTo64, 0, x);
    }
  }

  /** Wrapping forgets multiples of 2^64. */
  lemma Wrap64Shift(x: int, q: int)
    ensures Wrap64(x + q * TwoTo64) == Wrap64(x)
  {
    var d, m := x / TwoTo64, x % TwoTo64;
    assert x + q * TwoTo64 == (d + q) * TwoTo64 + m;
    ModUnique(x + q * TwoTo64, TwoTo64, d + q, m);
  }

  /** A wrapped value differs from the unwrapped one by a multiple of 2^64. */
  lemma Wrap64Offset(x: int) returns (q: int)
    ensures Wrap64(x) == x + q * TwoTo64
  {
    var d, m := x / TwoTo64, x % TwoTo64;
    if m < TwoTo63 {
      q := -d;
    } else {
      q := -d - 1;
    }
  }

  /** One step of the hash loop gives the same wrapped value whether or not `h` was wrapped first. */
  lemma HashCongruence(h: int, v: int)
    ensures Wrap64(31 * Wrap64(h) + v) == Wrap64(31 * h + v)
  {
    var q := Wrap64Offset(h);
    assert 31 * Wrap64(h) + v == (31 * h + v) + (31 * q) * TwoTo64;
    Wrap64Shift(31 * h + v, 31 * q);
  }

  /** `int(v)` of a signature cell: the value itself, or `nanValue` for NaN (Go leaves that to the platform). */
  function CellInt(v: Option<int>, nanValue: int): int
  {
    if v.Some? then v.value else nanValue
  }

  /** `int(v) & math.MaxInt32`. */
  function Masked(v: Option<int>, nanValue: int): (r: int)
    ensures 0 <= r <= MaxInt32
    ensures r == CellInt(v, nanValue) % 0x8000_0000
  {
    MaxInt32Mask(CellInt(v, nanValue));
    BitAnd(CellInt(v, nanValue), MaxInt32)
  }

  /** The hash loop of `hashToBucket`, over the cells of `vector`, in 64-bit arithmetic: always a signed 64-bit value. */
  function VectorHash(vector: seq<Option<int>>, nanValue: int): (r: int)
    ensures -TwoTo63 <= r < TwoTo63
  {
    if vector == [] then 0
    else
      var n := |vector| - 1;
      Wrap64(31 * VectorHash(vector[..n], nanValue) + Masked(vector[n], nanValue))
  }

  /** Reference definition: the polynomial `sum of c_i * 31^(n-1-i)` over the masked cells, in unbounded integers. */
  function PolyHash(vector: seq<Option<int>>, nanValue: int): int
  {
    if vector == [] then 0
    else
      var n := |vector| - 1;
      31 * PolyHash(vector[..n], nanValue) + Masked(vector[n], nanValue)
  }

  /** The 64-bit hash is the polynomial hash wrapped once: overflow in the loop loses nothing else. */
  lemma {:induction false} VectorHashIsPoly(vector: seq<Option<int>>, nanValue: int)
    ensures VectorHash(vector, nanValue) == Wrap64(PolyHash(vector, nanValue))
  {
    if vector == [] {
      Wrap64Identity(0);
    } else {
      var n := |vector| - 1;
      VectorHashIsPoly(vector[..n], nanValue);
      HashCongruence(PolyHash(vector[..n], nanValue), Masked(vector[n], nanValue));
    }
  }

  /** The polynomial hash of masked cells is never negative, so short vectors hash without overflow. */
  lemma {:induction false} PolyHashNatural(vector: seq<Option<int>>, nanValue: int)
    ensures PolyHash(vector, nanValue) >= 0
  {
    if vector != [] {
      PolyHashNatural(vector[..|vector| - 1], nanValue);
    }
  }

  /** `int(math.Abs(float64(h % numBuckets)))`: the magnitude of Go's remainder. */
  function BucketOf(h: int, numBuckets: int): (r: int)
    requires numBuckets > 0
    ensures 0 <= r < numBuckets
  {
    Abs(GoRem(h, numBuckets))
  }

  /** The bucket of a hash is the ordinary remainder of its magnitude. */
  lemma BucketOfMagnitude(h: int, numBuckets: int)
    requires numBuckets > 0
    ensures BucketOf(h, numBuckets) == Abs(h) % numBuckets
    ensures BucketOf(h, numBuckets) == BucketOf(-h, numBuckets)
  {
  }

  // ---------------------------------------------------------------------------------------
  // The band buckets.

  /** `address`: where a set was put, by band and set number. */
  datatype Address = Address(bandNum: int, setNum: int)

  /** The set numbers of a bucket's addresses, in bucket order. */
  function SetNums(bucket: seq<Address>): (ns: seq<int>)
    ensures |ns| == |bucket| && forall i :: 0 <= i < |bucket| ==> ns[i] == bucket[i].setNum
  {
    seq(|bucket|, i requires 0 <= i < |bucket| => bucket[i].setNum)
  }

  /** `n` empty buckets. */
  function EmptyBuckets(n: nat): (r: seq<seq<Address>>)
    ensures |r| == n && forall k :: 0 <= k < n ==> r[k] == []
  {
    seq(n, _ => [])
  }

  class BandBuckets {
    var bands: seq<seq<seq<Address>>>

    /** `newBandBuckets`: `numBands` bands of `numBuckets` empty buckets (`make` panics on a negative size). */
    constructor (numBands: int, numBuckets: int)
      requires numBands >= 0 && numBuckets >= 0
      ensures |bands| == numBands && forall b :: 0 <= b < numBands ==> bands[b] == EmptyBuckets(numBuckets)
    {
      var bs: seq<seq<seq<Address>>> := seq(numBands, _ => []);
      for index := 0 to numBands
        invariant |bs| == numBands
        invariant forall b :: 0 <= b < index ==> bs[b] == EmptyBuckets(numBuckets)
      {
        bs := bs[index := EmptyBuckets(numBuckets)];
      }
      bands := bs;
    }

    /**
     * `hashToBucket`: the vector's 64-bit hash picks a bucket of band `bandNum`, and the address
     * of set `setNum` is appended to it; nothing else changes. Go panics when the band does not
     * exist or has no buckets.
     */
    method HashToBucket(vector: seq<Option<int>>, bandNum: int, setNum: int, nanValue: int) returns (h: int, bucketNum: int)
      requires 0 <= bandNum < |bands| && |bands[bandNum]| > 0
      modifies this
      ensures h == VectorHash(vector, nanValue) && bucketNum == BucketOf(h, |old(bands[bandNum])|)
      ensures bands == old(bands)[bandNum := old(bands[bandNum])[bucketNum := old(bands[bandNum][bucketNum]) + [Address(bandNum, setNum)]]]
    {
      h := 0;
      for i := 0 to |vector|
        invariant h == VectorHash(vector[..i], nanValue)
      {
        assert vector[..i + 1][..i] == vector[..i];
        h := Wrap64(31 * h + Masked(vector[i], nanValue));
      }
      assert vector[..|vector|] == vector;
      var buckets := bands[bandNum];
      bucketNum := BucketOf(h, |buckets|);
      var candidateBucket := buckets[bucketNum];
      candidateBucket := candidateBucket + [Address(bandNum, setNum)];
      buckets := buckets[bucketNum := candidateBucket];
      bands := bands[bandNum := buckets];
    }

    /**
     * `FindCandidates`: a new adjacency store holding, under `[a][b]`, one election for every
     * time `(a, b)` was put while walking every bucket of every band (see `AllPuts`).
     */
    method FindCandidates() returns (candidates: Candidates)
      ensures fresh(candidates)
      ensures candidates.index == AdjacencyIndex(AllPuts(bands))
      ensures AdjacencyCount(candidates.index, AllPuts(bands)) && WellFiled(candidates.index)
    {
      candidates := new Candidates();
      for b := 0 to |bands|
        invariant candidates.index == AdjacencyIndex(AllPuts(bands[..b]))
      {
        AllPutsNext(bands, b);
        PutBand(candidates, bands[b], AllPuts(bands[..b]));
      }
      AllPutsAll(bands);
      AdjacencyIndexCount(AllPuts(bands));
    }

    /** `FindCandidatePairs`: the same walk into a new store keyed by unordered pair. */
    method FindCandidatePairs() returns (candidates: CandidatePairs)
      ensures fresh(candidates)
      ensures candidates.index == PairsIndex(AllPuts(bands))
      ensures PairsCount(candidates.index, AllPuts(bands)) && WellKeyed(candidates.index)
    {
      candidates := new CandidatePairs();
      for b := 0 to |bands|
        invariant candidates.index == PairsIndex(AllPuts(bands[..b]))
      {
        AllPutsNext(bands, b);
        PutBandPairs(candidates, bands[b], AllPuts(bands[..b]));
      }
      AllPutsAll(bands);
      PairsIndexCount(AllPuts(bands));
    }
  }

  // ---------------------------------------------------------------------------------------
  // What FindCandidates and FindCandidatePairs put, band by band and bucket by bucket.

  /** The puts of one band: its buckets in order, each as `BucketPuts` of its set numbers. */
  function BandPuts(band: seq<seq<Address>>): seq<(int, int)>
  {
    if band == [] then []
    else BandPuts(band[..|band| - 1]) + BucketPuts(SetNums(band[|band| - 1]))
  }

  /** The puts of all bands, in order. */
  function AllPuts(bands: seq<seq<seq<Address>>>): seq<(int, int)>
  {
    if bands == [] then []
    else AllPuts(bands[..|bands| - 1]) + BandPuts(bands[|bands| - 1])
  }

  lemma BandPutsNone(done: seq<(int, int)>, band: seq<seq<Address>>)
    ensures done + BandPuts(band[..0]) == done
  {
    assert band[..0] == [];
  }

  lemma BandPutsNext(done: seq<(int, int)>, band: seq<seq<Address>>, k: nat)
    requires k < |band|
    ensures done + BandPuts(band[..k + 1]) == done + BandPuts(band[..k]) + BucketPuts(SetNums(band[k]))
  {
    assert band[..k + 1][..k] == band[..k];
  }

  lemma BandPutsAll(done: seq<(int, int)>, band: seq<seq<Address>>)
    ensures done + BandPuts(band[..|band|]) == done + BandPuts(band)
  {
    assert band[..|band|] == band;
  }

  /** A skipped bucket would have put nothing. */
  lemma SmallBucketSkipped(done: seq<(int, int)>, bucket: seq<Address>)
    requires |bucket| < 2
    ensures done + BucketPuts(SetNums(bucket)) == done
  {
    SmallBucket(SetNums(bucket));
  }

  lemma AllPutsNext(bands: seq<seq<seq<Address>>>, b: nat)
    requires b < |bands|
    ensures AllPuts(bands[..b + 1]) == AllPuts(bands[..b]) + BandPuts(bands[b])
  {
    assert bands[..b + 1][..b] == bands[..b];
  }

  lemma AllPutsAll(bands: seq<seq<seq<Address>>>)
    ensures AllPuts(bands[..|bands|]) == AllPuts(bands)
  {
    assert bands[..|bands|] == bands;
  }

  /** The two calls of the inner loop's body: `Put(a, b)` and then `Put(b, a)`. */
  method PutBoth(c: Candidates, a: int, b: int, ghost done: seq<(int, int)>)
    requires c.index == AdjacencyIndex(done)
    modifies c
    ensures c.index == AdjacencyIndex(done + [(a, b), (b, a)])
  {
    c.Put(a, b);
    c.Put(b, a);
    AdjacencyIndexTwo(done, a, b);
  }

  /** The inner loop over `j`: set `i` against every later set of the bucket, in both orders. */
  method PutPosition(c: Candidates, bucket: seq<Address>, i: nat, ghost done: seq<(int, int)>)
    requires i < |bucket| && c.index == AdjacencyIndex(done)
    modifies c
    ensures c.index == AdjacencyIndex(done + PairPuts(SetNums(bucket), i, |bucket|))
  {
    ghost var ns := SetNums(bucket);
    ghost var puts := done;
    PairPutsNone(done, ns, i);
    for j := i + 1 to |bucket|
      invariant puts == done + PairPuts(ns, i, j) && c.index == AdjacencyIndex(puts)
    {
      var a, b := bucket[i].setNum, bucket[j].setNum;
      PutBoth(c, a, b, puts);
      PairPutsNext(done, ns, i, j);
      puts := puts + [(a, b), (b, a)];
    }
  }

  /** The loop over `i`: every set of the bucket against the sets after it. */
  method PutBucket(c: Candidates, bucket: seq<Address>, ghost done: seq<(int, int)>)
    requires c.index == AdjacencyIndex(done)
    modifies c
    ensures c.index == AdjacencyIndex(done + BucketPuts(SetNums(bucket)))
  {
    ghost var ns := SetNums(bucket);
    PositionPutsNone(done, ns);
    for i := 0 to |bucket|
      invariant c.index == AdjacencyIndex(done + PositionPuts(ns, i))
    {
      PutPosition(c, bucket, i, done + PositionPuts(ns, i));
      PositionPutsNext(done, ns, i);
    }
  }

  /** The loop over the buckets of one band; buckets of fewer than two sets are skipped. */
  method PutBand(c: Candidates, band: seq<seq<Address>>, ghost done: seq<(int, int)>)
    requires c.index == AdjacencyIndex(done)
    modifies c
    ensures c.index == AdjacencyIndex(done + BandPuts(band))
  {
    BandPutsNone(done, band);
    for k := 0 to |band|
      invariant c.index == AdjacencyIndex(done + BandPuts(band[..k]))
    {
      BandPutsNext(done, band, k);
      var bucket := band[k];
      if |bucket| < 2 {
        SmallBucketSkipped(done + BandPuts(band[..k]), bucket);
      } else {
        PutBucket(c, bucket, done + BandPuts(band[..k]));
      }
    }
    BandPutsAll(done, band);
  }

  /** The two calls of the inner loop's body: `Put(a, b)` and then `Put(b, a)`. */
  method PutBothPairs(c: CandidatePairs, a: int, b: int, ghost done: seq<(int, int)>)
    requires c.index == PairsIndex(done)
    modifies c
    ensures c.index == PairsIndex(done + [(a, b), (b, a)])
  {
    c.Put(a, b);
    c.Put(b, a);
    PairsIndexTwo(done, a, b);
  }

  /** The inner loop over `j`: set `i` against every later set of the bucket, in both orders. */
  method PutPositionPairs(c: CandidatePairs, bucket: seq<Address>, i: nat, ghost done: seq<(int, int)>)
    requires i < |bucket| && c.index == PairsIndex(done)
    modifies c
    ensures c.index == PairsIndex(done + PairPuts(SetNums(bucket), i, |bucket|))
  {
    ghost var ns := SetNums(bucket);
    ghost var puts := done;
    PairPutsNone(done, ns, i);
    for j := i + 1 to |bucket|
      invariant puts == done + PairPuts(ns, i, j) && c.index == PairsIndex(puts)
    {
      var a, b := bucket[i].setNum, bucket[j].setNum;
      PutBothPairs(c, a, b, puts);
      PairPutsNext(done, ns, i, j);
      puts := puts + [(a, b), (b, a)];
    }
  }

  /** The loop over `i`: every set of the bucket against the sets after it. */
  method PutBucketPairs(c: CandidatePairs, bucket: seq<Address>, ghost done: seq<(int, int)>)
    requires c.index == PairsIndex(done)
    modifies c
    ensures c.index == PairsIndex(done + BucketPuts(SetNums(bucket)))
  {
    ghost var ns := SetNums(bucket);
    PositionPutsNone(done, ns);
    for i := 0 to |bucket|
      invariant c.index == PairsIndex(done + PositionPuts(ns, i))
    {
      PutPositionPairs(c, bucket, i, done + PositionPuts(ns, i));
      PositionPutsNext(done, ns, i);
    }
  }

  /** The loop over the buckets of one band; buckets of fewer than two sets are skipped. */
  method PutBandPairs(c: CandidatePairs, band: seq<seq<Address>>, ghost done: seq<(int, int)>)
    requires c.index == PairsIndex(done)
    modifies c
    ensures c.index == PairsIndex(done + BandPuts(band))
  {
    BandPutsNone(done, band);
    for k := 0 to |band|
      invariant c.index == PairsIndex(done + BandPuts(band[..k]))
    {
      BandPutsNext(done, band, k);
      var bucket := band[k];
      if |bucket| < 2 {
        SmallBucketSkipped(done + BandPuts(band[..k]), bucket);
      } else {
        PutBucketPairs(c, bucket, done + BandPuts(band[..k]));
      }
    }
    BandPutsAll(done, band);
  }

  // ---------------------------------------------------------------------------------------
  // Counting what the walk puts: one election per bucket shared, in each order.

  /** The number of buckets of `band` that hold both `a` and `b`. */
  function SharedBand(band: seq<seq<Address>>, a: int, b: int): nat
  {
    if band == [] then 0
    else
      var last := SetNums(band[|band| - 1]);
      SharedBand(band[..|band| - 1], a, b) + (if a in last && b in last then 1 else 0)
  }

  /** The number of buckets, over all bands, that hold both `a` and `b`. */
  function SharedAll(bands: seq<seq<seq<Address>>>, a: int, b: int): nat
  {
    if bands == [] then 0
    else SharedAll(bands[..|bands| - 1], a, b) + SharedBand(bands[|bands| - 1], a, b)
  }

  /** No bucket holds a set number twice. */
  predicate BucketsDistinct(bands: seq<seq<seq<Address>>>)
  {
    forall b, k :: 0 <= b < |bands| && 0 <= k < |bands[b]| ==> NoDup(SetNums(bands[b][k]))
  }

  /** Within one band, two different sets are put once in each order for every bucket they share. */
  lemma {:induction false} BandPutsCount(band: seq<seq<Address>>, a: int, b: int)
    requires forall k :: 0 <= k < |band| ==> NoDup(SetNums(band[k]))
    requires a != b
    ensures CountPair(BandPuts(band), a, b) == SharedBand(band, a, b)
  {
    if band != [] {
      var n := |band| - 1;
      BandPutsCount(band[..n], a, b);
      CountPairAppend(BandPuts(band[..n]), BucketPuts(SetNums(band[n])), a, b);
      BucketPutsCount(SetNums(band[n]), a, b);
    }
  }

  /**
   * When no bucket repeats a set, the walk over all bands puts `(a, b)`, for different `a` and
   * `b`, exactly once for every bucket holding both.
   */
  lemma {:induction false} AllPutsCount(bands: seq<seq<seq<Address>>>, a: int, b: int)
    requires BucketsDistinct(bands) && a != b
    ensures CountPair(AllPuts(bands), a, b) == SharedAll(bands, a, b)
  {
    if bands != [] {
      var n := |bands| - 1;
      assert BucketsDistinct(bands[..n]) by {
        forall c, k | 0 <= c < n && 0 <= k < |bands[..n][c]| ensures NoDup(SetNums(bands[..n][c][k])) {
          assert bands[..n][c] == bands[c];
        }
      }
      AllPutsCount(bands[..n], a, b);
      CountPairAppend(AllPuts(bands[..n]), BandPuts(bands[n]), a, b);
      BandPutsCount(bands[n], a, b);
    }
  }

  /** A set is never paired with itself when no bucket repeats it. */
  lemma {:induction false} AllPutsNoSelf(bands: seq<seq<seq<Address>>>, a: int)
    requires BucketsDistinct(bands)
    ensures CountPair(AllPuts(bands), a, a) == 0
  {
    if bands != [] {
      var n := |bands| - 1;
      assert BucketsDistinct(bands[..n]) by {
        forall c, k | 0 <= c < n && 0 <= k < |bands[..n][c]| ensures NoDup(SetNums(bands[..n][c][k])) {
          assert bands[..n][c] == bands[c];
        }
      }
      AllPutsNoSelf(bands[..n], a);
      CountPairAppend(AllPuts(bands[..n]), BandPuts(bands[n]), a, a);
      BandPutsNoSelf(bands[n], a);
    }
  }

  lemma {:induction false} BandPutsNoSelf(band: seq<seq<Address>>, a: int)
    requires forall k :: 0 <= k < |band| ==> NoDup(SetNums(band[k]))
    ensures CountPair(BandPuts(band), a, a) == 0
  {
    if band != [] {
      var n := |band| - 1;
      BandPutsNoSelf(band[..n], a);
      CountPairAppend(BandPuts(band[..n]), BucketPuts(SetNums(band[n])), a, a);
      PositionPutsNoSelf(SetNums(band[n]), |band[n]|, a);
    }
  }

  /** Every pair is put as often in one order as in the other, whatever the buckets hold. */
  lemma {:induction false} AllPutsMirrored(bands: seq<seq<seq<Address>>>, a: int, b: int)
    ensures CountPair(AllPuts(bands), a, b) == CountPair(AllPuts(bands), b, a)
  {
    if bands != [] {
      var n := |bands| - 1;
      AllPutsMirrored(bands[..n], a, b);
      CountPairAppend(AllPuts(bands[..n]), BandPuts(bands[n]), a, b);
      CountPairAppend(AllPuts(bands[..n]), BandPuts(bands[n]), b, a);
      BandPutsMirrored(bands[n], a, b);
    }
  }

  lemma {:induction false} BandPutsMirrored(band: seq<seq<Address>>, a: int, b: int)
    ensures CountPair(BandPuts(band), a, b) == CountPair(BandPuts(band), b, a)
  {
    if band != [] {
      var n := |band| - 1;
      BandPutsMirrored(band[..n], a, b);
      CountPairAppend(BandPuts(band[..n]), BucketPuts(SetNums(band[n])), a, b);
      CountPairAppend(BandPuts(band[..n]), BucketPuts(SetNums(band[n])), b, a);
      PositionPutsMirrored(SetNums(band[n]), |band[n]|, a, b);
    }
  }

  // ---------------------------------------------------------------------------------------
  // LSH: cutting the signature matrix into bands.

  /**
   * What `LSH` demands of its caller: a row to read `numSets` from (`signatureMatrix[0]`),
   * at least one band (it divides by `bands` and makes `bands` bands), and, in every row a band
   * reads, a cell for every set.
   */
  predicate Input(sig: Signature, bands: int)
  {
    |sig| >= 1 && bands >= 1 &&
    forall h :: 0 <= h < bands * Rows(sig, bands) ==> |sig[h]| >= |sig[0]|
  }

  /** `numRows`: the rows in one band. Together the bands never reach past the last row. */
  function Rows(sig: Signature, bands: int): (rows: nat)
    requires bands >= 1
    ensures bands * rows <= |sig|
  {
    |sig| / bands
  }

  /** `bandOffset` of band `b`; the band's rows end at `bandEnd`, no later than all bands' rows do. */
  function Offset(sig: Signature, bands: int, b: int): (offset: int)
    requires 0 <= b < bands
    ensures 0 <= offset && offset + Rows(sig, bands) == (b + 1) * Rows(sig, bands)
    ensures (b + 1) * Rows(sig, bands) <= bands * Rows(sig, bands)
  {
    BandRows(b, bands, Rows(sig, bands));
    b * Rows(sig, bands)
  }

  lemma BandRows(b: int, bands: int, rows: int)
    requires 0 <= b < bands && rows >= 0
    ensures 0 <= b * rows && b * rows + rows == (b + 1) * rows && (b + 1) * rows <= bands * rows
  {
    assert bands * rows == (b + 1) * rows + (bands - b - 1) * rows;
  }

  /** Column `s` of rows `lo .. hi - 1`. */
  function Column(sig: Signature, lo: int, hi: int, s: int): (v: seq<Option<int>>)
    requires 0 <= lo <= hi <= |sig| && 0 <= s
    requires forall h :: lo <= h < hi ==> s < |sig[h]|
    ensures |v| == hi - lo && forall r :: 0 <= r < hi - lo ==> v[r] == sig[lo + r][s]
  {
    seq(hi - lo, r requires 0 <= r < hi - lo => sig[lo + r][s])
  }

  lemma ColumnSnoc(sig: Signature, lo: int, hi: int, s: int)
    requires 0 <= lo <= hi < |sig| && 0 <= s
    requires forall h :: lo <= h <= hi ==> s < |sig[h]|
    ensures Column(sig, lo, hi + 1, s) == Column(sig, lo, hi, s) + [sig[hi][s]]
  {
  }

  /**
   * The vector of set `s` in band `b`: its cells in the band's rows `b * R .. (b + 1) * R - 1`,
   * with `R = numHashes / bands`, read under the loop's guard `bandEnd <= numHashes`, which
   * always holds.
   */
  function BandVector(sig: Signature, bands: int, b: int, s: int): (v: seq<Option<int>>)
    requires Input(sig, bands) && 0 <= b < bands && 0 <= s < |sig[0]|
    ensures |v| == Rows(sig, bands)
    ensures forall r :: 0 <= r < |v| ==> v[r] == sig[Offset(sig, bands, b) + r][s]
  {
    var numRows := Rows(sig, bands);
    var bandOffset, bandEnd := Offset(sig, bands, b), (b + 1) * numRows;
    if bandEnd <= |sig| then Column(sig, bandOffset, bandEnd, s) else []
  }

  /** The bucket set `s` hashes to in band `b`; there are `numHashes` buckets. */
  function BucketOfSet(sig: Signature, bands: int, nanValue: int, b: int, s: int): (k: int)
    requires Input(sig, bands) && 0 <= b < bands && 0 <= s < |sig[0]|
    ensures 0 <= k < |sig|
  {
    BucketOf(VectorHash(BandVector(sig, bands, b, s), nanValue), |sig|)
  }

  /**
   * The bucket every set hashes to in every band: `table[b][s]` for band `b` and set `s`.
   * The layout below is stated for any such table of buckets below `numBuckets`.
   */
  function BucketTable(sig: Signature, bands: int, nanValue: int): (table: seq<seq<int>>)
    requires Input(sig, bands)
    ensures |table| == bands && Table(table, |sig[0]|, |sig|)
    ensures forall b, s :: 0 <= b < bands && 0 <= s < |sig[0]| ==> table[b][s] == BucketOfSet(sig, bands, nanValue, b, s)
  {
    seq(bands, b requires 0 <= b < bands => seq(|sig[0]|, s requires 0 <= s < |sig[0]| => BucketOfSet(sig, bands, nanValue, b, s)))
  }

  /** Every band assigns each of `numSets` sets a bucket below `numBuckets`. */
  predicate Table(table: seq<seq<int>>, numSets: nat, numBuckets: nat)
  {
    forall b :: 0 <= b < |table| ==> |table[b]| == numSets && forall s :: 0 <= s < numSets ==> 0 <= table[b][s] < numBuckets
  }

  /** Bucket `k` of band `b` once the first `n` sets are hashed: their addresses, in set order. */
  function Placed(table: seq<seq<int>>, b: int, n: int, k: int): seq<Address>
    requires 0 <= b < |table| && 0 <= n <= |table[b]|
  {
    if n == 0 then []
    else Placed(table, b, n - 1, k) + (if table[b][n - 1] == k then [Address(b, n - 1)] else [])
  }

  /** Band `b` once the first `n` sets are hashed. */
  function BandLayout(table: seq<seq<int>>, numBuckets: nat, b: int, n: int): (band: seq<seq<Address>>)
    requires 0 <= b < |table| && 0 <= n <= |table[b]|
    ensures |band| == numBuckets
  {
    seq(numBuckets, k requires 0 <= k < numBuckets => Placed(table, b, n, k))
  }

  /** The first `done` bands hashed, the others still empty. */
  function Partial(table: seq<seq<int>>, numSets: nat, numBuckets: nat, done: int): (r: seq<seq<seq<Address>>>)
    requires Table(table, numSets, numBuckets) && 0 <= done <= |table|
    ensures |r| == |table|
  {
    seq(|table|, b requires 0 <= b < |table| => if b < done then BandLayout(table, numBuckets, b, numSets) else EmptyBuckets(numBuckets))
  }

  /** Every band with every set hashed. */
  function Layout(table: seq<seq<int>>, numSets: nat, numBuckets: nat): (r: seq<seq<seq<Address>>>)
    requires Table(table, numSets, numBuckets)
    ensures |r| == |table|
  {
    Partial(table, numSets, numBuckets, |table|)
  }

  lemma PartialStart(table: seq<seq<int>>, numSets: nat, numBuckets: nat, start: seq<seq<seq<Address>>>)
    requires Table(table, numSets, numBuckets)
    requires |start| == |table| && forall b :: 0 <= b < |table| ==> start[b] == EmptyBuckets(numBuckets)
    ensures start == Partial(table, numSets, numBuckets, 0)
  {
  }

  lemma PartialStep(table: seq<seq<int>>, numSets: nat, numBuckets: nat, b: int)
    requires Table(table, numSets, numBuckets) && 0 <= b < |table|
    ensures Partial(table, numSets, numBuckets, b)[b := BandLayout(table, numBuckets, b, numSets)] == Partial(table, numSets, numBuckets, b + 1)
  {
  }

  lemma BandLayoutStart(table: seq<seq<int>>, numBuckets: nat, b: int)
    requires 0 <= b < |table|
    ensures BandLayout(table, numBuckets, b, 0) == EmptyBuckets(numBuckets)
  {
  }

  /** Hashing set `n` appends its address to its own bucket and to no other. */
  lemma BandLayoutStep(table: seq<seq<int>>, numBuckets: nat, b: int, n: int)
    requires 0 <= b < |table| && 0 <= n < |table[b]| && 0 <= table[b][n] < numBuckets
    ensures var k, band := table[b][n], BandLayout(table, numBuckets, b, n);
      band[k := band[k] + [Address(b, n)]] == BandLayout(table, numBuckets, b, n + 1)
  {
    var k, band := table[b][n], BandLayout(table, numBuckets, b, n);
    var band' := BandLayout(table, numBuckets, b, n + 1);
    forall j | 0 <= j < numBuckets ensures band[k := band[k] + [Address(b, n)]][j] == band'[j] {
      assert band'[j] == Placed(table, b, n, j) + (if k == j then [Address(b, n)] else []);
    }
  }

  /** The band vectors of band `b` (the first loop of the band): one per set, filled row by row. */
  method BandVectors(sig: Signature, bands: int, b: int) returns (bandVectors: array<seq<Option<int>>>)
    requires Input(sig, bands) && 0 <= b < bands
    ensures fresh(bandVectors) && bandVectors.Length == |sig[0]|
    ensures forall s :: 0 <= s < bandVectors.Length ==> bandVectors[s] == BandVector(sig, bands, b, s)
  {
    var numHashes, numSets := |sig|, |sig[0]|;
    var numRows := numHashes / bands;
    bandVectors := new seq<Option<int>>[numSets](_ => []);
    var bandOffset := b * numRows;
    var bandEnd := (b + 1) * numRows;
    assert bandOffset == Offset(sig, bands, b);
    var h := bandOffset;
    while bandEnd <= numHashes && h < bandEnd
      invariant bandOffset <= h <= bandEnd
      invariant forall t :: 0 <= t < numSets ==> bandVectors[t] == Column(sig, bandOffset, h, t)
    {
      AppendRow(bandVectors, sig, bands, bandOffset, h);
      h := h + 1;
    }
  }

  /** The inner loop over the sets: row `h` extends every set's vector by one cell. */
  method AppendRow(bandVectors: array<seq<Option<int>>>, sig: Signature, bands: int, lo: int, h: int)
    requires Input(sig, bands) && 0 <= lo <= h < bands * Rows(sig, bands)
    requires bandVectors.Length == |sig[0]|
    requires forall t :: 0 <= t < bandVectors.Length ==> bandVectors[t] == Column(sig, lo, h, t)
    modifies bandVectors
    ensures forall t :: 0 <= t < bandVectors.Length ==> bandVectors[t] == Column(sig, lo, h + 1, t)
  {
    for s := 0 to bandVectors.Length
      invariant forall t :: 0 <= t < s ==> bandVectors[t] == Column(sig, lo, h + 1, t)
      invariant forall t :: s <= t < bandVectors.Length ==> bandVectors[t] == Column(sig, lo, h, t)
    {
      ColumnSnoc(sig, lo, h, s);
      bandVectors[s] := bandVectors[s] + [sig[h][s]];
    }
  }

  /** The second loop of the band: every set's vector hashed into band `b`, in set order. */
  method HashBand(bb: BandBuckets, sig: Signature, bands: int, nanValue: int, b: int, bandVectors: array<seq<Option<int>>>)
    requires Input(sig, bands) && 0 <= b < bands
    requires |bb.bands| == bands && bb.bands[b] == EmptyBuckets(|sig|)
    requires bandVectors.Length == |sig[0]|
    requires forall s :: 0 <= s < bandVectors.Length ==> bandVectors[s] == BandVector(sig, bands, b, s)
    modifies bb
    ensures bb.bands == old(bb.bands)[b := BandLayout(BucketTable(sig, bands, nanValue), |sig|, b, |sig[0]|)]
  {
    ghost var table := BucketTable(sig, bands, nanValue);
    ghost var start := bb.bands;
    BandLayoutStart(table, |sig|, b);
    for i := 0 to bandVectors.Length
      invariant bb.bands == start[b := BandLayout(table, |sig|, b, i)]
    {
      var _, bucketNum := bb.HashToBucket(bandVectors[i], b, i, nanValue);
      HashStep(sig, bands, nanValue, b, i, bandVectors[i], bucketNum);
    }
  }

  /** The bucket `hashToBucket` picks for set `i` is the table's, and appending there gives the next band. */
  lemma HashStep(sig: Signature, bands: int, nanValue: int, b: int, i: int, vector: seq<Option<int>>, bucketNum: int)
    requires Input(sig, bands) && 0 <= b < bands && 0 <= i < |sig[0]|
    requires vector == BandVector(sig, bands, b, i) && bucketNum == BucketOf(VectorHash(vector, nanValue), |sig|)
    ensures var table := BucketTable(sig, bands, nanValue);
      var band := BandLayout(table, |sig|, b, i);
      bucketNum == table[b][i] && band[bucketNum := band[bucketNum] + [Address(b, i)]] == BandLayout(table, |sig|, b, i + 1)
  {
    BandLayoutStep(BucketTable(sig, bands, nanValue), |sig|, b, i);
  }

  /**
   * `LSH`: `bands` bands of `numHashes` buckets each, in which band `b` holds every set at the
   * bucket its band vector hashes to (see `BucketTable`, `Layout` and the lemmas below).
   */
  method LSH(sig: Signature, bands: int, nanValue: int) returns (bb: BandBuckets)
    requires Input(sig, bands)
    ensures fresh(bb) && bb.bands == Layout(BucketTable(sig, bands, nanValue), |sig[0]|, |sig|)
  {
    var numHashes := |sig|;
    var numBuckets := numHashes;
    ghost var table := BucketTable(sig, bands, nanValue);
    bb := new BandBuckets(bands, numBuckets);
    PartialStart(table, |sig[0]|, numBuckets, bb.bands);
    for b := 0 to bands
      invariant fresh(bb) && bb.bands == Partial(table, |sig[0]|, numBuckets, b)
    {
      var bandVectors := BandVectors(sig, bands, b);
      HashBand(bb, sig, bands, nanValue, b, bandVectors);
      PartialStep(table, |sig[0]|, numBuckets, b);
    }
  }

  // ---------------------------------------------------------------------------------------
  // What the layout means for the candidates.

  lemma SetNumsSnoc(xs: seq<Address>, a: Address)
    ensures SetNums(xs + [a]) == SetNums(xs) + [a.setNum]
  {
  }

  /** Strictly increasing numbers, all in `0 .. n - 1`. */
  predicate Ascending(ns: seq<int>, n: int)
  {
    (forall i :: 0 <= i < |ns| ==> 0 <= ns[i] < n) && (forall i, j :: 0 <= i < j < |ns| ==> ns[i] < ns[j])
  }

  /** A bucket holds sets among the first `n`, in increasing order, each with the band's number. */
  lemma {:induction false} PlacedSorted(table: seq<seq<int>>, b: int, n: int, k: int)
    requires 0 <= b < |table| && 0 <= n <= |table[b]|
    ensures Ascending(SetNums(Placed(table, b, n, k)), n)
    ensures forall a :: a in Placed(table, b, n, k) ==> a.bandNum == b
  {
    if n > 0 {
      var before := Placed(table, b, n - 1, k);
      PlacedSorted(table, b, n - 1, k);
      var ns := SetNums(before);
      if table[b][n - 1] == k {
        assert Placed(table, b, n, k) == before + [Address(b, n - 1)];
        SetNumsSnoc(before, Address(b, n - 1));
        assert Ascending(ns + [n - 1], n);
      } else {
        assert Placed(table, b, n, k) == before;
        assert Ascending(ns, n);
      }
    }
  }

  /** Set `s` is in bucket `k` of band `b` exactly when it is among the first `n` and hashes there. */
  lemma {:induction false} PlacedHas(table: seq<seq<int>>, b: int, n: int, k: int, s: int)
    requires 0 <= b < |table| && 0 <= n <= |table[b]|
    ensures s in SetNums(Placed(table, b, n, k)) <==> 0 <= s < n && table[b][s] == k
  {
    if n > 0 {
      PlacedHas(table, b, n - 1, k, s);
      if table[b][n - 1] == k {
        SetNumsSnoc(Placed(table, b, n - 1, k), Address(b, n - 1));
      } else {
        assert Placed(table, b, n, k) == Placed(table, b, n - 1, k);
      }
    }
  }

  /**
   * Every band of the layout has `numBuckets` buckets; each set lands in exactly one of them,
   * the one the table names, and every address there carries the band's number.
   */
  lemma LayoutPlacement(table: seq<seq<int>>, numSets: nat, numBuckets: nat, b: int, k: int, s: int)
    requires Table(table, numSets, numBuckets) && 0 <= b < |table| && 0 <= k < numBuckets
    ensures |Layout(table, numSets, numBuckets)[b]| == numBuckets
    ensures s in SetNums(Layout(table, numSets, numBuckets)[b][k]) <==> 0 <= s < numSets && table[b][s] == k
    ensures forall a :: a in Layout(table, numSets, numBuckets)[b][k] ==> a.bandNum == b
  {
    PlacedHas(table, b, numSets, k, s);
    PlacedSorted(table, b, numSets, k);
  }

  /** No bucket of the layout holds a set twice. */
  lemma LayoutDistinct(table: seq<seq<int>>, numSets: nat, numBuckets: nat)
    requires Table(table, numSets, numBuckets)
    ensures BucketsDistinct(Layout(table, numSets, numBuckets))
  {
    var layout := Layout(table, numSets, numBuckets);
    forall b, k | 0 <= b < |layout| && 0 <= k < |layout[b]| ensures NoDup(SetNums(layout[b][k])) {
      assert layout[b][k] == Placed(table, b, numSets, k);
      PlacedSorted(table, b, numSets, k);
    }
  }

  /** Within a layout band, two sets share a bucket once if they hash alike, and never otherwise. */
  lemma {:induction false} BandShared(table: seq<seq<int>>, numSets: nat, numBuckets: nat, b: int, n: int, x: int, y: int)
    requires Table(table, numSets, numBuckets) && 0 <= b < |table| && 0 <= n <= numBuckets
    requires 0 <= x < numSets && 0 <= y < numSets
    ensures SharedBand(BandLayout(table, numBuckets, b, numSets)[..n], x, y) ==
      if table[b][x] == table[b][y] && table[b][x] < n then 1 else 0
  {
    if n > 0 {
      var band := BandLayout(table, numBuckets, b, numSets);
      BandShared(table, numSets, numBuckets, b, n - 1, x, y);
      assert band[..n][..n - 1] == band[..n - 1];
      PlacedHas(table, b, numSets, n - 1, x);
      PlacedHas(table, b, numSets, n - 1, y);
    }
  }

  /** A band in which no bucket holds both sets shares no bucket between them. */
  lemma {:induction false} BandNotShared(band: seq<seq<Address>>, x: int, y: int)
    requires forall k :: 0 <= k < |band| ==> !(x in SetNums(band[k]) && y in SetNums(band[k]))
    ensures SharedBand(band, x, y) == 0
  {
    if band != [] {
      BandNotShared(band[..|band| - 1], x, y);
    }
  }

  /** The number of the first `nb` bands in which sets `x` and `y` hash to the same bucket. */
  function Agreements(table: seq<seq<int>>, numSets: nat, numBuckets: nat, x: int, y: int, nb: int): (r: nat)
    requires Table(table, numSets, numBuckets) && 0 <= x < numSets && 0 <= y < numSets && 0 <= nb <= |table|
    ensures r <= nb
  {
    if nb == 0 then 0
    else Agreements(table, numSets, numBuckets, x, y, nb - 1) + (if table[nb - 1][x] == table[nb - 1][y] then 1 else 0)
  }

  lemma {:induction false} AgreementsSymmetric(table: seq<seq<int>>, numSets: nat, numBuckets: nat, x: int, y: int, nb: int)
    requires Table(table, numSets, numBuckets) && 0 <= x < numSets && 0 <= y < numSets && 0 <= nb <= |table|
    ensures Agreements(table, numSets, numBuckets, x, y, nb) == Agreements(table, numSets, numBuckets, y, x, nb)
  {
    if nb > 0 {
      AgreementsSymmetric(table, numSets, numBuckets, x, y, nb - 1);
    }
  }

  /** The last of the first `nb` bands adds its shared buckets to those before it. */
  lemma SharedAllStep(bands: seq<seq<seq<Address>>>, nb: int, x: int, y: int)
    requires 0 < nb <= |bands|
    ensures SharedAll(bands[..nb], x, y) == SharedAll(bands[..nb - 1], x, y) + SharedBand(bands[nb - 1], x, y)
  {
    assert bands[..nb][..nb - 1] == bands[..nb - 1];
  }

  /** Band `b` of the layout is the band with every set hashed. */
  lemma LayoutBand(table: seq<seq<int>>, numSets: nat, numBuckets: nat, b: int)
    requires Table(table, numSets, numBuckets) && 0 <= b < |table|
    ensures Layout(table, numSets, numBuckets)[b] == BandLayout(table, numBuckets, b, numSets)
  {
  }

  /** In one layout band, two sets share one bucket if they hash alike and none otherwise. */
  lemma BandSharedOnce(table: seq<seq<int>>, numSets: nat, numBuckets: nat, b: int, x: int, y: int)
    requires Table(table, numSets, numBuckets) && 0 <= b < |table|
    requires 0 <= x < numSets && 0 <= y < numSets
    ensures SharedBand(BandLayout(table, numBuckets, b, numSets), x, y) == if table[b][x] == table[b][y] then 1 else 0
  {
    var band := BandLayout(table, numBuckets, b, numSets);
    BandShared(table, numSets, numBuckets, b, numBuckets, x, y);
    assert band[..numBuckets] == band;
  }

  /** Bands that each share one bucket between two sets exactly where the table agrees share `Agreements` in all. */
  lemma {:induction false} SharedAgreements(bands: seq<seq<seq<Address>>>, table: seq<seq<int>>, numSets: nat, numBuckets: nat, x: int, y: int, nb: int)
    requires Table(table, numSets, numBuckets) && 0 <= x < numSets && 0 <= y < numSets && 0 <= nb <= |table| == |bands|
    requires forall b :: 0 <= b < |bands| ==> SharedBand(bands[b], x, y) == if table[b][x] == table[b][y] then 1 else 0
    ensures SharedAll(bands[..nb], x, y) == Agreements(table, numSets, numBuckets, x, y, nb)
  {
    if nb > 0 {
      SharedAgreements(bands, table, numSets, numBuckets, x, y, nb - 1);
      SharedAllStep(bands, nb, x, y);
    }
  }

  /** Over the bands of the layout, two sets share as many buckets as they have agreements. */
  lemma LayoutShared(table: seq<seq<int>>, numSets: nat, numBuckets: nat, x: int, y: int)
    requires Table(table, numSets, numBuckets) && 0 <= x < numSets && 0 <= y < numSets
    ensures SharedAll(Layout(table, numSets, numBuckets), x, y) == Agreements(table, numSets, numBuckets, x, y, |table|)
  {
    var layout := Layout(table, numSets, numBuckets);
    forall b | 0 <= b < |layout| ensures SharedBand(layout[b], x, y) == if table[b][x] == table[b][y] then 1 else 0 {
      LayoutBand(table, numSets, numBuckets, b);
      BandSharedOnce(table, numSets, numBuckets, b, x, y);
    }
    SharedAgreements(layout, table, numSets, numBuckets, x, y, |table|);
    assert layout[..|table|] == layout;
  }

  /** A set outside the table shares no bucket of the layout with anything. */
  lemma {:induction false} LayoutNotShared(table: seq<seq<int>>, numSets: nat, numBuckets: nat, x: int, y: int, nb: int)
    requires Table(table, numSets, numBuckets) && 0 <= nb <= |table|
    requires !(0 <= x < numSets && 0 <= y < numSets)
    ensures SharedAll(Layout(table, numSets, numBuckets)[..nb], x, y) == 0
  {
    if nb > 0 {
      var layout := Layout(table, numSets, numBuckets);
      LayoutNotShared(table, numSets, numBuckets, x, y, nb - 1);
      assert layout[..nb][..nb - 1] == layout[..nb - 1];
      var band := layout[nb - 1];
      forall k | 0 <= k < |band| ensures !(x in SetNums(band[k]) && y in SetNums(band[k])) {
        LayoutPlacement(table, numSets, numBuckets, nb - 1, k, x);
        LayoutPlacement(table, numSets, numBuckets, nb - 1, k, y);
      }
      BandNotShared(band, x, y);
    }
  }

  /**
   * The puts of the walk over a layout: `(x, y)` is put once for every band in which two
   * different sets hash to the same bucket, and never otherwise.
   */
  lemma LayoutPuts(table: seq<seq<int>>, numSets: nat, numBuckets: nat, x: int, y: int)
    requires Table(table, numSets, numBuckets)
    ensures CountPair(AllPuts(Layout(table, numSets, numBuckets)), x, y) ==
      if x != y && 0 <= x < numSets && 0 <= y < numSets then Agreements(table, numSets, numBuckets, x, y, |table|) else 0
  {
    var layout := Layout(table, numSets, numBuckets);
    LayoutDistinct(table, numSets, numBuckets);
    assert layout[..|table|] == layout;
    if x == y {
      AllPutsNoSelf(layout, x);
    } else {
      AllPutsCount(layout, x, y);
      if 0 <= x < numSets && 0 <= y < numSets {
        LayoutShared(table, numSets, numBuckets, x, y);
      } else {
        LayoutNotShared(table, numSets, numBuckets, x, y, |table|);
      }
    }
  }

  /**
   * `FindCandidates` after `LSH`: `y` is a candidate of `x` exactly when they are different sets
   * that share a bucket in some band, with one election per such band; the adjacency is
   * symmetric, elections included.
   */
  lemma CandidatesOfLayout(table: seq<seq<int>>, numSets: nat, numBuckets: nat, index: map<int, map<int, Candidate>>, x: int, y: int)
    requires Table(table, numSets, numBuckets) && AdjacencyCount(index, AllPuts(Layout(table, numSets, numBuckets)))
    ensures (x in index && y in index[x]) <==>
      (x != y && 0 <= x < numSets && 0 <= y < numSets && Agreements(table, numSets, numBuckets, x, y, |table|) > 0)
    ensures x in index && y in index[x] ==>
      index[x][y] == Candidate(y, Agreements(table, numSets, numBuckets, x, y, |table|)) &&
      y in index && x in index[y] && index[y][x].elections == index[x][y].elections
  {
    LayoutPuts(table, numSets, numBuckets, x, y);
    LayoutPuts(table, numSets, numBuckets, y, x);
    AllPutsMirrored(Layout(table, numSets, numBuckets), x, y);
  }

  /**
   * `FindCandidatePairs` after `LSH`: the key `x_y` (smaller number first) is present exactly
   * when the two sets share a bucket in some band, with two elections per such band, because
   * the pair is put in both orders; a set is never paired with itself.
   */
  lemma PairsOfLayout(table: seq<seq<int>>, numSets: nat, numBuckets: nat, index: map<PairKey, CandidatePair>, x: int, y: int)
    requires Table(table, numSets, numBuckets) && PairsCount(index, AllPuts(Layout(table, numSets, numBuckets))) && x < y
    ensures PairKey(x, y) in index <==> 0 <= x && y < numSets && Agreements(table, numSets, numBuckets, x, y, |table|) > 0
    ensures PairKey(x, y) in index ==> index[PairKey(x, y)].elections == 2 * Agreements(table, numSets, numBuckets, x, y, |table|)
    ensures PairKey(x, x) !in index
  {
    var puts := AllPuts(Layout(table, numSets, numBuckets));
    KeyCount(puts, x, y);
    KeyCountSame(puts, x);
    LayoutPuts(table, numSets, numBuckets, x, y);
    LayoutPuts(table, numSets, numBuckets, y, x);
    LayoutPuts(table, numSets, numBuckets, x, x);
    if 0 <= x && y < numSets {
      AgreementsSymmetric(table, numSets, numBuckets, x, y, |table|);
    }
  }

  /** Two sets that share a bucket in every band agree in every band. */
  lemma {:induction false} AgreeEverywhere(table: seq<seq<int>>, numSets: nat, numBuckets: nat, x: int, y: int, nb: int)
    requires Table(table, numSets, numBuckets) && 0 <= x < numSets && 0 <= y < numSets && 0 <= nb <= |table|
    requires forall b :: 0 <= b < |table| ==> table[b][x] == table[b][y]
    ensures Agreements(table, numSets, numBuckets, x, y, nb) == nb
  {
    if nb > 0 {
      AgreeEverywhere(table, numSets, numBuckets, x, y, nb - 1);
    }
  }

  /**
   * Two sets with identical signature columns (on the rows the bands read) hash to the same
   * bucket in every band, so they are each other's candidates with one election per band.
   */
  lemma IdenticalColumnsAgree(sig: Signature, bands: int, nanValue: int, x: int, y: int)
    requires Input(sig, bands) && 0 <= x < |sig[0]| && 0 <= y < |sig[0]|
    requires forall h :: 0 <= h < bands * Rows(sig, bands) ==> sig[h][x] == sig[h][y]
    ensures Agreements(BucketTable(sig, bands, nanValue), |sig[0]|, |sig|, x, y, bands) == bands
  {
    var table := BucketTable(sig, bands, nanValue);
    forall b | 0 <= b < |table| ensures table[b][x] == table[b][y] {
      SameBandVector(sig, bands, b, x, y);
      SameBucket(sig, bands, nanValue, b, x, y);
    }
    AgreeEverywhere(table, |sig[0]|, |sig|, x, y, bands);
  }

  lemma SameBandVector(sig: Signature, bands: int, b: int, x: int, y: int)
    requires Input(sig, bands) && 0 <= x < |sig[0]| && 0 <= y < |sig[0]| && 0 <= b < bands
    requires forall h :: 0 <= h < bands * Rows(sig, bands) ==> sig[h][x] == sig[h][y]
    ensures BandVector(sig, bands, b, x) == BandVector(sig, bands, b, y)
  {
    var vx, vy := BandVector(sig, bands, b, x), BandVector(sig, bands, b, y);
    forall r | 0 <= r < |vx| ensures vx[r] == vy[r] {
      assert Offset(sig, bands, b) + r < bands * Rows(sig, bands);
    }
  }

  /** Sets with the same band vector hash to the same bucket of that band. */
  lemma SameBucket(sig: Signature, bands: int, nanValue: int, b: int, x: int, y: int)
    requires Input(sig, bands) && 0 <= x < |sig[0]| && 0 <= y < |sig[0]| && 0 <= b < bands
    requires BandVector(sig, bands, b, x) == BandVector(sig, bands, b, y)
    ensures BucketTable(sig, bands, nanValue)[b][x] == BucketTable(sig, bands, nanValue)[b][y]
  {
  }

  /**
   * Documents with identical signature columns end up as each other's candidates, with one
   * election per band, in the store `FindCandidates` builds from the buckets of `LSH`.
   */
  lemma IdenticalCandidates(sig: Signature, bands: int, nanValue: int, index: map<int, map<int, Candidate>>, x: int, y: int)
    requires Input(sig, bands) && 0 <= x < |sig[0]| && 0 <= y < |sig[0]| && x != y
    requires forall h :: 0 <= h < bands * Rows(sig, bands) ==> sig[h][x] == sig[h][y]
    requires AdjacencyCount(index, AllPuts(Layout(BucketTable(sig, bands, nanValue), |sig[0]|, |sig|)))
    ensures x in index && y in index[x] && index[x][y] == Candidate(y, bands)
    ensures y in index && x in index[y] && index[y][x] == Candidate(x, bands)
  {
    var table := BucketTable(sig, bands, nanValue);
    IdenticalColumnsAgree(sig, bands, nanValue, x, y);
    IdenticalColumnsAgree(sig, bands, nanValue, y, x);
    CandidatesOfLayout(table, |sig[0]|, |sig|, index, x, y);
    CandidatesOfLayout(table, |sig[0]|, |sig|, index, y, x);
  }
}
