/**
 * The two tests of lsh_test.go whose documents are raw sentences, each taken as a single
 * shingle: three documents, the first and the last the same sentence, signed by five generated
 * hashers and hashed in one band. Whatever the two sentences and whatever the random draws,
 * the first and the last document are each other's only candidate, with one election, and the
 * middle one has no candidate at all.
 */
module LshExamples {
  import opened Common
  import opened Hash
  import opened Matrices
  import opened Ordering
  import opened MinHash
  import opened Stores
  import opened Lsh

  /** The shingle sets of the tests: sentence `s`, sentence `t`, and `s` again. */
  function EqualDocuments(s: string, t: string): (docs: seq<seq<string>>)
    ensures |docs| == 3 && docs[0] == docs[2] == [s] && docs[1] == [t]
  {
    [[s], [t], [s]]
  }

  /** Two different sentences are the two shingles of the documents, in one order or the other. */
  lemma TwoKeys(s: string, t: string)
    requires s != t
    ensures AllShingles(EqualDocuments(s, t)) == {s, t} && |AllShingles(EqualDocuments(s, t))| == 2
    ensures var keys := SortedKeys(AllShingles(EqualDocuments(s, t)));
      |keys| == 2 && keys[0] != keys[1] && {keys[0], keys[1]} == {s, t}
  {
    var docs := EqualDocuments(s, t);
    var all := AllShingles(docs);
    assert s in docs[0] && t in docs[1];
    forall sh | sh in all ensures sh in {s, t} {
      var c :| 0 <= c < |docs| && sh in docs[c];
    }
    assert all == {s, t};
    var keys := SortedKeys(all);
    SortedKeysProperties(all);
    LexLessIrreflexive(keys[0]);
    assert Elems(keys) == {keys[0], keys[1]};
  }

  /** Over two keys, the column of a one-sentence document marks the key that is its sentence. */
  lemma SingleColumn(keys: seq<string>, u: string)
    requires |keys| == 2
    ensures Occurs(keys, [u]) == [keys[0] == u, keys[1] == u]
  {
    OccursAt(keys, [u], 0);
    OccursAt(keys, [u], 1);
  }

  /** A column marking row `p` alone has the hash of row `p` as its minimum. */
  lemma OneRowMinimum(h: Hasher, p: int)
    requires 0 <= p < 2
    ensures MinOver(h, [p == 0, p == 1], 2) == Some(Eval(h, p, 2))
  {
    var col := [p == 0, p == 1];
    assert col[..1] == [p == 0] && col[..1][..0] == [];
    assert MinOver(h, col[..1][..0], 2) == None;
    if p == 0 {
      assert MinOver(h, col[..1], 2) == Some(Eval(h, 0, 2));
    } else {
      assert MinOver(h, col[..1], 2) == None;
    }
  }

  /** The hashes of row 1 under the first five generated hashers, with two buckets. */
  const RowOneHashes: seq<int> := [1, 1, 0, 0, 1]

  /**
   * The first five generated hashers with two buckets (two shingles): row 0 always hashes to
   * 0, and row 1 to 1, 1, 0, 0, 1, whichever sign the random draw gives slot 4.
   */
  lemma TwoRowHashes(randZero: nat -> bool)
    ensures forall i :: 0 <= i < 5 ==> Eval(SlotHasher(i, randZero), 0, 2) == 0
    ensures forall i :: 0 <= i < 5 ==> Eval(SlotHasher(i, randZero), 1, 2) == RowOneHashes[i]
  {
    forall i | 0 <= i < 5
      ensures Eval(SlotHasher(i, randZero), 0, 2) == 0 && Eval(SlotHasher(i, randZero), 1, 2) == RowOneHashes[i]
    {
      if i == 2 {
        MaxIntRows();
      } else if i == 3 {
        BitShiftRows();
      } else if i == 4 {
        var c := RandSign(2, randZero(0));
        assert SlotHasher(4, randZero) == PatternX(9, c);
        assert c == 2 || c == -2;
      }
    }
  }

  /** `MaxInt(1)` sends x to 2x: both rows land in bucket 0. */
  lemma MaxIntRows()
    ensures Eval(MaxInt(1), 0, 2) == 0 && Eval(MaxInt(1), 1, 2) == 0
  {
    MaxInt32Mask(0);
    MaxInt32Mask(1);
  }

  /** `BitShift(1, 0)` masks with 0: every row lands in bucket 0. */
  lemma BitShiftRows()
    ensures Eval(BitShift(1, 0), 0, 2) == 0 && Eval(BitShift(1, 0), 1, 2) == 0
  {
    assert BitAnd(0, 0) == 0;
  }

  /** A band vector of the tests: the five cells of a document whose sentence sorts at row `p`. */
  function RowVector(p: int): (v: seq<Option<int>>)
    requires 0 <= p < 2
    ensures |v| == 5
  {
    if p == 0 then [Some(0), Some(0), Some(0), Some(0), Some(0)]
    else [Some(1), Some(1), Some(0), Some(0), Some(1)]
  }

  /**
   * The two band vectors land in different buckets of the five: all zeros in bucket 0, and
   * 1, 1, 0, 0, 1 (hash 31^4 + 31^3 + 1 = 953313) in bucket 3.
   */
  lemma RowVectorBuckets(nanValue: int)
    ensures BucketOf(VectorHash(RowVector(0), nanValue), 5) == 0
    ensures BucketOf(VectorHash(RowVector(1), nanValue), 5) == 3
  {
    var z, o := RowVector(0), RowVector(1);
    assert z[..4] == [Some(0), Some(0), Some(0), Some(0)];
    assert z[..4][..3] == [Some(0), Some(0), Some(0)];
    assert z[..4][..3][..2] == [Some(0), Some(0)];
    assert z[..4][..3][..2][..1] == [Some(0)];
    assert z[..4][..3][..2][..1][..0] == [];
    assert VectorHash(z[..4][..3][..2][..1], nanValue) == 0;
    assert VectorHash(z[..4][..3][..2], nanValue) == 0;
    assert VectorHash(z[..4][..3], nanValue) == 0;
    assert VectorHash(z[..4], nanValue) == 0;
    assert o[..4] == [Some(1), Some(1), Some(0), Some(0)];
    assert o[..4][..3] == [Some(1), Some(1), Some(0)];
    assert o[..4][..3][..2] == [Some(1), Some(1)];
    assert o[..4][..3][..2][..1] == [Some(1)];
    assert o[..4][..3][..2][..1][..0] == [];
    assert VectorHash(o[..4][..3][..2][..1], nanValue) == 1;
    assert VectorHash(o[..4][..3][..2], nanValue) == 32;
    assert VectorHash(o[..4][..3], nanValue) == 992;
    assert VectorHash(o[..4], nanValue) == 30752;
    assert VectorHash(o, nanValue) == 953313;
    assert VectorHash(z, nanValue) == 0;
  }

  /**
   * The signature `Minhash(docs, 5)` of the tests is a valid input of `LSH` with one band, and
   * its bucket table puts the first and the last document in one bucket and the middle one in
   * another.
   */
  lemma EqualDocumentsTable(s: string, t: string, docs: seq<seq<string>>, randZero: nat -> bool, nanValue: int, sig: Signature)
    requires s != t && docs == EqualDocuments(s, t)
    requires |sig| == 5 && forall i :: 0 <= i < |sig| ==> |sig[i]| == |docs|
    requires forall i, c :: 0 <= i < |sig| && 0 <= c < |docs| ==>
      sig[i][c] == MinOver(SlotHasher(i, randZero), Occurs(SortedKeys(AllShingles(docs)), docs[c]), |AllShingles(docs)|)
    ensures Input(sig, 1) && |sig[0]| == 3
    ensures var table := BucketTable(sig, 1, nanValue);
      |table| == 1 && Table(table, 3, 5) && table[0][0] == table[0][2] != table[0][1]
  {
    var p := EqualDocumentsColumns(s, t, docs, randZero, sig);
    ColumnBuckets(sig, p, nanValue);
  }

  /**
   * The signature columns of the tests: documents 0 and 2 both have the band vector of the row
   * their sentence sorts to, and document 1 that of the other row.
   */
  lemma EqualDocumentsColumns(s: string, t: string, docs: seq<seq<string>>, randZero: nat -> bool, sig: Signature) returns (p: int)
    requires s != t && docs == EqualDocuments(s, t)
    requires |sig| == 5 && forall i :: 0 <= i < |sig| ==> |sig[i]| == |docs|
    requires forall i, c :: 0 <= i < |sig| && 0 <= c < |docs| ==>
      sig[i][c] == MinOver(SlotHasher(i, randZero), Occurs(SortedKeys(AllShingles(docs)), docs[c]), |AllShingles(docs)|)
    ensures 0 <= p < 2
    ensures forall i :: 0 <= i < 5 ==> sig[i][0] == sig[i][2] == RowVector(p)[i] && sig[i][1] == RowVector(1 - p)[i]
  {
    p := DocumentColumns(s, t, docs);
    TwoRowHashes(randZero);
    forall i | 0 <= i < 5
      ensures sig[i][0] == sig[i][2] == RowVector(p)[i] && sig[i][1] == RowVector(1 - p)[i]
    {
      OneRowMinimum(SlotHasher(i, randZero), p);
      OneRowMinimum(SlotHasher(i, randZero), 1 - p);
    }
  }

  /** Over the two sorted sentences, documents 0 and 2 mark row `p` and document 1 the other row. */
  lemma DocumentColumns(s: string, t: string, docs: seq<seq<string>>) returns (p: int)
    requires s != t && docs == EqualDocuments(s, t)
    ensures 0 <= p < 2 && |AllShingles(docs)| == 2
    ensures Occurs(SortedKeys(AllShingles(docs)), docs[0]) == [p == 0, p == 1]
    ensures Occurs(SortedKeys(AllShingles(docs)), docs[2]) == [p == 0, p == 1]
    ensures Occurs(SortedKeys(AllShingles(docs)), docs[1]) == [1 - p == 0, 1 - p == 1]
  {
    var keys := SortedKeys(AllShingles(docs));
    TwoKeys(s, t);
    p := if keys[0] == s then 0 else 1;
    SingleColumn(keys, s);
    SingleColumn(keys, t);
  }

  /** Columns 0 and 2 equal to one band vector and column 1 to the other: one band sends 0 and 2 to one bucket and 1 to another. */
  lemma ColumnBuckets(sig: Signature, p: int, nanValue: int)
    requires |sig| == 5 && (forall i :: 0 <= i < 5 ==> |sig[i]| == 3) && 0 <= p < 2
    requires forall i :: 0 <= i < 5 ==> sig[i][0] == sig[i][2] == RowVector(p)[i] && sig[i][1] == RowVector(1 - p)[i]
    ensures Input(sig, 1)
    ensures var table := BucketTable(sig, 1, nanValue);
      |table| == 1 && Table(table, 3, 5) && table[0][0] == table[0][2] != table[0][1]
  {
    assert Input(sig, 1);
    assert Offset(sig, 1, 0) == 0;
    assert BandVector(sig, 1, 0, 0) == BandVector(sig, 1, 0, 2) == RowVector(p);
    assert BandVector(sig, 1, 0, 1) == RowVector(1 - p);
    RowVectorBuckets(nanValue);
  }

  /**
   * `FindCandidates` over any one-band layout that puts sets 0 and 2 of three in one bucket and
   * set 1 in another: 0 and 2 are each other's only candidate, with one election, and 1 is not
   * filed at all.
   */
  lemma EqualDocumentsCandidates(table: seq<seq<int>>, numSets: nat, numBuckets: nat, index: map<int, map<int, Candidate>>)
    requires numSets == 3 && |table| == 1 && Table(table, numSets, numBuckets) && table[0][0] == table[0][2] != table[0][1]
    requires index == AdjacencyIndex(AllPuts(Lsh.Layout(table, numSets, numBuckets)))
    ensures index.Keys == {0, 2}
    ensures index[0] == map[2 := Candidate(2, 1)] && index[2] == map[0 := Candidate(0, 1)]
  {
    AdjacencyIndexCount(AllPuts(Lsh.Layout(table, numSets, numBuckets)));
    AdjacencyIndexFilled(AllPuts(Lsh.Layout(table, numSets, numBuckets)));
    FiledSets(table, numSets, numBuckets, index);
    OnlyCandidate(table, numSets, numBuckets, index, 0, 2);
    OnlyCandidate(table, numSets, numBuckets, index, 2, 0);
  }

  /** Only the sets that share the bucket with another set are filed: 0 and 2, never 1. */
  lemma FiledSets(table: seq<seq<int>>, numSets: nat, numBuckets: nat, index: map<int, map<int, Candidate>>)
    requires numSets == 3 && |table| == 1 && Table(table, numSets, numBuckets) && table[0][0] == table[0][2] != table[0][1]
    requires AdjacencyCount(index, AllPuts(Lsh.Layout(table, numSets, numBuckets))) && Filled(index)
    ensures index.Keys == {0, 2}
  {
    forall x | x in index ensures x == 0 || x == 2 {
      var y :| y in index[x];
      OneBandCandidate(table, numSets, numBuckets, index, x, y);
    }
    OneBandCandidate(table, numSets, numBuckets, index, 0, 2);
    OneBandCandidate(table, numSets, numBuckets, index, 2, 0);
  }

  /** A set whose bucket holds exactly one other set has that set as its only candidate, with one election. */
  lemma OnlyCandidate(table: seq<seq<int>>, numSets: nat, numBuckets: nat, index: map<int, map<int, Candidate>>, x: int, z: int)
    requires |table| == 1 && Table(table, numSets, numBuckets)
    requires AdjacencyCount(index, AllPuts(Lsh.Layout(table, numSets, numBuckets)))
    requires 0 <= x < numSets && 0 <= z < numSets && x != z && table[0][x] == table[0][z]
    requires forall y :: 0 <= y < numSets && y != x && table[0][y] == table[0][x] ==> y == z
    ensures x in index && index[x] == map[z := Candidate(z, 1)]
  {
    OneBandCandidate(table, numSets, numBuckets, index, x, z);
    forall y | y in index[x] ensures y == z {
      OneBandCandidate(table, numSets, numBuckets, index, x, y);
    }
    assert index[x].Keys == {z};
  }

  /** With one band, two sets agree once when they share its bucket, and never otherwise. */
  lemma OneBandAgreements(table: seq<seq<int>>, numSets: nat, numBuckets: nat, x: int, y: int)
    requires |table| == 1 && Table(table, numSets, numBuckets) && 0 <= x < numSets && 0 <= y < numSets
    ensures Agreements(table, numSets, numBuckets, x, y, 1) == if table[0][x] == table[0][y] then 1 else 0
  {
  }

  /** `FindCandidates` with one band: `y` is a candidate of `x`, with one election, exactly when they share the bucket. */
  lemma OneBandCandidate(table: seq<seq<int>>, numSets: nat, numBuckets: nat, index: map<int, map<int, Candidate>>, x: int, y: int)
    requires |table| == 1 && Table(table, numSets, numBuckets)
    requires AdjacencyCount(index, AllPuts(Lsh.Layout(table, numSets, numBuckets)))
    ensures (x in index && y in index[x]) <==> x != y && 0 <= x < numSets && 0 <= y < numSets && table[0][x] == table[0][y]
    ensures x in index && y in index[x] ==> index[x][y] == Candidate(y, 1)
  {
    CandidatesOfLayout(table, numSets, numBuckets, index, x, y);
    if 0 <= x < numSets && 0 <= y < numSets {
      OneBandAgreements(table, numSets, numBuckets, x, y);
    }
  }

  /** `FindCandidatePairs` with one band: the key `x_y` is present, with two elections, exactly when they share the bucket. */
  lemma OneBandPair(table: seq<seq<int>>, numSets: nat, numBuckets: nat, index: map<PairKey, CandidatePair>, x: int, y: int)
    requires |table| == 1 && Table(table, numSets, numBuckets)
    requires PairsCount(index, AllPuts(Lsh.Layout(table, numSets, numBuckets))) && x < y
    ensures PairKey(x, y) in index <==> 0 <= x && y < numSets && table[0][x] == table[0][y]
    ensures PairKey(x, y) in index ==> index[PairKey(x, y)].elections == 2
    ensures PairKey(x, x) !in index
  {
    PairsOfLayout(table, numSets, numBuckets, index, x, y);
    if 0 <= x && y < numSets {
      OneBandAgreements(table, numSets, numBuckets, x, y);
    }
  }

  /**
   * `FindCandidatePairs` over the same layout: the store holds the one key `0_2`, with one
   * election for each of the two orders the pair is put in.
   */
  lemma EqualDocumentsPairs(table: seq<seq<int>>, numSets: nat, numBuckets: nat, index: map<PairKey, CandidatePair>)
    requires numSets == 3 && |table| == 1 && Table(table, numSets, numBuckets) && table[0][0] == table[0][2] != table[0][1]
    requires index == PairsIndex(AllPuts(Lsh.Layout(table, numSets, numBuckets)))
    ensures index == map[PairKey(0, 2) := CandidatePair(0, 2, 2, PairKey(0, 2))]
  {
    var puts := AllPuts(Lsh.Layout(table, numSets, numBuckets));
    PairsIndexCount(puts);
    forall k | k in index ensures k == PairKey(0, 2) {
      if k.a == k.b {
        OneBandPair(table, numSets, numBuckets, index, k.a, k.a + 1);
      } else {
        OneBandPair(table, numSets, numBuckets, index, k.a, k.b);
      }
    }
    OneBandPair(table, numSets, numBuckets, index, 0, 2);
    assert index.Keys == {PairKey(0, 2)};
  }

  /**
   * The buckets of both tests, `LSH(Minhash(docs, 5), 1)`: one band laid out by a bucket table
   * that puts documents 0 and 2 in one bucket and document 1 in another.
   */
  method EqualDocumentsBuckets(s: string, t: string, randZero: nat -> bool, nanValue: int)
    returns (buckets: BandBuckets, ghost table: seq<seq<int>>)
    requires s != t
    ensures |buckets.bands| == 1 && |table| == 1 && Table(table, 3, |buckets.bands[0]|) && table[0][0] == table[0][2] != table[0][1]
    ensures fresh(buckets) && buckets.bands == Lsh.Layout(table, 3, |buckets.bands[0]|)
  {
    var docs := EqualDocuments(s, t);
    var sig := Minhash(docs, 5, randZero);
    EqualDocumentsTable(s, t, docs, randZero, nanValue, sig);
    buckets := LSH(sig, 1, nanValue);
    table := BucketTable(sig, 1, nanValue);
    assert |buckets.bands[0]| == 5;
  }

  /** What `GetByKey` reads from an adjacency map of one candidate is that candidate alone. */
  lemma SingleListed(r: seq<Candidate>, m: map<int, Candidate>, k: int, c: Candidate)
    requires m == map[k := c] && |r| == |m| && forall x :: x in r <==> x in m.Values
    ensures r == [c]
  {
    assert |r| == 1 && r[0] in r;
  }

  /**
   * `Test_LSH_equalCandidates`: `LSH(Minhash(docs, 5), 1)` and then `FindCandidates`; the
   * candidates of documents 0, 1 and 2, read with `GetByKey`.
   */
  method EqualCandidates(s: string, t: string, randZero: nat -> bool, nanValue: int)
    returns (candidatesOf0: seq<Candidate>, candidatesOf1: seq<Candidate>, candidatesOf2: seq<Candidate>)
    requires s != t
    ensures candidatesOf0 == [Candidate(2, 1)]
    ensures candidatesOf1 == []
    ensures candidatesOf2 == [Candidate(0, 1)]
  {
    var buckets, table := EqualDocumentsBuckets(s, t, randZero, nanValue);
    var candidates := buckets.FindCandidates();
    EqualDocumentsCandidates(table, 3, |buckets.bands[0]|, candidates.index);
    candidatesOf0 := candidates.GetByKey(0);
    candidatesOf1 := candidates.GetByKey(1);
    candidatesOf2 := candidates.GetByKey(2);
    SingleListed(candidatesOf0, candidates.index[0], 2, Candidate(2, 1));
    SingleListed(candidatesOf2, candidates.index[2], 0, Candidate(0, 1));
  }

  /** `Test_LSH_equalCandidatePairs`: the same buckets, then `FindCandidatePairs`. */
  method EqualCandidatePairs(s: string, t: string, randZero: nat -> bool, nanValue: int)
    returns (index: map<PairKey, CandidatePair>)
    requires s != t
    ensures index == map[PairKey(0, 2) := CandidatePair(0, 2, 2, PairKey(0, 2))]
  {
    var buckets, table := EqualDocumentsBuckets(s, t, randZero, nanValue);
    var candidatePairs := buckets.FindCandidatePairs();
    EqualDocumentsPairs(table, 3, |buckets.bands[0]|, candidatePairs.index);
    index := candidatePairs.index;
  }
}
