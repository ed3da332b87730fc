/**
 * The search of search.go: a Search holds hashers, a band count and the sets matrix of the
 * documents indexed so far. Find appends the query as one more document to a copy of that
 * matrix, computes MinHash signatures of the copy and runs banded LSH over them.
 */
module Search {
  import opened Common
  import opened Hash
  import opened Matrices
  import opened Ordering
  import opened MinHash
  import opened Shingles
  import opened Stores
  import Lsh

  // ---------------------------------------------------------------------------------------
  // Configuration.

  /** The option setters of search.go; each one overwrites one field of the search. */
  datatype SearchOption =
    | Hashers(hashers: seq<Option<Hasher>>)
    | HashersNum(hashersNum: int)
    | BandsNum(bandsNum: int)
    | Index(index: Option<SetsMatrix>)

  /**
   * The fields of a search being configured, and how many times hashers have been generated so
   * far: the `k`-th generation draws its random bits from `rand(k)`.
   */
  datatype Config = Config(hashers: seq<Option<Hasher>>, bandsNum: int, index: Option<SetsMatrix>, generations: nat)

  /** The hashers `GenerateHashers(n)` makes from the random draws `randZero`. */
  function Generated(n: nat, randZero: nat -> bool): seq<Option<Hasher>>
  {
    seq(n, j requires 0 <= j < n => Some(SlotHasher(j, randZero)))
  }

  /** An option the source can apply: `GenerateHashers` fails on fewer than one hasher. */
  predicate Applicable(o: SearchOption)
  {
    o.HashersNum? ==> o.hashersNum >= 1
  }

  predicate AllApplicable(options: seq<SearchOption>)
  {
    forall k :: 0 <= k < |options| ==> Applicable(options[k])
  }

  /** What applying one option does to the fields. */
  function Apply(c: Config, o: SearchOption, rand: nat -> nat -> bool): Config
    requires Applicable(o)
  {
    match o
    case Hashers(h) => c.(hashers := h)
    case HashersNum(n) => c.(hashers := Generated(n, rand(c.generations)), generations := c.generations + 1)
    case BandsNum(n) => c.(bandsNum := n)
    case Index(i) => c.(index := i)
  }

  /** The fields after the options are applied in order to a zero search. */
  function Configured(options: seq<SearchOption>, rand: nat -> nat -> bool): Config
    requires AllApplicable(options)
  {
    if options == [] then Config([], 0, None, 0)
    else Apply(Configured(options[..|options| - 1], rand), options[|options| - 1], rand)
  }

  /** `ToSetsMatrix` of no documents. */
  const EmptyIndex := SetsMatrix(map[], 0, 0)

  /**
   * The defaults of `NewSearch`: a search always ends up with hashers, a nonzero band count
   * and an index, and keeps each of them that the options set.
   */
  function WithDefaults(c: Config, rand: nat -> nat -> bool): (d: Config)
    ensures |d.hashers| >= 1 && d.bandsNum != 0 && d.index.Some?
    ensures |c.hashers| > 0 ==> d.hashers == c.hashers
    ensures |c.hashers| == 0 ==> d.hashers == Generated(100, rand(c.generations))
    ensures c.bandsNum != 0 ==> d.bandsNum == c.bandsNum
    ensures c.bandsNum == 0 ==> d.bandsNum == 20
    ensures c.index.Some? ==> d.index == c.index
    ensures c.index.None? ==> d.index == Some(EmptyIndex)
  {
    var c1 := if |c.hashers| == 0 then Apply(c, HashersNum(100), rand) else c;
    var c2 := if c1.bandsNum == 0 then Apply(c1, BandsNum(20), rand) else c1;
    if c2.index.None? then Apply(c2, Index(Some(EmptyIndex)), rand) else c2
  }

  /** Later options overwrite earlier ones: the last `BandsNum` decides the band count. */
  lemma {:induction false} LastBandsNumWins(options: seq<SearchOption>, rand: nat -> nat -> bool, i: int)
    requires AllApplicable(options) && 0 <= i < |options| && options[i].BandsNum?
    requires forall j :: i < j < |options| ==> !options[j].BandsNum?
    ensures Configured(options, rand).bandsNum == options[i].bandsNum
    decreases |options|
  {
    var prefix := options[..|options| - 1];
    if i < |options| - 1 {
      assert forall j :: i < j < |prefix| ==> prefix[j] == options[j];
      LastBandsNumWins(prefix, rand, i);
    }
  }

  /** The last `Index` decides the index. */
  lemma {:induction false} LastIndexWins(options: seq<SearchOption>, rand: nat -> nat -> bool, i: int)
    requires AllApplicable(options) && 0 <= i < |options| && options[i].Index?
    requires forall j :: i < j < |options| ==> !options[j].Index?
    ensures Configured(options, rand).index == options[i].index
    decreases |options|
  {
    var prefix := options[..|options| - 1];
    if i < |options| - 1 {
      assert forall j :: i < j < |prefix| ==> prefix[j] == options[j];
      LastIndexWins(prefix, rand, i);
    }
  }

  /** The last of `Hashers` and `HashersNum`, when it is `Hashers(h)`, decides the hashers. */
  lemma {:induction false} LastHashersWins(options: seq<SearchOption>, rand: nat -> nat -> bool, i: int)
    requires AllApplicable(options) && 0 <= i < |options| && options[i].Hashers?
    requires forall j :: i < j < |options| ==> !options[j].Hashers? && !options[j].HashersNum?
    ensures Configured(options, rand).hashers == options[i].hashers
    decreases |options|
  {
    var prefix := options[..|options| - 1];
    if i < |options| - 1 {
      assert forall j :: i < j < |prefix| ==> prefix[j] == options[j];
      LastHashersWins(prefix, rand, i);
    }
  }

  /** Without a `BandsNum` option the band count stays zero, so the default of 20 applies. */
  lemma {:induction false} NoBandsNum(options: seq<SearchOption>, rand: nat -> nat -> bool)
    requires AllApplicable(options) && forall j :: 0 <= j < |options| ==> !options[j].BandsNum?
    ensures Configured(options, rand).bandsNum == 0
    ensures WithDefaults(Configured(options, rand), rand).bandsNum == 20
    decreases |options|
  {
    if options != [] {
      var prefix := options[..|options| - 1];
      assert forall j :: 0 <= j < |prefix| ==> prefix[j] == options[j];
      NoBandsNum(prefix, rand);
    }
  }

  /** Hashers given or generated are all present, as long as every `Hashers` option's are. */
  lemma {:induction false} ConfiguredPresent(options: seq<SearchOption>, rand: nat -> nat -> bool)
    requires AllApplicable(options)
    requires forall j :: 0 <= j < |options| && options[j].Hashers? ==> AllPresent(options[j].hashers)
    ensures AllPresent(Configured(options, rand).hashers)
    ensures AllPresent(WithDefaults(Configured(options, rand), rand).hashers)
    decreases |options|
  {
    if options != [] {
      var prefix := options[..|options| - 1];
      assert forall j :: 0 <= j < |prefix| ==> prefix[j] == options[j];
      ConfiguredPresent(prefix, rand);
    }
  }

  /** A search made without options: 100 generated hashers, 20 bands, no documents. */
  lemma NoOptions(rand: nat -> nat -> bool)
    ensures WithDefaults(Configured([], rand), rand) == Config(Generated(100, rand(0)), 20, Some(EmptyIndex), 1)
  {
  }

  // ---------------------------------------------------------------------------------------
  // Re-indexing with the query.

  /** Every presence vector of `sm` has one slot per set, as ToSetsMatrix builds them. */
  predicate Consistent(sm: SetsMatrix)
  {
    sm.setsNum >= 0 && forall sh :: sh in sm.m ==> |sm.m[sh]| == sm.setsNum
  }

  /**
   * `SetsMatrix.Clone` (defined in a file of the package that this model does not cover),
   * taken to copy the matrix deeply with one more, false, slot at the end of every vector,
   * where `reIndex` writes the query: the copy has the same shingles and the same counts.
   */
  function Clone(sm: SetsMatrix): (r: SetsMatrix)
    ensures r.rowsNum == sm.rowsNum && r.setsNum == sm.setsNum && r.m.Keys == sm.m.Keys
  {
    SetsMatrix(map sh | sh in sm.m :: sm.m[sh] + [false], sm.rowsNum, sm.setsNum)
  }

  /** Every vector of the clone keeps the cells of the original and gains one false slot. */
  lemma CloneVectors(sm: SetsMatrix, sh: string)
    requires sh in sm.m
    ensures |Clone(sm).m[sh]| == |sm.m[sh]| + 1
    ensures Clone(sm).m[sh][..|sm.m[sh]|] == sm.m[sh] && !Clone(sm).m[sh][|sm.m[sh]|]
  {
  }

  /** The vector of `sh` in `sm`, or one of all false slots for a shingle `sm` lacks. */
  function Stored(sm: SetsMatrix, sh: string): seq<bool>
    requires sm.setsNum >= 0
  {
    if sh in sm.m then sm.m[sh] else Falses(sm.setsNum)
  }

  /** The presence vectors with one more column, which marks the shingles of `q`. */
  function ExtendedMap(sm: SetsMatrix, q: seq<string>): map<string, seq<bool>>
    requires sm.setsNum >= 0
  {
    map sh | sh in sm.m.Keys + Elems(q) :: Stored(sm, sh) + [sh in q]
  }

  /** The clone is the matrix extended by a query without shingles, before the set count grows. */
  lemma CloneIsEmptyExtension(sm: SetsMatrix)
    requires sm.setsNum >= 0
    ensures Clone(sm).m == ExtendedMap(sm, [])
  {
    assert Elems<string>([]) == {};
    assert sm.m.Keys + Elems<string>([]) == sm.m.Keys;
  }

  /**
   * The matrix `reIndex` returns: the query is one more set, its shingles join the keys, and
   * the row count is left as it was.
   */
  function Extended(sm: SetsMatrix, q: seq<string>): (r: SetsMatrix)
    requires sm.setsNum >= 0
    ensures r.setsNum == sm.setsNum + 1 && r.rowsNum == sm.rowsNum && r.m.Keys == sm.m.Keys + Elems(q)
  {
    SetsMatrix(ExtendedMap(sm, q), sm.rowsNum, sm.setsNum + 1)
  }

  /**
   * The query is set number `setsNum`, holding exactly its shingles; the earlier sets keep
   * their cells, false in the rows of shingles only the query holds.
   */
  lemma ExtendedColumns(sm: SetsMatrix, q: seq<string>)
    requires Consistent(sm)
    ensures var e := Extended(sm, q);
      e.setsNum == sm.setsNum + 1 && e.rowsNum == sm.rowsNum && e.m.Keys == sm.m.Keys + Elems(q) &&
      Consistent(e) &&
      (forall sh :: sh in e.m ==> (e.m[sh][sm.setsNum] <==> sh in q)) &&
      forall sh, c :: sh in e.m && 0 <= c < sm.setsNum ==> (e.m[sh][c] <==> sh in sm.m && sm.m[sh][c])
  {
  }

  /** Adding the query to the matrix of `docs` gives the matrix of `docs + [q]`. */
  lemma ExtendedIsAppended(sm: SetsMatrix, docs: seq<seq<string>>, q: seq<string>)
    requires sm.setsNum == |docs| && sm.m.Keys == AllShingles(docs) && Presence(sm.m, docs)
    ensures var e := Extended(sm, q);
      e.setsNum == |docs + [q]| && e.m.Keys == AllShingles(docs + [q]) && Presence(e.m, docs + [q])
  {
    var all := docs + [q];
    assert all[..|docs|] == docs && all[..|docs| + 1] == all;
    AllShinglesSnoc(all, |docs|);
    ExtendedPresence(sm, docs, q);
  }

  /** The cells of `ExtendedIsAppended`. */
  lemma ExtendedPresence(sm: SetsMatrix, docs: seq<seq<string>>, q: seq<string>)
    requires sm.setsNum == |docs| && sm.m.Keys == AllShingles(docs) && Presence(sm.m, docs)
    ensures Presence(ExtendedMap(sm, q), docs + [q])
  {
    var m := ExtendedMap(sm, q);
    forall sh, c | sh in m && 0 <= c < |docs| + 1 && c < |m[sh]|
      ensures m[sh][c] <==> sh in (docs + [q])[c]
    {
      AppendedCell(sm, docs, q, sh, c);
    }
  }

  /** One cell of `ExtendedIsAppended`. */
  lemma AppendedCell(sm: SetsMatrix, docs: seq<seq<string>>, q: seq<string>, sh: string, c: int)
    requires sm.setsNum == |docs| && sm.m.Keys == AllShingles(docs) && Presence(sm.m, docs)
    requires 0 <= c <= |docs|
    ensures (Stored(sm, sh) + [sh in q])[c] <==> sh in (docs + [q])[c]
  {
    if c < |docs| {
      assert (docs + [q])[c] == docs[c];
      assert sh in docs[c] ==> sh in AllShingles(docs);
    }
  }

  /** One more query shingle sets the query's slot of its vector and leaves the others alone. */
  lemma ExtendedMapSnoc(sm: SetsMatrix, p: seq<string>, sh: string)
    requires sm.setsNum >= 0
    ensures ExtendedMap(sm, p + [sh]) == ExtendedMap(sm, p)[sh := Stored(sm, sh) + [true]]
  {
    var m, m' := ExtendedMap(sm, p), ExtendedMap(sm, p + [sh]);
    var m'' := m[sh := Stored(sm, sh) + [true]];
    assert Elems(p + [sh]) == Elems(p) + {sh};
    assert m'.Keys == m''.Keys;
    forall k | k in m' ensures m'[k] == m''[k] {
      if k != sh {
        assert (k in p + [sh]) == (k in p);
      }
    }
  }

  /** One visit of the loop of `reIndex` marks one more query shingle. */
  lemma ReIndexStep(sm: SetsMatrix, q: seq<string>, j: int)
    requires Consistent(sm) && 0 <= j < |q|
    ensures var m := ExtendedMap(sm, q[..j]);
      var v := if q[j] in m then m[q[j]] else Falses(sm.setsNum + 1);
      sm.setsNum < |v| && ExtendedMap(sm, q[..j + 1]) == m[q[j] := v[sm.setsNum := true]]
  {
    var n := sm.setsNum;
    var m := ExtendedMap(sm, q[..j]);
    var sh := q[j];
    var v := if sh in m then m[sh] else Falses(n + 1);
    assert q[..j + 1] == q[..j] + [sh];
    ExtendedMapSnoc(sm, q[..j], sh);
    assert |Stored(sm, sh)| == n;
    if sh !in m {
      assert Falses(n + 1) == Falses(n) + [false];
    }
    assert v[n := true] == Stored(sm, sh) + [true];
  }

  // ---------------------------------------------------------------------------------------
  // Signatures of a sets matrix.

  /** Column `c` of the compute matrix of `m` with rows in the order `keys`. */
  function PresenceColumn(m: map<string, seq<bool>>, keys: seq<string>, c: int): (col: seq<bool>)
  {
    seq(|keys|, r requires 0 <= r < |keys| => keys[r] in m && 0 <= c < |m[keys[r]]| && m[keys[r]][c])
  }

  /**
   * The signature row of hasher `h`: for each set, the least hash of the row numbers, in
   * sorted shingle order, of the shingles the set holds.
   */
  ghost function SignatureRow(sm: SetsMatrix, h: Hasher): (row: seq<Option<int>>)
    requires sm.setsNum >= 0
    ensures |row| == sm.setsNum
  {
    var keys := SortedKeys(sm.m.Keys);
    assert |keys| == |sm.m|;
    seq(sm.setsNum, c requires 0 <= c < sm.setsNum => MinOver(h, PresenceColumn(sm.m, keys, c), |sm.m|))
  }

  /** The MinHash signature of a sets matrix: one row per hasher. */
  ghost function SignatureOf(sm: SetsMatrix, hashers: seq<Option<Hasher>>): (sig: Signature)
    requires sm.setsNum >= 0 && AllPresent(hashers)
    ensures |sig| == |hashers| && forall i :: 0 <= i < |sig| ==> |sig[i]| == sm.setsNum
  {
    if hashers == [] then []
    else SignatureOf(sm, hashers[..|hashers| - 1]) + [SignatureRow(sm, hashers[|hashers| - 1].value)]
  }

  /** Row `i` of the signature is the row of hasher `i`. */
  lemma {:induction false} SignatureOfAt(sm: SetsMatrix, hashers: seq<Option<Hasher>>, i: int)
    requires sm.setsNum >= 0 && AllPresent(hashers) && 0 <= i < |hashers|
    ensures SignatureOf(sm, hashers)[i] == SignatureRow(sm, hashers[i].value)
    decreases |hashers|
  {
    if i < |hashers| - 1 {
      SignatureOfAt(sm, hashers[..|hashers| - 1], i);
    }
  }

  /** A column of rows widened from presence vectors is the presence column. */
  lemma ColumnOfRows(rows: seq<seq<bool>>, m: map<string, seq<bool>>, keys: seq<string>, n: nat, c: int)
    requires RowsOf(rows, m, keys, n) && 0 <= c < n
    ensures MinHash.Column(rows, c) == PresenceColumn(m, keys, c)
  {
    forall r | 0 <= r < |rows| ensures MinHash.Column(rows, c)[r] == PresenceColumn(m, keys, c)[r] {
      ColumnAt(rows, c, r);
      var v := m[keys[r]];
      assert rows[r] == v + Falses(n - |v|);
    }
  }

  /**
   * `minhashSetsMatrix` (defined in a file of the package that this model does not cover), taken to build the compute matrix
   * as `ToSetsComputeMatrix` does, with the row count taken from the map, and to run the
   * MinHash loops of `MinhashWithHashers` over it.
   */
  method MinhashSetsMatrix(sm: SetsMatrix, hashers: seq<Option<Hasher>>) returns (sig: Signature)
    requires Consistent(sm) && AllPresent(hashers)
    ensures sig == SignatureOf(sm, hashers)
  {
    var scm := Compact(sm.(rowsNum := |sm.m|));
    ghost var keys := SortedKeys(sm.m.Keys);
    assert |keys| == |sm.m|;
    assert WellFormed(scm);
    sig := MinhashCompute(scm, hashers);
    assert scm.m[..|scm.m|] == scm.m;
    ghost var spec := SignatureOf(sm, hashers);
    forall i | 0 <= i < |sig| ensures sig[i] == spec[i] {
      SignatureOfAt(sm, hashers, i);
      var h := hashers[i].value;
      forall c | 0 <= c < sm.setsNum ensures sig[i][c] == spec[i][c] {
        ColumnOfRows(scm.m, sm.m, keys, sm.setsNum, c);
        assert SignatureRow(sm, h)[c] == MinOver(h, PresenceColumn(sm.m, keys, c), |sm.m|);
      }
    }
  }

  /** A signature of at least one hasher is an input `LSH` accepts with any positive band count. */
  lemma SignatureInput(sig: Signature, n: int, bands: int)
    requires |sig| >= 1 && bands >= 1 && forall i :: 0 <= i < |sig| ==> |sig[i]| == n
    ensures Lsh.Input(sig, bands)
  {
    var rows := Lsh.Rows(sig, bands);
    assert forall h :: 0 <= h < bands * rows ==> |sig[h]| == |sig[0]|;
  }

  /** The bucket of every set in every band of `LSH` over the signature of `sm`. */
  ghost function SignatureTable(sm: SetsMatrix, hashers: seq<Option<Hasher>>, bands: int, nanValue: int): (table: seq<seq<int>>)
    requires sm.setsNum >= 1 && AllPresent(hashers) && |hashers| >= 1 && bands >= 1
    ensures |table| == bands && Lsh.Table(table, sm.setsNum, |hashers|)
  {
    var sig := SignatureOf(sm, hashers);
    SignatureInput(sig, sm.setsNum, bands);
    Lsh.BucketTable(sig, bands, nanValue)
  }

  /** Two sets holding the same shingles have the same signature column. */
  lemma SameColumnsSameSignature(sm: SetsMatrix, hashers: seq<Option<Hasher>>, x: int, y: int)
    requires sm.setsNum >= 0 && AllPresent(hashers) && 0 <= x < sm.setsNum && 0 <= y < sm.setsNum
    requires forall sh :: sh in sm.m ==> x < |sm.m[sh]| && y < |sm.m[sh]| && sm.m[sh][x] == sm.m[sh][y]
    ensures forall h :: 0 <= h < |hashers| ==> SignatureOf(sm, hashers)[h][x] == SignatureOf(sm, hashers)[h][y]
  {
    var keys := SortedKeys(sm.m.Keys);
    SortedKeysProperties(sm.m.Keys);
    assert PresenceColumn(sm.m, keys, x) == PresenceColumn(sm.m, keys, y);
    forall h | 0 <= h < |hashers| ensures SignatureOf(sm, hashers)[h][x] == SignatureOf(sm, hashers)[h][y] {
      SignatureOfAt(sm, hashers, h);
    }
  }

  /**
   * A stored set holding exactly the query's shingles shares a bucket with the query in every
   * band, so `Find` elects it once per band.
   */
  lemma QueryDuplicateAgrees(sm: SetsMatrix, hashers: seq<Option<Hasher>>, bands: int, nanValue: int, q: seq<string>, x: int)
    requires Consistent(sm) && AllPresent(hashers) && |hashers| >= 1 && bands >= 1
    requires 0 <= x < sm.setsNum
    requires forall sh :: sh in sm.m ==> (sm.m[sh][x] <==> sh in q)
    requires forall j :: 0 <= j < |q| ==> q[j] in sm.m
    ensures Lsh.Agreements(SignatureTable(Extended(sm, q), hashers, bands, nanValue), sm.setsNum + 1, |hashers|, sm.setsNum, x, bands) == bands
  {
    var e := Extended(sm, q);
    ExtendedColumns(sm, q);
    SameColumnsSameSignature(e, hashers, x, sm.setsNum);
    var sig := SignatureOf(e, hashers);
    SignatureInput(sig, sm.setsNum + 1, bands);
    Lsh.IdenticalColumnsAgree(sig, bands, nanValue, sm.setsNum, x);
  }

  /** The adjacency store `FindCandidates` builds from the bucket table `table` of `LSH`. */
  ghost function FoundIndex(table: seq<seq<int>>, numSets: nat, numBuckets: nat): map<int, map<int, Candidate>>
    requires Lsh.Table(table, numSets, numBuckets)
  {
    AdjacencyIndex(Lsh.AllPuts(Lsh.Layout(table, numSets, numBuckets)))
  }

  /** The store counts, for every ordered pair of sets, the buckets they share. */
  lemma FoundIndexCount(table: seq<seq<int>>, numSets: nat, numBuckets: nat)
    requires Lsh.Table(table, numSets, numBuckets)
    ensures AdjacencyCount(FoundIndex(table, numSets, numBuckets), Lsh.AllPuts(Lsh.Layout(table, numSets, numBuckets)))
    ensures WellFiled(FoundIndex(table, numSets, numBuckets))
  {
    AdjacencyIndexCount(Lsh.AllPuts(Lsh.Layout(table, numSets, numBuckets)));
  }

  /**
   * The steps of `Find` after `reIndex`: `minhashSetsMatrix`, `LSH` and `FindCandidates`;
   * the store holds, for each ordered pair of sets, the buckets they share.
   */
  method CandidatesOf(sm: SetsMatrix, hashers: seq<Option<Hasher>>, bands: int, nanValue: int)
    returns (candidates: Candidates, ghost table: seq<seq<int>>)
    requires Consistent(sm) && sm.setsNum >= 1 && AllPresent(hashers) && |hashers| >= 1 && bands >= 1
    ensures table == SignatureTable(sm, hashers, bands, nanValue)
    ensures fresh(candidates) && candidates.index == FoundIndex(table, sm.setsNum, |hashers|)
  {
    var sig := MinhashSetsMatrix(sm, hashers);
    SignatureInput(sig, sm.setsNum, bands);
    var bandBuckets := Lsh.LSH(sig, bands, nanValue);
    table := Lsh.BucketTable(sig, bands, nanValue);
    candidates := bandBuckets.FindCandidates();
  }

  // ---------------------------------------------------------------------------------------
  // The search.

  class Search {
    var hashers: seq<Option<Hasher>>
    var bandsNum: int
    var index: Option<SetsMatrix>

    /** What `Find` needs: an index with vectors of one slot per set, hashers, and bands. */
    predicate Ready()
      reads this
    {
      index.Some? && Consistent(index.value) && |hashers| >= 1 && AllPresent(hashers) && bandsNum >= 1
    }

    /**
     * `NewSearch`: the options are applied in order, then every field still unset gets its
     * default (100 generated hashers, 20 bands, the matrix of no documents).
     */
    constructor NewSearch(options: seq<SearchOption>, rand: nat -> nat -> bool)
      requires AllApplicable(options)
      ensures var d := WithDefaults(Configured(options, rand), rand);
        hashers == d.hashers && bandsNum == d.bandsNum && index == d.index
    {
      hashers, bandsNum, index := [], 0, None;
      new;
      var generations := 0;
      for k := 0 to |options|
        invariant Config(hashers, bandsNum, index, generations) == Configured(options[..k], rand)
      {
        assert options[..k + 1][..k] == options[..k];
        generations := ApplyOption(options[k], rand, generations);
      }
      assert options[..|options|] == options;
      if |hashers| == 0 {
        generations := ApplyOption(HashersNum(100), rand, generations);
      }
      if bandsNum == 0 {
        generations := ApplyOption(BandsNum(20), rand, generations);
      }
      if index.None? {
        var empty := ToSetsMatrix([]);
        assert AllShingles([]) == {};
        assert empty.m == map[];
        generations := ApplyOption(Index(Some(empty)), rand, generations);
      }
    }

    /** Calling an option's closure on the search. */
    method ApplyOption(o: SearchOption, rand: nat -> nat -> bool, generations: nat) returns (generations': nat)
      requires Applicable(o)
      modifies this
      ensures Config(hashers, bandsNum, index, generations') == Apply(Config(old(hashers), old(bandsNum), old(index), generations), o, rand)
    {
      generations' := generations;
      match o
      case Hashers(h) =>
        hashers := h;
      case HashersNum(n) =>
        var generated := GenerateHashers(n, rand(generations));
        assert generated == Generated(n, rand(generations));
        hashers := generated;
        generations' := generations + 1;
      case BandsNum(n) =>
        bandsNum := n;
      case Index(i) =>
        index := i;
    }

    /**
     * `reIndex`: a copy of the index with the query as one more set; shingles new to the index
     * get a fresh all-false vector of the new length before the query's slot is set.
     */
    method ReIndex(shingles: seq<string>) returns (r: SetsMatrix)
      requires index.Some? && Consistent(index.value)
      ensures r == Extended(index.value, shingles) && Consistent(r) && r.setsNum == index.value.setsNum + 1
    {
      ExtendedColumns(index.value, shingles);
      var clone := Clone(index.value);
      var setIndex := clone.setsNum;
      var m := clone.m;
      var setsNum := clone.setsNum + 1;
      assert shingles[..0] == [];
      for j := 0 to |shingles|
        invariant m == ExtendedMap(index.value, shingles[..j])
      {
        var sh := shingles[j];
        ReIndexStep(index.value, shingles, j);
        if sh !in m {
          m := m[sh := Falses(setsNum)];
        }
        m := m[sh := m[sh][setIndex := true]];
      }
      assert shingles[..|shingles|] == shingles;
      r := SetsMatrix(m, clone.rowsNum, setsNum);
    }

    /**
     * `Find`: the query is shingled, added to a copy of the index as set number `setsNum`,
     * and the candidates of LSH over the signature of that copy are returned. The stored index
     * is left as it was.
     */
    method Find(query: string, isStop: string -> bool, nanValue: int) returns (candidates: Candidates, ghost table: seq<seq<int>>)
      requires Ready()
      ensures table == SignatureTable(Extended(index.value, ShingleSpec([query], isStop)), hashers, bandsNum, nanValue)
      ensures fresh(candidates) && candidates.index == FoundIndex(table, index.value.setsNum + 1, |hashers|)
    {
      var shingles := Shingle([query], isStop);
      candidates, table := FindShingles(shingles, nanValue);
    }

    /** `Find` after the query is shingled. */
    method FindShingles(shingles: seq<string>, nanValue: int) returns (candidates: Candidates, ghost table: seq<seq<int>>)
      requires Ready()
      ensures table == SignatureTable(Extended(index.value, shingles), hashers, bandsNum, nanValue)
      ensures fresh(candidates) && candidates.index == FoundIndex(table, Extended(index.value, shingles).setsNum, |hashers|)
    {
      var reIndexed := ReIndex(shingles);
      candidates, table := CandidatesOf(reIndexed, hashers, bandsNum, nanValue);
    }
  }
}
