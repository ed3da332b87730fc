/**
 * MinHash signatures of minhash.go: for every hasher and every set, the least hash value of
 * the row numbers of the shingles the set holds. The source's "not a number" start value is
 * `None`.
 */
module MinHash {
  import opened Common
  import opened Hash
  import opened Matrices
  import opened Ordering

  /** A signature matrix: one row per hasher, one cell per set. */
  type Signature = seq<seq<Option<int>>>

  /**
   * What every compute matrix the package builds satisfies (its fields are unexported and
   * only ToSetsComputeMatrix fills them): one row per shingle, each row one cell per set.
   */
  predicate WellFormed(scm: SetsComputeMatrix)
  {
    scm.rowsNum == |scm.m| && scm.setsNum >= 0 &&
    forall r :: 0 <= r < |scm.m| ==> |scm.m[r]| == scm.setsNum
  }

  /** Column `c` of a matrix: which rows hold the shingle set `c`. */
  function Column(m: seq<seq<bool>>, c: nat): (col: seq<bool>)
    ensures |col| == |m|
  {
    if m == [] then []
    else Column(m[..|m| - 1], c) + [c < |m[|m| - 1]| && m[|m| - 1][c]]
  }

  /** Cell `r` of column `c` is the matrix cell, false beyond the end of a short row. */
  lemma {:induction false} ColumnAt(m: seq<seq<bool>>, c: nat, r: nat)
    requires r < |m|
    ensures Column(m, c)[r] == (c < |m[r]| && m[r][c])
    decreases |m|
  {
    if r < |m| - 1 {
      ColumnAt(m[..|m| - 1], c, r);
    }
  }

  /** The update of the source's inner loop: an undefined cell, or one above `h`, becomes `h`. */
  function Lower(cur: Option<int>, h: int): Option<int>
  {
    if cur.None? || cur.value > h then Some(h) else cur
  }

  /**
   * The cell a hasher gives a set: the running minimum, over the rows the column marks, of
   * the hasher applied to the row number with `n` buckets. `None` until a row is marked.
   */
  function MinOver(h: Hasher, col: seq<bool>, n: int): Option<int>
    requires |col| <= n
  {
    if col == [] then None
    else
      var prev := MinOver(h, col[..|col| - 1], n);
      if col[|col| - 1] then Lower(prev, Eval(h, |col| - 1, n)) else prev
  }

  /** `make([]float64, n)` filled with the "not a number" sentinel. */
  function Undefined(n: nat): (r: seq<Option<int>>)
    ensures |r| == n && forall k :: 0 <= k < n ==> r[k] == None
  {
    seq(n, _ => None)
  }

  /** Hasher `i` of the list; every slot must hold one, since the source calls a method on it. */
  predicate AllPresent(hashers: seq<Option<Hasher>>)
  {
    forall i :: 0 <= i < |hashers| ==> hashers[i].Some?
  }

  /** Every cell of `sig` is the minimum over the first `k` rows, for the hasher of its row. */
  predicate MinimaUpTo(sig: Signature, hashers: seq<Option<Hasher>>, scm: SetsComputeMatrix, k: nat)
    requires WellFormed(scm) && AllPresent(hashers) && k <= |scm.m|
  {
    |sig| == |hashers| &&
    (forall i :: 0 <= i < |sig| ==> |sig[i]| == scm.setsNum) &&
    forall i, c :: 0 <= i < |sig| && 0 <= c < scm.setsNum ==>
      sig[i][c] == MinOver(hashers[i].value, Column(scm.m[..k], c), scm.rowsNum)
  }

  /**
   * The body of `MinhashWithHashers` after the compute matrix is built: every cell starts
   * undefined and is lowered, row by row, cell by cell, hasher by hasher.
   */
  method MinhashCompute(scm: SetsComputeMatrix, hashers: seq<Option<Hasher>>) returns (sig: Signature)
    requires WellFormed(scm) && AllPresent(hashers)
    ensures MinimaUpTo(sig, hashers, scm, |scm.m|)
  {
    var numHashes := |hashers|;
    sig := [];
    for i := 0 to numHashes
      invariant |sig| == i && forall i' :: 0 <= i' < i ==> sig[i'] == Undefined(scm.setsNum)
    {
      sig := sig + [Undefined(scm.setsNum)];
    }
    for r := 0 to |scm.m|
      invariant MinimaUpTo(sig, hashers, scm, r)
    {
      sig := LowerRow(sig, hashers, scm, r);
    }
    assert scm.m[..|scm.m|] == scm.m;
  }

  /** The cells a row lowers: those of the columns the row marks. */
  method LowerRow(sig0: Signature, hashers: seq<Option<Hasher>>, scm: SetsComputeMatrix, r: nat)
    returns (sig: Signature)
    requires WellFormed(scm) && AllPresent(hashers) && r < |scm.m|
    requires MinimaUpTo(sig0, hashers, scm, r)
    ensures MinimaUpTo(sig, hashers, scm, r + 1)
  {
    sig := sig0;
    var row := scm.m[r];
    var c := 0;
    while c < |row|
      invariant c <= |row| && Lowered(sig, sig0, hashers, scm, r, c)
    {
      if row[c] {
        sig := LowerColumn(sig, hashers, scm, r, c);
      }
      c := c + 1;
    }
    forall i, c | 0 <= i < |sig| && 0 <= c < scm.setsNum
      ensures sig[i][c] == MinOver(hashers[i].value, Column(scm.m[..r + 1], c), scm.rowsNum)
    {
      assert scm.m[..r + 1][..r] == scm.m[..r];
    }
  }

  /** The cells of the first `c` columns of `sig0` that row `r` marks are lowered by its hash; the others are as they were. */
  predicate Lowered(sig: Signature, sig0: Signature, hashers: seq<Option<Hasher>>, scm: SetsComputeMatrix, r: nat, c: nat)
    requires WellFormed(scm) && AllPresent(hashers) && r < |scm.m| && c <= |scm.m[r]|
    requires |sig0| == |hashers| && forall i :: 0 <= i < |sig0| ==> |sig0[i]| == scm.setsNum
  {
    |sig| == |hashers| && (forall i :: 0 <= i < |sig| ==> |sig[i]| == scm.setsNum) &&
    forall i, c' :: 0 <= i < |sig| && 0 <= c' < scm.setsNum ==>
      sig[i][c'] == (if c' < c && scm.m[r][c'] then Lower(sig0[i][c'], Eval(hashers[i].value, r, scm.rowsNum)) else sig0[i][c'])
  }

  /** The innermost loop: every hasher lowers its cell of column `c` with its hash of row `r`. */
  method LowerColumn(sig0: Signature, hashers: seq<Option<Hasher>>, scm: SetsComputeMatrix, r: nat, c: nat)
    returns (sig: Signature)
    requires WellFormed(scm) && AllPresent(hashers) && r < |scm.m| && c < scm.setsNum
    requires |sig0| == |hashers| && forall i :: 0 <= i < |sig0| ==> |sig0[i]| == scm.setsNum
    ensures |sig| == |hashers| && forall i :: 0 <= i < |sig| ==> |sig[i]| == scm.setsNum
    ensures forall i, c' :: 0 <= i < |sig| && 0 <= c' < scm.setsNum ==>
      sig[i][c'] == if c' == c then Lower(sig0[i][c], Eval(hashers[i].value, r, scm.rowsNum)) else sig0[i][c']
  {
    sig := sig0;
    for i := 0 to |hashers|
      invariant |sig| == |hashers| && forall i' :: 0 <= i' < |sig| ==> |sig[i']| == scm.setsNum
      invariant forall i', c' :: 0 <= i' < |sig| && 0 <= c' < scm.setsNum ==>
        sig[i'][c'] == if c' == c && i' < i then Lower(sig0[i'][c], Eval(hashers[i'].value, r, scm.rowsNum)) else sig0[i'][c']
    {
      var h := Eval(hashers[i].value, r, scm.rowsNum);
      if sig[i][c].None? || sig[i][c].value > h {
        sig := sig[i := sig[i][c := Some(h)]];
      }
    }
  }

  /** Which of `keys` the set holds, key by key: a column of the compute matrix, from the shingles. */
  function Occurs(keys: seq<string>, members: seq<string>): (col: seq<bool>)
    ensures |col| == |keys|
  {
    if keys == [] then []
    else Occurs(keys[..|keys| - 1], members) + [keys[|keys| - 1] in members]
  }

  lemma {:induction false} OccursAt(keys: seq<string>, members: seq<string>, r: nat)
    requires r < |keys|
    ensures Occurs(keys, members)[r] == (keys[r] in members)
    decreases |keys|
  {
    if r < |keys| - 1 {
      OccursAt(keys[..|keys| - 1], members, r);
    }
  }

  /** A compute matrix's column, read from the rows, is the column read from the shingles. */
  lemma {:induction false} ColumnIsOccurs(rows: seq<seq<bool>>, keys: seq<string>, shingles: seq<seq<string>>, c: nat)
    requires PresenceRows(rows, keys, shingles) && c < |shingles|
    ensures Column(rows, c) == Occurs(keys, shingles[c])
    decreases |rows|
  {
    if rows != [] {
      var n := |rows| - 1;
      assert PresenceRows(rows[..n], keys[..n], shingles) by {
        forall i, c' | 0 <= i < n && 0 <= c' < |shingles| && c' < |rows[..n][i]|
          ensures rows[..n][i][c'] <==> keys[..n][i] in shingles[c']
        {
          assert rows[..n][i] == rows[i] && keys[..n][i] == keys[i];
        }
      }
      ColumnIsOccurs(rows[..n], keys[..n], shingles, c);
    }
  }

  /**
   * `MinhashWithHashers`: a signature of one row per hasher and one cell per set, where the
   * cell is the least hash of the sorted row numbers of the shingles the set holds.
   */
  method MinhashWithHashers(shingles: seq<seq<string>>, hashers: seq<Option<Hasher>>) returns (sig: Signature)
    requires AllPresent(hashers)
    ensures |sig| == |hashers| && forall i :: 0 <= i < |sig| ==> |sig[i]| == |shingles|
    ensures forall i, c :: 0 <= i < |sig| && 0 <= c < |shingles| ==>
      sig[i][c] == MinOver(hashers[i].value, Occurs(SortedKeys(AllShingles(shingles)), shingles[c]), |AllShingles(shingles)|)
  {
    var scm := ToSetsComputeMatrix(shingles);
    sig := MinhashCompute(scm, hashers);
    assert scm.m[..|scm.m|] == scm.m;
    forall c | 0 <= c < |shingles| ensures Column(scm.m, c) == Occurs(SortedKeys(AllShingles(shingles)), shingles[c]) {
      ColumnIsOccurs(scm.m, SortedKeys(AllShingles(shingles)), shingles, c);
    }
  }

  /** `Minhash`: MinhashWithHashers with `numHashes` generated hashers. */
  method Minhash(shingles: seq<seq<string>>, numHashes: int, randZero: nat -> bool) returns (sig: Signature)
    requires numHashes >= 1
    ensures |sig| == numHashes && forall i :: 0 <= i < |sig| ==> |sig[i]| == |shingles|
    ensures forall i, c :: 0 <= i < |sig| && 0 <= c < |shingles| ==>
      sig[i][c] == MinOver(SlotHasher(i, randZero), Occurs(SortedKeys(AllShingles(shingles)), shingles[c]), |AllShingles(shingles)|)
  {
    var hashers := GenerateHashers(numHashes, randZero);
    sig := MinhashWithHashers(shingles, hashers);
  }

  /** A cell stays undefined exactly when the column marks no row. */
  lemma {:induction false} MinOverNone(h: Hasher, col: seq<bool>, n: int)
    requires |col| <= n
    ensures MinOver(h, col, n) == None <==> forall r :: 0 <= r < |col| ==> !col[r]
    decreases |col|
  {
    if col != [] {
      var init := col[..|col| - 1];
      MinOverNone(h, init, n);
      assert forall r :: 0 <= r < |init| ==> init[r] == col[r];
    }
  }

  /** A defined cell is no larger than the hash of any row the column marks. */
  lemma {:induction false} MinOverLeast(h: Hasher, col: seq<bool>, n: int, r: nat)
    requires |col| <= n && r < |col| && col[r]
    ensures MinOver(h, col, n).Some? && MinOver(h, col, n).value <= Eval(h, r, n)
    decreases |col|
  {
    var init := col[..|col| - 1];
    if r < |init| {
      assert init[r];
      MinOverLeast(h, init, n, r);
    }
  }

  /** A defined cell is the hash of some row the column marks. */
  lemma {:induction false} MinOverAttained(h: Hasher, col: seq<bool>, n: int) returns (r: nat)
    requires |col| <= n && MinOver(h, col, n).Some?
    ensures r < |col| && col[r] && MinOver(h, col, n).value == Eval(h, r, n)
    decreases |col|
  {
    var init := col[..|col| - 1];
    var last := |col| - 1;
    var prev := MinOver(h, init, n);
    if col[last] && (prev.None? || prev.value > Eval(h, last, n)) {
      r := last;
    } else {
      r := MinOverAttained(h, init, n);
      assert col[r] == init[r];
    }
  }

  /**
   * A set's cell is undefined exactly when the set holds no shingle, for any hasher: the
   * sorted keys cover every shingle of every set.
   */
  lemma UndefinedIffEmpty(h: Hasher, shingles: seq<seq<string>>, c: nat)
    requires c < |shingles|
    ensures MinOver(h, Occurs(SortedKeys(AllShingles(shingles)), shingles[c]), |AllShingles(shingles)|) == None
      <==> shingles[c] == []
  {
    var keys := SortedKeys(AllShingles(shingles));
    var col := Occurs(keys, shingles[c]);
    SortedKeysProperties(AllShingles(shingles));
    MinOverNone(h, col, |AllShingles(shingles)|);
    if shingles[c] != [] {
      var sh := shingles[c][0];
      assert sh in shingles[c];
      assert sh in AllShingles(shingles);
      assert sh in Elems(keys);
      var r :| 0 <= r < |keys| && keys[r] == sh;
      OccursAt(keys, shingles[c], r);
    } else {
      forall r | 0 <= r < |col| ensures !col[r] {
        OccursAt(keys, shingles[c], r);
      }
    }
  }

  /** The four sets of shingles that minhash_test.go builds its matrices from. */
  const SimpleShingles: seq<seq<string>> := [["a", "d"], ["c"], ["b", "d", "e"], ["a", "c", "d"]]

  /** The compute matrix that minhash_test.go expects for SimpleShingles. */
  const ExampleRows: seq<seq<bool>> := [
    [true, false, false, true],
    [false, false, true, false],
    [false, true, false, true],
    [true, false, true, true],
    [false, false, true, false]]

  /** The five shingles of SimpleShingles in increasing order. */
  const SimpleKeys: seq<string> := ["a", "b", "c", "d", "e"]

  /** The shingles of the example sets are the five of SimpleKeys. */
  lemma SimpleAllShingles()
    ensures AllShingles(SimpleShingles) == Elems(SimpleKeys)
  {
    assert "a" in SimpleShingles[0] && "b" in SimpleShingles[2] && "c" in SimpleShingles[1];
    assert "d" in SimpleShingles[0] && "e" in SimpleShingles[2];
    forall sh | sh in AllShingles(SimpleShingles) ensures sh in Elems(SimpleKeys) {
      var c :| 0 <= c < |SimpleShingles| && sh in SimpleShingles[c];
    }
  }

  /** The five shingles of the example, sorted: row `r` of every matrix of the example is shingle `r`. */
  lemma SimpleSortedKeys()
    ensures AllShingles(SimpleShingles) == Elems(SimpleKeys) && |AllShingles(SimpleShingles)| == 5
    ensures SortedKeys(AllShingles(SimpleShingles)) == SimpleKeys
  {
    var all := AllShingles(SimpleShingles);
    SimpleAllShingles();
    assert StrictlySorted(SimpleKeys) by {
      forall i, j | 0 <= i < j < |SimpleKeys| ensures LexLess(SimpleKeys[i], SimpleKeys[j]) {
        assert SimpleKeys[i][0] < SimpleKeys[j][0];
      }
    }
    SortedKeysProperties(all);
    StrictlySortedUnique(SimpleKeys, SortedKeys(all));
    assert |all| == |SortedKeys(all)| == |SimpleKeys|;
  }

  /** The columns of the example, read from the shingles: set `c` holds the shingle of row `r`. */
  lemma SimpleColumns()
    ensures Occurs(SimpleKeys, SimpleShingles[0]) == [true, false, false, true, false]
    ensures Occurs(SimpleKeys, SimpleShingles[1]) == [false, false, true, false, false]
    ensures Occurs(SimpleKeys, SimpleShingles[2]) == [false, true, false, true, true]
    ensures Occurs(SimpleKeys, SimpleShingles[3]) == [true, false, true, true, false]
  {
    OccursIs(SimpleKeys, ["a", "d"], [true, false, false, true, false]);
    OccursIs(SimpleKeys, ["c"], [false, false, true, false, false]);
    OccursIs(SimpleKeys, ["b", "d", "e"], [false, true, false, true, true]);
    OccursIs(SimpleKeys, ["a", "c", "d"], [true, false, true, true, false]);
  }

  lemma OccursIs(keys: seq<string>, members: seq<string>, col: seq<bool>)
    requires |col| == |keys|
    requires forall r :: 0 <= r < |keys| ==> col[r] == (keys[r] in members)
    ensures Occurs(keys, members) == col
  {
    forall r | 0 <= r < |keys| ensures Occurs(keys, members)[r] == col[r] {
      OccursAt(keys, members, r);
    }
  }

  /** The columns of the expected matrix, read from its rows. */
  lemma ExampleColumns()
    ensures Column(ExampleRows, 0) == [true, false, false, true, false]
    ensures Column(ExampleRows, 1) == [false, false, true, false, false]
    ensures Column(ExampleRows, 2) == [false, true, false, true, true]
    ensures Column(ExampleRows, 3) == [true, false, true, true, false]
  {
    ColumnIs(ExampleRows, 0, [true, false, false, true, false]);
    ColumnIs(ExampleRows, 1, [false, false, true, false, false]);
    ColumnIs(ExampleRows, 2, [false, true, false, true, true]);
    ColumnIs(ExampleRows, 3, [true, false, true, true, false]);
  }

  lemma ColumnIs(m: seq<seq<bool>>, c: nat, col: seq<bool>)
    requires |col| == |m|
    requires forall r :: 0 <= r < |m| ==> col[r] == (c < |m[r]| && m[r][c])
    ensures Column(m, c) == col
  {
    forall r | 0 <= r < |m| ensures Column(m, c)[r] == col[r] {
      ColumnAt(m, c, r);
    }
  }

  /** Two matrices of rows of the same width are equal when all their columns are. */
  lemma SameColumns(a: seq<seq<bool>>, b: seq<seq<bool>>, n: nat)
    requires |a| == |b| && forall i :: 0 <= i < |a| ==> |a[i]| == n && |b[i]| == n
    requires forall c :: 0 <= c < n ==> Column(a, c) == Column(b, c)
    ensures a == b
  {
    forall i | 0 <= i < |a| ensures a[i] == b[i] {
      SameRow(a, b, n, i);
    }
  }

  lemma SameRow(a: seq<seq<bool>>, b: seq<seq<bool>>, n: nat, i: nat)
    requires i < |a| == |b| && |a[i]| == n && |b[i]| == n
    requires forall c :: 0 <= c < n ==> Column(a, c) == Column(b, c)
    ensures a[i] == b[i]
  {
    forall c | 0 <= c < n ensures a[i][c] == b[i][c] {
      ColumnAt(a, c, i);
      ColumnAt(b, c, i);
    }
  }

  /** Any rows that mark the five sorted shingles per set of SimpleShingles are the expected matrix. */
  lemma SimpleRows(rows: seq<seq<bool>>)
    requires PresenceRows(rows, SimpleKeys, SimpleShingles)
    ensures rows == ExampleRows
  {
    SimpleColumns();
    ExampleColumns();
    forall c | 0 <= c < 4 ensures Column(rows, c) == Column(ExampleRows, c) {
      ColumnIsOccurs(rows, SimpleKeys, SimpleShingles, c);
    }
    SameColumns(rows, ExampleRows, 4);
  }

  /** Test_ToSetsComputeMatrix: the compute matrix of SimpleShingles, five rows by four sets. */
  method SimpleComputeMatrix() returns (r: SetsComputeMatrix)
    ensures r.m == ExampleRows && r.rowsNum == 5 && r.setsNum == 4
  {
    r := ToSetsComputeMatrix(SimpleShingles);
    SimpleSortedKeys();
    SimpleRows(r.m);
  }

  /** A cell is `Some(v)` when `v` is the hash of a marked row and no marked row hashes lower. */
  lemma MinOverIs(h: Hasher, col: seq<bool>, n: int, r: nat, v: int)
    requires |col| <= n && r < |col| && col[r] && Eval(h, r, n) == v
    requires forall r' :: 0 <= r' < |col| && col[r'] ==> v <= Eval(h, r', n)
    ensures MinOver(h, col, n) == Some(v)
  {
    MinOverLeast(h, col, n, r);
    var w := MinOverAttained(h, col, n);
  }

  /** The signature rows that minhash_test.go expects from PatternX(1, 1): 1, 3, 0, 1. */
  lemma ExampleSignatureOne()
    ensures MinOver(PatternX(1, 1), [true, false, false, true, false], 5) == Some(1)
    ensures MinOver(PatternX(1, 1), [false, false, true, false, false], 5) == Some(3)
    ensures MinOver(PatternX(1, 1), [false, true, false, true, true], 5) == Some(0)
    ensures MinOver(PatternX(1, 1), [true, false, true, true, false], 5) == Some(1)
  {
    PatternXExamplesOne();
    MinOverIs(PatternX(1, 1), [true, false, false, true, false], 5, 0, 1);
    MinOverIs(PatternX(1, 1), [false, false, true, false, false], 5, 2, 3);
    MinOverIs(PatternX(1, 1), [false, true, false, true, true], 5, 4, 0);
    MinOverIs(PatternX(1, 1), [true, false, true, true, false], 5, 0, 1);
  }

  /** The signature rows that minhash_test.go expects from PatternX(3, 1): 0, 2, 0, 0. */
  lemma ExampleSignatureThree()
    ensures MinOver(PatternX(3, 1), [true, false, false, true, false], 5) == Some(0)
    ensures MinOver(PatternX(3, 1), [false, false, true, false, false], 5) == Some(2)
    ensures MinOver(PatternX(3, 1), [false, true, false, true, true], 5) == Some(0)
    ensures MinOver(PatternX(3, 1), [true, false, true, true, false], 5) == Some(0)
  {
    PatternXExamplesThree();
    MinOverIs(PatternX(3, 1), [true, false, false, true, false], 5, 3, 0);
    MinOverIs(PatternX(3, 1), [false, false, true, false, false], 5, 2, 2);
    MinOverIs(PatternX(3, 1), [false, true, false, true, true], 5, 3, 0);
    MinOverIs(PatternX(3, 1), [true, false, true, true, false], 5, 3, 0);
  }

  /**
   * The example signature: any signature whose cells are the least hashes, under PatternX(1, 1)
   * and PatternX(3, 1), of the columns of SimpleShingles over its sorted shingles is the one
   * minhash_test.go expects. (The arguments name the example's values so that the lemma applies
   * to the contract of MinhashWithHashers as it is stated.)
   */
  lemma SimpleSignature(sig: Signature, hashers: seq<Option<Hasher>>, shingles: seq<seq<string>>, keys: seq<string>, n: int)
    requires hashers == [Some(PatternX(1, 1)), Some(PatternX(3, 1))] && shingles == SimpleShingles && keys == SimpleKeys && n == 5
    requires |sig| == |hashers| && forall i :: 0 <= i < |sig| ==> |sig[i]| == |shingles|
    requires forall i, c :: 0 <= i < |sig| && 0 <= c < |shingles| ==>
      sig[i][c] == MinOver(hashers[i].value, Occurs(keys, shingles[c]), n)
    ensures sig == [[Some(1), Some(3), Some(0), Some(1)], [Some(0), Some(2), Some(0), Some(0)]]
  {
    SimpleColumns();
    ExampleSignatureOne();
    ExampleSignatureThree();
    assert sig[0] == [Some(1), Some(3), Some(0), Some(1)];
    assert sig[1] == [Some(0), Some(2), Some(0), Some(0)];
  }

  /**
   * Test_MinHash_EnforcesOrder: the signature of SimpleShingles under PatternX(1, 1) and
   * PatternX(3, 1) is the one the test expects, row by row.
   */
  method SimpleMinhash() returns (sig: Signature)
    ensures sig == [[Some(1), Some(3), Some(0), Some(1)], [Some(0), Some(2), Some(0), Some(0)]]
  {
    var hashers := [Some(PatternX(1, 1)), Some(PatternX(3, 1))];
    sig := MinhashWithHashers(SimpleShingles, hashers);
    SimpleSortedKeys();
    SimpleSignature(sig, hashers, SimpleShingles, SortedKeys(AllShingles(SimpleShingles)), |AllShingles(SimpleShingles)|);
  }
}
