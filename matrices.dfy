/**
 * The sets matrices of minhash.go: which shingle occurs in which set, first as a map from
 * shingle to presence vector (SetsMatrix), then as rows of booleans in sorted shingle order
 * (SetsComputeMatrix), and the text rendering of the latter.
 */
module Matrices {
  import opened Common
  import opened Ordering

  /** `SetsMatrix`: a presence vector per shingle, and the two counts the source keeps beside it. */
  datatype SetsMatrix = SetsMatrix(m: map<string, seq<bool>>, rowsNum: int, setsNum: int)

  /** `SetsComputeMatrix`: the presence vectors as rows, in sorted shingle order. */
  datatype SetsComputeMatrix = SetsComputeMatrix(m: seq<seq<bool>>, rowsNum: int, setsNum: int)

  /** `make([]bool, n)`. */
  function Falses(n: nat): (r: seq<bool>)
    ensures |r| == n && forall i :: 0 <= i < n ==> !r[i]
  {
    seq(n, _ => false)
  }

  /** Every shingle of every set. */
  function AllShingles(shingles: seq<seq<string>>): set<string>
  {
    set c, sh | 0 <= c < |shingles| && sh in shingles[c] :: sh
  }

  /** Each vector of `m` has one slot per set, and slot `c` says whether the shingle is in set `c`. */
  predicate Presence(m: map<string, seq<bool>>, shingles: seq<seq<string>>)
  {
    (forall sh :: sh in m ==> |m[sh]| == |shingles|) &&
    (forall sh, c :: sh in m && 0 <= c < |shingles| && c < |m[sh]| ==> (m[sh][c] <==> sh in shingles[c]))
  }

  /** How many shingles of set `c'` the loop of ToSetsMatrix has visited at position (c, j). */
  function Visited(shingles: seq<seq<string>>, c: nat, j: nat, c': nat): nat
    requires c' < |shingles|
  {
    if c' < c then |shingles[c']| else if c' == c then j else 0
  }

  /** The presence vectors as far as the loop of ToSetsMatrix has filled them. */
  predicate PresenceSoFar(m: map<string, seq<bool>>, shingles: seq<seq<string>>, c: nat, j: nat)
  {
    (forall sh :: sh in m ==> |m[sh]| == |shingles|) &&
    (forall sh, c' :: sh in m && 0 <= c' < |shingles| && c' < |m[sh]| ==>
       (m[sh][c'] <==> sh in shingles[c'][..if Visited(shingles, c, j, c') <= |shingles[c']| then Visited(shingles, c, j, c') else 0]))
  }

  /**
   * `ToSetsMatrix`: one row per distinct shingle, one column per set; the row of a shingle
   * is created all false the first time it is met and its slot for the current set is set.
   */
  method ToSetsMatrix(shingles: seq<seq<string>>) returns (r: SetsMatrix)
    ensures r.setsNum == |shingles| && r.rowsNum == |r.m|
    ensures r.m.Keys == AllShingles(shingles)
    ensures Presence(r.m, shingles)
  {
    var m: map<string, seq<bool>> := map[];
    var setsNum := |shingles|;
    for c := 0 to |shingles|
      invariant m.Keys == AllShingles(shingles[..c])
      invariant PresenceSoFar(m, shingles, c, 0)
    {
      var s := shingles[c];
      for j := 0 to |s|
        invariant m.Keys == AllShingles(shingles[..c]) + Elems(s[..j])
        invariant PresenceSoFar(m, shingles, c, j)
      {
        var sh := s[j];
        ghost var m0 := m;
        if sh !in m {
          m := m[sh := Falses(setsNum)];
        }
        m := m[sh := m[sh][c := true]];
        assert m == Marked(m0, sh, c, setsNum);
        MarkStep(m0, shingles, c, j);
      }
      assert s[..|s|] == s;
      AllShinglesSnoc(shingles, c);
      MarkNext(m, shingles, c);
    }
    assert shingles[..|shingles|] == shingles;
    r := SetsMatrix(m, |m|, setsNum);
    MarkDone(m, shingles);
  }

  lemma AllShinglesSnoc(shingles: seq<seq<string>>, c: nat)
    requires c < |shingles|
    ensures AllShingles(shingles[..c + 1]) == AllShingles(shingles[..c]) + Elems(shingles[c])
  {
    var p, q := shingles[..c + 1], shingles[..c];
    forall sh | sh in AllShingles(p) ensures sh in AllShingles(q) + Elems(shingles[c]) {
      var c' :| 0 <= c' < |p| && sh in p[c'];
      if c' < c {
        assert sh in q[c'];
      }
    }
    forall sh | sh in AllShingles(q) + Elems(shingles[c]) ensures sh in AllShingles(p) {
      if sh in AllShingles(q) {
        var c' :| 0 <= c' < |q| && sh in q[c'];
        assert sh in p[c'];
      } else {
        assert sh in p[c];
      }
    }
  }

  /** The map after slot `c` of shingle `sh` is set, its vector created all false if need be. */
  function Marked(m: map<string, seq<bool>>, sh: string, c: nat, n: nat): map<string, seq<bool>>
    requires c < n && (sh in m ==> c < |m[sh]|)
  {
    var v := if sh in m then m[sh] else Falses(n);
    m[sh := v[c := true]]
  }

  /** One visit of the inner loop keeps both invariants: only the visited shingle's slot `c` changes. */
  lemma MarkStep(m: map<string, seq<bool>>, shingles: seq<seq<string>>, c: nat, j: nat)
    requires c < |shingles| && j < |shingles[c]|
    requires m.Keys == AllShingles(shingles[..c]) + Elems(shingles[c][..j])
    requires PresenceSoFar(m, shingles, c, j)
    ensures Marked(m, shingles[c][j], c, |shingles|).Keys == AllShingles(shingles[..c]) + Elems(shingles[c][..j + 1])
    ensures PresenceSoFar(Marked(m, shingles[c][j], c, |shingles|), shingles, c, j + 1)
  {
    MarkKeys(m, shingles, c, j);
    MarkPresence(m, shingles, c, j);
  }

  lemma MarkKeys(m: map<string, seq<bool>>, shingles: seq<seq<string>>, c: nat, j: nat)
    requires c < |shingles| && j < |shingles[c]|
    requires m.Keys == AllShingles(shingles[..c]) + Elems(shingles[c][..j])
    requires forall sh :: sh in m ==> |m[sh]| == |shingles|
    ensures Marked(m, shingles[c][j], c, |shingles|).Keys == AllShingles(shingles[..c]) + Elems(shingles[c][..j + 1])
  {
    var s := shingles[c];
    assert s[..j + 1] == s[..j] + [s[j]];
  }

  lemma MarkPresence(m: map<string, seq<bool>>, shingles: seq<seq<string>>, c: nat, j: nat)
    requires c < |shingles| && j < |shingles[c]|
    requires m.Keys == AllShingles(shingles[..c]) + Elems(shingles[c][..j])
    requires PresenceSoFar(m, shingles, c, j)
    ensures PresenceSoFar(Marked(m, shingles[c][j], c, |shingles|), shingles, c, j + 1)
  {
    var s, sh := shingles[c], shingles[c][j];
    var m' := Marked(m, sh, c, |shingles|);
    if sh !in m {
      Unseen(shingles, c, sh);
    }
    forall x, c' | x in m' && 0 <= c' < |shingles| && c' < |m'[x]|
      ensures m'[x][c'] <==> x in shingles[c'][..if Visited(shingles, c, j + 1, c') <= |shingles[c']| then Visited(shingles, c, j + 1, c') else 0]
    {
      if c' == c {
        assert shingles[c'][..j + 1] == s[..j] + [sh];
      } else {
        assert Visited(shingles, c, j + 1, c') == Visited(shingles, c, j, c');
      }
    }
  }

  /** A shingle not met in the sets before `c` is in none of them. */
  lemma Unseen(shingles: seq<seq<string>>, c: nat, sh: string)
    requires c <= |shingles| && sh !in AllShingles(shingles[..c])
    ensures forall c' :: 0 <= c' < c ==> sh !in shingles[c']
  {
    forall c' | 0 <= c' < c ensures sh !in shingles[c'] {
      assert shingles[..c][c'] == shingles[c'];
    }
  }

  /** Finishing set `c` is the same position as starting set `c + 1`. */
  lemma MarkNext(m: map<string, seq<bool>>, shingles: seq<seq<string>>, c: nat)
    requires c < |shingles|
    requires PresenceSoFar(m, shingles, c, |shingles[c]|)
    ensures PresenceSoFar(m, shingles, c + 1, 0)
  {
    forall sh, c' | sh in m && 0 <= c' < |shingles| && c' < |m[sh]|
      ensures m[sh][c'] <==> sh in shingles[c'][..if Visited(shingles, c + 1, 0, c') <= |shingles[c']| then Visited(shingles, c + 1, 0, c') else 0]
    {
      assert Visited(shingles, c, |shingles[c]|, c') == Visited(shingles, c + 1, 0, c');
    }
  }

  lemma MarkDone(m: map<string, seq<bool>>, shingles: seq<seq<string>>)
    requires PresenceSoFar(m, shingles, |shingles|, 0)
    ensures Presence(m, shingles)
  {
    forall sh, c | sh in m && 0 <= c < |shingles| && c < |m[sh]| ensures m[sh][c] <==> sh in shingles[c] {
      assert shingles[c][..|shingles[c]|] == shingles[c];
    }
  }

  /** A presence vector padded with false slots up to `n` (a row of the compute matrix). */
  function Widen(v: seq<bool>, n: nat): (r: seq<bool>)
    requires |v| <= n
    ensures |r| == n
  {
    v + Falses(n - |v|)
  }

  /** Row `i` of `rows` is the vector of `keys[i]`, widened to `n` slots. */
  predicate RowsOf(rows: seq<seq<bool>>, m: map<string, seq<bool>>, keys: seq<string>, n: nat)
  {
    |rows| == |keys| &&
    forall i :: 0 <= i < |keys| ==> keys[i] in m && |m[keys[i]]| <= n && rows[i] == Widen(m[keys[i]], n)
  }

  /**
   * The second half of `ToSetsComputeMatrix`: the keys are collected (in map order), sorted,
   * and each row copies its shingle's vector into a fresh all-false row of `setsNum` slots.
   * A vector longer than `setsNum` would make the copy index out of range, and a row count
   * different from the number of keys would leave empty keys or overrun the key slice, so
   * both are excluded.
   */
  method Compact(sm: SetsMatrix) returns (r: SetsComputeMatrix)
    requires sm.setsNum >= 0 && sm.rowsNum == |sm.m|
    requires forall sh :: sh in sm.m ==> |sm.m[sh]| <= sm.setsNum
    ensures r.rowsNum == sm.rowsNum && r.setsNum == sm.setsNum
    ensures RowsOf(r.m, sm.m, SortedKeys(sm.m.Keys), sm.setsNum)
  {
    var keys := CollectKeys(sm.m);
    var sorted := SortStrings(keys);
    SameElements(keys, sorted);
    assert forall i :: 0 <= i < |sorted| ==> sorted[i] in Elems(sorted);
    var rows := WidenRows(sm.m, sorted, sm.setsNum);
    r := SetsComputeMatrix(rows, sm.rowsNum, sm.setsNum);
    SortedIsSortedKeys(sorted, sm.m.Keys);
  }

  /** The row loop of `ToSetsComputeMatrix`: row `i` is the vector of the `i`-th key, widened. */
  method WidenRows(m: map<string, seq<bool>>, keys: seq<string>, n: nat) returns (rows: seq<seq<bool>>)
    requires forall i :: 0 <= i < |keys| ==> keys[i] in m && |m[keys[i]]| <= n
    ensures RowsOf(rows, m, keys, n)
  {
    rows := [];
    for i := 0 to |keys|
      invariant |rows| == i
      invariant forall j :: 0 <= j < i ==> rows[j] == Widen(m[keys[j]], n)
    {
      var row := CopyRow(m[keys[i]], n);
      rows := rows + [row];
    }
  }

  /** A vector that already has `n` slots is its own widening. */
  lemma WidenFull(v: seq<bool>)
    ensures Widen(v, |v|) == v
  {
    assert Falses(0) == [];
  }

  /** `m[i] = make([]bool, n)` followed by the copy of `v` into it. */
  method CopyRow(v: seq<bool>, n: nat) returns (row: seq<bool>)
    requires |v| <= n
    ensures row == Widen(v, n)
  {
    row := Falses(n);
    for k := 0 to |v|
      invariant row == v[..k] + Falses(n - k)
    {
      row := row[k := v[k]];
    }
  }

  /** Rows of a compute matrix: row `i` says which sets hold the `i`-th key. */
  predicate PresenceRows(rows: seq<seq<bool>>, keys: seq<string>, shingles: seq<seq<string>>)
  {
    |rows| == |keys| &&
    (forall i :: 0 <= i < |keys| ==> |rows[i]| == |shingles|) &&
    (forall i, c :: 0 <= i < |keys| && 0 <= c < |shingles| && c < |rows[i]| ==> (rows[i][c] <==> keys[i] in shingles[c]))
  }

  /**
   * `ToSetsComputeMatrix`: one row per distinct shingle, in increasing order of the shingles,
   * and one column per set; the cell says whether the shingle is in the set.
   */
  method ToSetsComputeMatrix(shingles: seq<seq<string>>) returns (r: SetsComputeMatrix)
    ensures r.setsNum == |shingles| && r.rowsNum == |r.m| == |AllShingles(shingles)|
    ensures PresenceRows(r.m, SortedKeys(AllShingles(shingles)), shingles)
  {
    var sm := ToSetsMatrix(shingles);
    r := Compact(sm);
    SortedKeysProperties(AllShingles(shingles));
    ghost var keys := SortedKeys(AllShingles(shingles));
    RowsPresence(r.m, sm.m, keys, shingles);
  }

  /** Rows widened from presence vectors that already have one slot per set are presence rows. */
  lemma RowsPresence(rows: seq<seq<bool>>, m: map<string, seq<bool>>, keys: seq<string>, shingles: seq<seq<string>>)
    requires RowsOf(rows, m, keys, |shingles|) && Presence(m, shingles)
    ensures PresenceRows(rows, keys, shingles)
  {
    forall i | 0 <= i < |keys| ensures rows[i] == m[keys[i]] {
      WidenFull(m[keys[i]]);
    }
  }

  /** How a cell is written: "1" for true, "0" for false. */
  function Bit(b: bool): string
  {
    if b then "1" else "0"
  }

  /** A row's cells, separated by commas. */
  function RowText(row: seq<bool>): string
  {
    if row == [] then ""
    else if |row| == 1 then Bit(row[0])
    else RowText(row[..|row| - 1]) + "," + Bit(row[|row| - 1])
  }

  /** The rows' texts, separated by line breaks. */
  function MatrixText(m: seq<seq<bool>>): string
  {
    if m == [] then ""
    else if |m| == 1 then RowText(m[0])
    else MatrixText(m[..|m| - 1]) + "\n" + RowText(m[|m| - 1])
  }

  /**
   * `SetsComputeMatrix.String`: the builder gets a comma before every cell but the first of a
   * row, and a line break after every row but the last.
   */
  method Render(scm: SetsComputeMatrix) returns (text: string)
    ensures text == MatrixText(scm.m)
  {
    var m := scm.m;
    text := "";
    for i := 0 to |m|
      invariant text == MatrixText(m[..i]) + (if 0 < i < |m| then "\n" else "")
    {
      var line := RenderRow(m[i]);
      MatrixTextSnoc(m, i);
      text := text + line;
      if i < |m| - 1 {
        text := text + "\n";
      }
    }
    assert m[..|m|] == m;
  }

  /** One more row: its text, after a line break unless it is the first. */
  lemma MatrixTextSnoc(m: seq<seq<bool>>, i: nat)
    requires i < |m|
    ensures MatrixText(m[..i + 1]) == MatrixText(m[..i]) + (if i == 0 then "" else "\n") + RowText(m[i])
  {
    assert m[..i + 1][..i] == m[..i];
  }

  /** The inner loop of `SetsComputeMatrix.String`: one row's cells with commas between them. */
  method RenderRow(row: seq<bool>) returns (text: string)
    ensures text == RowText(row)
  {
    text := "";
    for j := 0 to |row|
      invariant text == RowText(row[..j])
    {
      if j > 0 {
        text := text + ",";
      }
      text := text + Bit(row[j]);
      assert row[..j + 1][..j] == row[..j];
    }
    assert row[..|row|] == row;
  }

  /**
   * Where each cell of a non-empty row lands: cell `k` at position `2k`, commas in between,
   * and nothing after the last cell.
   */
  lemma {:induction false} RowTextAt(row: seq<bool>)
    requires row != []
    ensures |RowText(row)| == 2 * |row| - 1
    ensures forall k :: 0 <= k < |row| ==> RowText(row)[2 * k] == (if row[k] then '1' else '0')
    ensures forall k :: 0 <= k < |row| - 1 ==> RowText(row)[2 * k + 1] == ','
    decreases |row|
  {
    if |row| > 1 {
      var init := row[..|row| - 1];
      RowTextAt(init);
      assert RowText(row) == RowText(init) + "," + Bit(row[|row| - 1]);
      forall k | 0 <= k < |row| ensures RowText(row)[2 * k] == (if row[k] then '1' else '0') {
        if k < |row| - 1 {
          assert init[k] == row[k];
        }
      }
    }
  }

  /** The text of the first row of the four-set example matrix of minhash_test.go. */
  lemma RowTextExampleOne()
    ensures RowText([true, false, false, true]) == "1,0,0,1"
  {
    var r := [true, false, false, true];
    assert RowText([true]) == "1";
    assert RowText([true, false]) == "1,0" by { assert [true, false][..1] == [true]; }
    assert RowText([true, false, false]) == "1,0,0" by { assert [true, false, false][..2] == [true, false]; }
    assert r[..3] == [true, false, false];
  }

  /** The text of the second row of the same example. */
  lemma RowTextExampleTwo()
    ensures RowText([false, false, true, false]) == "0,0,1,0"
  {
    var r := [false, false, true, false];
    assert RowText([false]) == "0";
    assert RowText([false, false]) == "0,0" by { assert [false, false][..1] == [false]; }
    assert RowText([false, false, true]) == "0,0,1" by { assert [false, false, true][..2] == [false, false]; }
    assert r[..3] == [false, false, true];
  }

  /** The rendering of the first two rows of the four-set example matrix of minhash_test.go. */
  lemma RenderExample()
    ensures MatrixText([[true, false, false, true], [false, false, true, false]]) == "1,0,0,1\n0,0,1,0"
  {
    var r0, r1 := [true, false, false, true], [false, false, true, false];
    RowTextExampleOne();
    RowTextExampleTwo();
    assert [r0, r1][..1] == [r0];
  }
}
