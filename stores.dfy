/**
 * The two candidate stores of lsh.go. `CandidatePairs` keys one entry by each unordered
 * pair of set numbers; `Candidates` keeps, for every set number, an adjacency map to the
 * sets that shared a bucket with it. Both count "elections": how often a pair was put.
 */
module Stores {
  import opened Common

  /** The text `fmt.Sprintf("%d_%d", a, b)`: two keys are equal exactly when both numbers are. */
  datatype PairKey = PairKey(a: int, b: int)

  datatype CandidatePair = CandidatePair(a: int, b: int, elections: int, signature: PairKey)

  /** `newCandidatePair`: the smaller number first, one election, keyed by the ordered pair. */
  function NewCandidatePair(a: int, b: int): (cp: CandidatePair)
    ensures cp.a <= cp.b && ((cp.a, cp.b) == (a, b) || (cp.a, cp.b) == (b, a))
    ensures cp.elections == 1 && cp.signature == PairKey(cp.a, cp.b)
  {
    if a > b then CandidatePair(b, a, 1, PairKey(b, a))
    else CandidatePair(a, b, 1, PairKey(a, b))
  }

  /** The order of the two numbers does not matter. */
  lemma NewCandidatePairSymmetric(a: int, b: int)
    ensures NewCandidatePair(a, b) == NewCandidatePair(b, a)
  {
  }

  /** The key a put of `(a, b)` lands on. */
  function KeyOf(p: (int, int)): PairKey
  {
    NewCandidatePair(p.0, p.1).signature
  }

  /** Every entry is filed under its own key, smaller number first, with at least one election. */
  predicate WellKeyed(index: map<PairKey, CandidatePair>)
  {
    forall k :: k in index ==>
      index[k].signature == k && index[k].a == k.a && index[k].b == k.b && k.a <= k.b && index[k].elections >= 1
  }

  /** `index` is `index0` after `Put(a, b)`: the pair's entry gained an election or was added; nothing else changed. */
  predicate PairPut(index0: map<PairKey, CandidatePair>, index: map<PairKey, CandidatePair>, a: int, b: int)
  {
    var k := KeyOf((a, b));
    index.Keys == index0.Keys + {k} &&
    (forall k' :: k' in index0 && k' != k ==> index[k'] == index0[k']) &&
    index[k] == if k in index0 then index0[k].(elections := index0[k].elections + 1) else NewCandidatePair(a, b)
  }

  /** The store after `Put(a, b)`, as a value. */
  function PairsAfter(index: map<PairKey, CandidatePair>, a: int, b: int): map<PairKey, CandidatePair>
  {
    var cp := NewCandidatePair(a, b);
    if cp.signature in index then index[cp.signature := index[cp.signature].(elections := index[cp.signature].elections + 1)]
    else index[cp.signature := cp]
  }

  /** A put changes only the entry of the pair's key, and keeps every entry well keyed. */
  lemma PairsAfterPut(index: map<PairKey, CandidatePair>, a: int, b: int)
    ensures PairPut(index, PairsAfter(index, a, b), a, b)
    ensures WellKeyed(index) ==> WellKeyed(PairsAfter(index, a, b))
  {
  }

  class CandidatePairs {
    var index: map<PairKey, CandidatePair>

    constructor ()
      ensures index == map[]
    {
      index := map[];
    }

    /** `Put`: one more election for the pair's key, or a new entry with one. */
    method Put(a: int, b: int)
      modifies this
      ensures index == PairsAfter(old(index), a, b)
      ensures PairPut(old(index), index, a, b)
      ensures WellKeyed(old(index)) ==> WellKeyed(index)
    {
      var cp := NewCandidatePair(a, b);
      if cp.signature in index {
        index := index[cp.signature := index[cp.signature].(elections := index[cp.signature].elections + 1)];
      } else {
        index := index[cp.signature := cp];
      }
      PairsAfterPut(old(index), a, b);
    }

    /** `Keys`: every key once, in the unspecified order of a map walk. */
    method Keys() returns (keys: seq<PairKey>)
      ensures NoDup(keys) && Elems(keys) == index.Keys && |keys| == |index|
    {
      keys := CollectKeys(index);
    }
  }

  /**
   * A pair store holds exactly the keys of `puts`, each with one election per put of it: the
   * state `Put` leaves after the puts, in any order, starting from an empty store.
   */
  ghost predicate PairsCount(index: map<PairKey, CandidatePair>, puts: seq<(int, int)>)
  {
    (forall k :: k in index ==> index[k] == CandidatePair(k.a, k.b, CountKey(puts, k), k) && CountKey(puts, k) > 0) &&
    forall k :: CountKey(puts, k) > 0 ==> k in index
  }

  /** How many of `puts` land on key `k`. */
  function CountKey(puts: seq<(int, int)>, k: PairKey): nat
  {
    if puts == [] then 0 else (if KeyOf(puts[0]) == k then 1 else 0) + CountKey(puts[1..], k)
  }

  lemma {:induction false} CountKeySnoc(puts: seq<(int, int)>, p: (int, int), k: PairKey)
    ensures CountKey(puts + [p], k) == CountKey(puts, k) + (if KeyOf(p) == k then 1 else 0)
    decreases |puts|
  {
    if puts == [] {
      assert [p][1..] == [];
    } else {
      assert (puts + [p])[1..] == puts[1..] + [p];
      CountKeySnoc(puts[1..], p, k);
    }
  }

  lemma EmptyPairsCount()
    ensures PairsCount(map[], [])
  {
  }

  /** One `Put` keeps the store in step with the puts made so far. */
  lemma PairsCountStep(index0: map<PairKey, CandidatePair>, index: map<PairKey, CandidatePair>, puts: seq<(int, int)>, a: int, b: int)
    requires PairsCount(index0, puts) && PairPut(index0, index, a, b)
    ensures PairsCount(index, puts + [(a, b)])
  {
    forall k | true ensures CountKey(puts + [(a, b)], k) == CountKey(puts, k) + (if KeyOf((a, b)) == k then 1 else 0) {
      CountKeySnoc(puts, (a, b), k);
    }
  }

  /** The pair store that the puts leave, made one `Put` at a time from an empty store. */
  function PairsIndex(puts: seq<(int, int)>): map<PairKey, CandidatePair>
  {
    if puts == [] then map[]
    else
      var n := |puts| - 1;
      PairsAfter(PairsIndex(puts[..n]), puts[n].0, puts[n].1)
  }

  /** Two puts in a row. */
  lemma PairsIndexTwo(puts: seq<(int, int)>, a: int, b: int)
    ensures PairsIndex(puts + [(a, b), (b, a)]) == PairsAfter(PairsAfter(PairsIndex(puts), a, b), b, a)
  {
    PairsIndexSnoc(puts, a, b);
    PairsIndexSnoc(puts + [(a, b)], b, a);
    assert puts + [(a, b)] + [(b, a)] == puts + [(a, b), (b, a)];
  }

  lemma PairsIndexSnoc(puts: seq<(int, int)>, a: int, b: int)
    ensures PairsIndex(puts + [(a, b)]) == PairsAfter(PairsIndex(puts), a, b)
  {
    assert (puts + [(a, b)])[..|puts|] == puts;
  }

  /** Whatever order the puts come in, the store ends up holding each key once with its count of puts. */
  lemma {:induction false} PairsIndexCount(puts: seq<(int, int)>)
    ensures PairsCount(PairsIndex(puts), puts) && WellKeyed(PairsIndex(puts))
  {
    if puts == [] {
      EmptyPairsCount();
    } else {
      var n := |puts| - 1;
      PairsIndexCount(puts[..n]);
      PairsAfterPut(PairsIndex(puts[..n]), puts[n].0, puts[n].1);
      PairsCountStep(PairsIndex(puts[..n]), PairsIndex(puts), puts[..n], puts[n].0, puts[n].1);
      assert puts[..n] + [(puts[n].0, puts[n].1)] == puts;
    }
  }

  /**
   * An unordered pair's key counts the puts of both orders: `(a, b)` and `(b, a)` land on the
   * same key, and nothing else does.
   */
  lemma {:induction false} KeyCount(puts: seq<(int, int)>, a: int, b: int)
    requires a < b
    ensures CountKey(puts, PairKey(a, b)) == CountPair(puts, a, b) + CountPair(puts, b, a)
    decreases |puts|
  {
    if puts != [] {
      KeyCount(puts[1..], a, b);
      if puts[0] != (a, b) && puts[0] != (b, a) {
        assert KeyOf(puts[0]) != PairKey(a, b);
      }
    }
  }

  /** Only the pair itself lands on the key of a pair of equal numbers. */
  lemma {:induction false} KeyCountSame(puts: seq<(int, int)>, a: int)
    ensures CountKey(puts, PairKey(a, a)) == CountPair(puts, a, a)
    decreases |puts|
  {
    if puts != [] {
      KeyCountSame(puts[1..], a);
    }
  }

  // ---------------------------------------------------------------------------------------
  // Candidates: one adjacency map per set number.

  datatype Candidate = Candidate(index: int, elections: int)

  /** Every candidate is filed under its own number and has at least one election. */
  predicate WellFiled(index: map<int, map<int, Candidate>>)
  {
    forall a, b :: a in index && b in index[a] ==> index[a][b].index == b && index[a][b].elections >= 1
  }

  /** The adjacency map of `a`, empty when there is none. */
  function Adjacent(index: map<int, map<int, Candidate>>, a: int): map<int, Candidate>
  {
    if a in index then index[a] else map[]
  }

  /** `index` is `index0` after `Put(a, b)`: only the entry `[a][b]` changed, gaining an election or being created. */
  predicate CandidatePut(index0: map<int, map<int, Candidate>>, index: map<int, map<int, Candidate>>, a: int, b: int)
  {
    index.Keys == index0.Keys + {a} &&
    (forall x :: x in index0 && x != a ==> index[x] == index0[x]) &&
    index[a].Keys == Adjacent(index0, a).Keys + {b} &&
    (forall y :: y in Adjacent(index0, a) && y != b ==> index[a][y] == index0[a][y]) &&
    index[a][b] == if b in Adjacent(index0, a) then index0[a][b].(elections := index0[a][b].elections + 1) else Candidate(b, 1)
  }

  /** Elections never increase first: no candidate has more elections than one before it. */
  predicate ByElections(s: seq<Candidate>)
  {
    forall i, j :: 0 <= i < j < |s| ==> s[i].elections >= s[j].elections
  }

  /** The store after `Put(a, b)`, as a value. */
  function AdjacencyAfter(index: map<int, map<int, Candidate>>, a: int, b: int): map<int, map<int, Candidate>>
  {
    var inner := Adjacent(index, a);
    if b in inner then index[a := inner[b := inner[b].(elections := inner[b].elections + 1)]]
    else index[a := inner[b := Candidate(b, 1)]]
  }

  /** A put changes only the entry `[a][b]`, and keeps every entry well filed. */
  lemma AdjacencyAfterPut(index: map<int, map<int, Candidate>>, a: int, b: int)
    ensures CandidatePut(index, AdjacencyAfter(index, a, b), a, b)
    ensures WellFiled(index) ==> WellFiled(AdjacencyAfter(index, a, b))
  {
  }

  class Candidates {
    var index: map<int, map<int, Candidate>>

    constructor ()
      ensures index == map[]
    {
      index := map[];
    }

    /** `Put`: candidate `b` joins, or gains an election in, the adjacency map of `a`. */
    method Put(a: int, b: int)
      modifies this
      ensures index == AdjacencyAfter(old(index), a, b)
      ensures CandidatePut(old(index), index, a, b)
      ensures WellFiled(old(index)) ==> WellFiled(index)
    {
      if a !in index {
        index := index[a := map[]];
      }
      if b !in index[a] {
        index := index[a := index[a][b := Candidate(b, 1)]];
      } else {
        index := index[a := index[a][b := index[a][b].(elections := index[a][b].elections + 1)]];
      }
      AdjacencyAfterPut(old(index), a, b);
    }

    /**
     * `GetByKey`: nothing for an unknown key, otherwise one slot per entry of the key's map,
     * each holding one of its candidates and each candidate present, in map-walk order.
     */
    method GetByKey(key: int) returns (r: seq<Candidate>)
      ensures key !in index ==> r == []
      ensures key in index ==> |r| == |index[key]|
      ensures key in index ==> forall c :: c in r <==> c in index[key].Values
      ensures WellFiled(index) ==> NoDup(r)
    {
      if key in index {
        var cndMap := index[key];
        var keys := CollectKeys(cndMap);
        r := ValuesOf(cndMap, keys);
        ListedValues(cndMap, keys, r);
        if WellFiled(index) {
          forall i, j | 0 <= i < j < |r| ensures r[i] != r[j] {
            assert r[i].index == keys[i] && r[j].index == keys[j];
          }
        }
      } else {
        r := [];
      }
    }

    /** `GetByKeySorted`: the candidates of GetByKey, reordered by non-increasing elections. */
    method GetByKeySorted(key: int) returns (r: seq<Candidate>)
      ensures key !in index ==> r == []
      ensures key in index ==> |r| == |index[key]|
      ensures key in index ==> forall c :: c in r <==> c in index[key].Values
      ensures WellFiled(index) ==> NoDup(r)
      ensures ByElections(r)
    {
      var candidates := GetByKey(key);
      r := SortByElections(candidates);
      if WellFiled(index) {
        SameElements(candidates, r);
      }
      assert forall c :: c in r <==> c in multiset(candidates);
    }
  }

  /** The loop of `GetByKey`: the slot `i` of a slice of the map's size gets the value of the `i`-th key walked. */
  method ValuesOf(m: map<int, Candidate>, keys: seq<int>) returns (r: seq<Candidate>)
    requires |keys| == |m| && forall i :: 0 <= i < |keys| ==> keys[i] in m
    ensures |r| == |keys| && forall i :: 0 <= i < |r| ==> r[i] == m[keys[i]]
  {
    var res := new Candidate[|m|](_ => Candidate(0, 0));
    for i := 0 to |keys|
      invariant forall j :: 0 <= j < i ==> res[j] == m[keys[j]]
    {
      res[i] := m[keys[i]];
    }
    r := res[..];
  }

  /** The values read along a walk of every key are the map's values. */
  lemma ListedValues(m: map<int, Candidate>, keys: seq<int>, r: seq<Candidate>)
    requires NoDup(keys) && Elems(keys) == m.Keys
    requires |r| == |keys| && forall i :: 0 <= i < |r| ==> r[i] == m[keys[i]]
    ensures forall c :: c in r <==> c in m.Values
  {
    forall c | c in m.Values ensures c in r {
      var b :| b in m && m[b] == c;
      assert b in Elems(keys);
      var j :| 0 <= j < |keys| && keys[j] == b;
      assert r[j] == c;
    }
    forall c | c in r ensures c in m.Values {
      var j :| 0 <= j < |r| && r[j] == c;
      assert keys[j] in Elems(keys);
    }
  }

  /** `x` placed in front of the first candidate with fewer elections. */
  function InsertByElections(x: Candidate, s: seq<Candidate>): seq<Candidate>
  {
    if s == [] || s[0].elections <= x.elections then [x] + s else [s[0]] + InsertByElections(x, s[1..])
  }

  lemma {:induction false} InsertByElectionsSorted(x: Candidate, s: seq<Candidate>)
    requires ByElections(s)
    ensures ByElections(InsertByElections(x, s))
    ensures multiset(InsertByElections(x, s)) == multiset(s) + multiset{x}
  {
    if s == [] || s[0].elections <= x.elections {
      HeadOnTop(x, s);
    } else {
      var t := InsertByElections(x, s[1..]);
      InsertByElectionsSorted(x, s[1..]);
      forall j | 0 <= j < |t| ensures t[j].elections <= s[0].elections {
        assert t[j] in multiset(s[1..]) + multiset{x};
        if t[j] != x {
          var k :| 0 <= k < |s[1..]| && s[1..][k] == t[j];
          assert s[k + 1] == t[j];
        }
      }
      HeadOnTop(s[0], t);
      assert s == [s[0]] + s[1..];
    }
  }

  /** A candidate with at least the elections of the first of an ordered list goes in front of it. */
  lemma HeadOnTop(x: Candidate, s: seq<Candidate>)
    requires ByElections(s)
    requires forall j :: 0 <= j < |s| ==> s[j].elections <= x.elections
    ensures ByElections([x] + s)
  {
    forall i, j | 0 <= i < j < |[x] + s| ensures ([x] + s)[i].elections >= ([x] + s)[j].elections {
      assert ([x] + s)[j] == s[j - 1];
      if i > 0 {
        assert ([x] + s)[i] == s[i - 1];
      }
    }
  }

  /**
   * The sort of `GetByKeySorted`, by the order "more elections first": the result is ordered
   * and a permutation of the input. Insertion stands for the library's algorithm.
   */
  method SortByElections(items: seq<Candidate>) returns (r: seq<Candidate>)
    ensures ByElections(r)
    ensures multiset(r) == multiset(items)
  {
    r := [];
    for i := 0 to |items|
      invariant ByElections(r)
      invariant multiset(r) == multiset(items[..i])
    {
      InsertByElectionsSorted(items[i], r);
      r := InsertByElections(items[i], r);
      assert items[..i + 1] == items[..i] + [items[i]];
    }
    assert items[..|items|] == items;
  }

  /**
   * An adjacency store holds, for every put `(a, b)`, candidate `b` under `a` with one election
   * per such put, and nothing else: the state `Put` leaves after the puts, from an empty store.
   */
  ghost predicate AdjacencyCount(index: map<int, map<int, Candidate>>, puts: seq<(int, int)>)
  {
    (forall a, b :: a in index && b in index[a] ==> index[a][b] == Candidate(b, CountPair(puts, a, b)) && CountPair(puts, a, b) > 0) &&
    forall a, b :: CountPair(puts, a, b) > 0 ==> a in index && b in index[a]
  }

  lemma EmptyAdjacencyCount()
    ensures AdjacencyCount(map[], [])
  {
  }

  /** One `Put` keeps the store in step with the puts made so far. */
  lemma AdjacencyCountStep(index0: map<int, map<int, Candidate>>, index: map<int, map<int, Candidate>>, puts: seq<(int, int)>, a: int, b: int)
    requires AdjacencyCount(index0, puts) && CandidatePut(index0, index, a, b)
    ensures AdjacencyCount(index, puts + [(a, b)])
  {
    var puts' := puts + [(a, b)];
    forall x, y | true ensures CountPair(puts', x, y) == CountPair(puts, x, y) + (if (a, b) == (x, y) then 1 else 0) {
      CountPairSnoc(puts, (a, b), x, y);
    }
    forall x, y | x in index && y in index[x]
      ensures index[x][y] == Candidate(y, CountPair(puts', x, y)) && CountPair(puts', x, y) > 0
    {
      if (x, y) != (a, b) {
        assert y in index0[x];
      }
    }
    forall x, y | CountPair(puts', x, y) > 0 ensures x in index && y in index[x] {
      if (x, y) != (a, b) {
        assert CountPair(puts, x, y) > 0;
        assert y in index0[x];
        if x == a {
          assert y in Adjacent(index0, a);
        }
      }
    }
  }

  /** The adjacency store that the puts leave, made one `Put` at a time from an empty store. */
  function AdjacencyIndex(puts: seq<(int, int)>): map<int, map<int, Candidate>>
  {
    if puts == [] then map[]
    else
      var n := |puts| - 1;
      AdjacencyAfter(AdjacencyIndex(puts[..n]), puts[n].0, puts[n].1)
  }

  /** Two puts in a row. */
  lemma AdjacencyIndexTwo(puts: seq<(int, int)>, a: int, b: int)
    ensures AdjacencyIndex(puts + [(a, b), (b, a)]) == AdjacencyAfter(AdjacencyAfter(AdjacencyIndex(puts), a, b), b, a)
  {
    AdjacencyIndexSnoc(puts, a, b);
    AdjacencyIndexSnoc(puts + [(a, b)], b, a);
    assert puts + [(a, b)] + [(b, a)] == puts + [(a, b), (b, a)];
  }

  lemma AdjacencyIndexSnoc(puts: seq<(int, int)>, a: int, b: int)
    ensures AdjacencyIndex(puts + [(a, b)]) == AdjacencyAfter(AdjacencyIndex(puts), a, b)
  {
    assert (puts + [(a, b)])[..|puts|] == puts;
  }

  /** Whatever order the puts come in, the store ends up holding each put pair once with its count of puts. */
  lemma {:induction false} AdjacencyIndexCount(puts: seq<(int, int)>)
    ensures AdjacencyCount(AdjacencyIndex(puts), puts) && WellFiled(AdjacencyIndex(puts))
  {
    if puts == [] {
      EmptyAdjacencyCount();
    } else {
      var n := |puts| - 1;
      AdjacencyIndexCount(puts[..n]);
      AdjacencyAfterPut(AdjacencyIndex(puts[..n]), puts[n].0, puts[n].1);
      AdjacencyCountStep(AdjacencyIndex(puts[..n]), AdjacencyIndex(puts), puts[..n], puts[n].0, puts[n].1);
      assert puts[..n] + [(puts[n].0, puts[n].1)] == puts;
    }
  }

  /** Every set number in the store has at least one candidate. */
  predicate Filled(index: map<int, map<int, Candidate>>)
  {
    forall a :: a in index ==> exists b :: b in index[a]
  }

  /**
   * A set is filed only together with a candidate: `Put` makes the adjacency map of `a` and
   * fills it in the same call, so no set number maps to an empty map.
   */
  lemma {:induction false} AdjacencyIndexFilled(puts: seq<(int, int)>)
    ensures Filled(AdjacencyIndex(puts))
  {
    if puts != [] {
      var n := |puts| - 1;
      var a, b := puts[n].0, puts[n].1;
      var index0 := AdjacencyIndex(puts[..n]);
      AdjacencyIndexFilled(puts[..n]);
      AdjacencyAfterPut(index0, a, b);
      forall x | x in AdjacencyIndex(puts) ensures exists y :: y in AdjacencyIndex(puts)[x] {
        if x == a {
          assert b in AdjacencyIndex(puts)[x];
        } else {
          var y :| y in index0[x];
          assert y in AdjacencyIndex(puts)[x];
        }
      }
    }
  }
}
