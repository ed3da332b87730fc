/** Small vocabulary shared by every module of the model. */
module Common {

  /** An optional value: stands for the source's "not a number" sentinel and nil pointers. */
  datatype Option<T> = None | Some(value: T)

  /** The set of the elements of a sequence (the key set of a Go `map[T]bool` built from it). */
  function Elems<T>(s: seq<T>): set<T>
  {
    set x | x in s
  }

  lemma ElemsEmpty<T>(s: seq<T>)
    ensures Elems(s) == {} <==> s == []
  {
    if s != [] {
      assert s[0] in Elems(s);
    }
  }

  /** Every element of `a` is an element of `b`. */
  predicate Within<T(==)>(a: seq<T>, b: seq<T>)
  {
    forall i :: 0 <= i < |a| ==> a[i] in b
  }

  /** No element occurs twice. */
  predicate NoDup<T(==)>(s: seq<T>)
  {
    forall i, j :: 0 <= i < j < |s| ==> s[i] != s[j]
  }

  /**
   * The `seen`-map idiom of the source: each of `news`, in order, is appended to `out`
   * unless it is already there.
   */
  function AddUnseen<T(==)>(out: seq<T>, news: seq<T>): seq<T>
    decreases |news|
  {
    if news == [] then out
    else AddUnseen(if news[0] in out then out else out + [news[0]], news[1..])
  }

  /**
   * What the `seen` idiom promises: the result extends `out`, holds exactly the elements of
   * `out` and `news`, and repeats nothing when `out` repeats nothing.
   */
  lemma AddUnseenProperties<T>(out: seq<T>, news: seq<T>)
    ensures NoDup(out) ==> NoDup(AddUnseen(out, news))
    ensures Within(AddUnseen(out, news), out + news) && Within(out + news, AddUnseen(out, news))
    ensures |out| <= |AddUnseen(out, news)| && AddUnseen(out, news)[..|out|] == out
  {
    AddUnseenNoDup(out, news);
    AddUnseenWithin(out, news);
    AddUnseenPrefix(out, news);
  }

  lemma {:induction false} AddUnseenNoDup<T>(out: seq<T>, news: seq<T>)
    ensures NoDup(out) ==> NoDup(AddUnseen(out, news))
    decreases |news|
  {
    if news != [] {
      var next := if news[0] in out then out else out + [news[0]];
      AddUnseenNoDup(next, news[1..]);
    }
  }

  lemma {:induction false} AddUnseenPrefix<T>(out: seq<T>, news: seq<T>)
    ensures |out| <= |AddUnseen(out, news)| && AddUnseen(out, news)[..|out|] == out
    decreases |news|
  {
    if news != [] {
      var next := if news[0] in out then out else out + [news[0]];
      AddUnseenPrefix(next, news[1..]);
      var r := AddUnseen(next, news[1..]);
      assert r[..|out|] == r[..|next|][..|out|];
    }
  }

  lemma {:induction false} AddUnseenWithin<T>(out: seq<T>, news: seq<T>)
    ensures Within(AddUnseen(out, news), out + news) && Within(out + news, AddUnseen(out, news))
    decreases |news|
  {
    if news != [] {
      var next := if news[0] in out then out else out + [news[0]];
      AddUnseenWithin(next, news[1..]);
      assert Within(out + news, next + news[1..]) by {
        forall i | 0 <= i < |out + news| ensures (out + news)[i] in next + news[1..] {
          if i < |out| { assert (out + news)[i] == next[i]; }
          else if i == |out| { assert (out + news)[i] == news[0]; }
          else { assert (out + news)[i] == news[1..][i - |out| - 1]; }
        }
      }
      assert Within(next + news[1..], out + news) by {
        forall i | 0 <= i < |next + news[1..]| ensures (next + news[1..])[i] in out + news {
          if i < |next| {
            assert (next + news[1..])[i] == next[i];
            if i == |out| { assert next[i] == (out + news)[|out|]; } else { assert next[i] == (out + news)[i]; }
          } else {
            assert (next + news[1..])[i] == (out + news)[|out| + 1 + i - |next|];
          }
        }
      }
    }
  }

  /** A sequence with every repeated element dropped, first occurrences kept. */
  function Dedup<T(==)>(s: seq<T>): seq<T>
  {
    AddUnseen([], s)
  }

  /**
   * Reference definition of de-duplication, independent of the `seen` idiom: the elements of
   * `s` that do not occur earlier in `s`, in the order of `s`.
   */
  function FirstOccurrences<T(==)>(s: seq<T>): seq<T>
  {
    if s == [] then []
    else
      var n := |s| - 1;
      FirstOccurrences(s[..n]) + (if s[n] in s[..n] then [] else [s[n]])
  }

  /** The first occurrences are exactly the elements of `s`. */
  lemma {:induction false} FirstOccurrencesWithin<T>(s: seq<T>)
    ensures Within(FirstOccurrences(s), s) && Within(s, FirstOccurrences(s))
  {
    if s != [] {
      var n := |s| - 1;
      FirstOccurrencesWithin(s[..n]);
      assert s == s[..n] + [s[n]];
      var f := FirstOccurrences(s);
      assert Within(s, f) by {
        forall i | 0 <= i < |s| ensures s[i] in f {
          if i < n { assert s[..n][i] == s[i]; }
        }
      }
    }
  }

  lemma {:induction false} AddUnseenAppend<T>(out: seq<T>, a: seq<T>, b: seq<T>)
    ensures AddUnseen(out, a + b) == AddUnseen(AddUnseen(out, a), b)
    decreases |a|
  {
    if a == [] {
      assert a + b == b;
    } else {
      assert (a + b)[0] == a[0];
      assert (a + b)[1..] == a[1..] + b;
      var next := if a[0] in out then out else out + [a[0]];
      AddUnseenAppend(next, a[1..], b);
    }
  }

  /** Dedup(a + b) continues Dedup(a): the `seen` idiom may be run in pieces. */
  lemma DedupAppend<T>(a: seq<T>, b: seq<T>)
    ensures Dedup(a + b) == AddUnseen(Dedup(a), b)
  {
    AddUnseenAppend([], a, b);
  }

  lemma {:induction false} AddUnseenFirstOccurrences<T>(p: seq<T>, q: seq<T>)
    ensures AddUnseen(FirstOccurrences(p), q) == FirstOccurrences(p + q)
    decreases |q|
  {
    if q == [] {
      assert p + q == p;
    } else {
      var x := q[0];
      var p' := p + [x];
      var fp := FirstOccurrences(p);
      FirstOccurrencesWithin(p);
      assert x in fp <==> x in p by {
        if x in fp { var i :| 0 <= i < |fp| && fp[i] == x; assert fp[i] in p; }
        if x in p { var i :| 0 <= i < |p| && p[i] == x; assert p[i] in fp; }
      }
      StepFirstOccurrences(p, x);
      var next := if x in fp then fp else fp + [x];
      assert next == FirstOccurrences(p');
      assert AddUnseen(fp, q) == AddUnseen(next, q[1..]);
      AddUnseenFirstOccurrences(p', q[1..]);
      ShiftHead(p, q);
    }
  }

  lemma ShiftHead<T>(p: seq<T>, q: seq<T>)
    requires q != []
    ensures (p + [q[0]]) + q[1..] == p + q
  {
    assert q == [q[0]] + q[1..];
  }

  lemma StepFirstOccurrences<T>(p: seq<T>, x: T)
    ensures FirstOccurrences(p + [x]) == FirstOccurrences(p) + (if x in p then [] else [x])
  {
    assert (p + [x])[..|p|] == p;
  }

  /**
   * The `seen` idiom keeps exactly the first occurrences, in the order in which they occur:
   * no element is reordered and no later repeat survives.
   */
  lemma DedupIsFirstOccurrences<T>(s: seq<T>)
    ensures Dedup(s) == FirstOccurrences(s)
  {
    AddUnseenFirstOccurrences([], s);
    assert [] + s == s;
  }

  /** Dedup never repeats an element and loses none. */
  lemma DedupProperties<T>(s: seq<T>)
    ensures NoDup(Dedup(s))
    ensures Within(Dedup(s), s) && Within(s, Dedup(s))
    ensures |Dedup(s)| <= |s|
  {
    AddUnseenProperties([], s);
    DedupLength([], s);
    assert [] + s == s;
  }

  lemma {:induction false} DedupLength<T>(out: seq<T>, news: seq<T>)
    ensures |AddUnseen(out, news)| <= |out| + |news|
    decreases |news|
  {
    if news != [] {
      var next := if news[0] in out then out else out + [news[0]];
      DedupLength(next, news[1..]);
    }
  }

  /** Dedup of a sequence that repeats nothing is the sequence itself. */
  lemma {:induction false} DedupOfDistinct<T>(s: seq<T>)
    requires NoDup(s)
    ensures Dedup(s) == s
  {
    DedupIsFirstOccurrences(s);
    FirstOccurrencesOfDistinct(s);
  }

  lemma {:induction false} FirstOccurrencesOfDistinct<T>(s: seq<T>)
    requires NoDup(s)
    ensures FirstOccurrences(s) == s
  {
    if s != [] {
      var n := |s| - 1;
      assert NoDup(s[..n]);
      FirstOccurrencesOfDistinct(s[..n]);
      assert s[n] !in s[..n];
      assert s[..n] + [s[n]] == s;
    }
  }

  /** Offering one more element after a batch: it is added exactly when it is not present yet. */
  lemma AddUnseenSnoc<T>(out: seq<T>, news: seq<T>, x: T)
    ensures AddUnseen(out, news + [x]) == var s := AddUnseen(out, news); if x in s then s else s + [x]
  {
    AddUnseenAppend(out, news, [x]);
  }

  /** The `seen`-set step: `x` is appended exactly when the set of emitted elements lacks it. */
  lemma EmitStep<T>(out: seq<T>, news: seq<T>, x: T, seen: set<T>)
    requires seen == Elems(AddUnseen(out, news))
    ensures x in seen ==> AddUnseen(out, news + [x]) == AddUnseen(out, news)
    ensures x !in seen ==> AddUnseen(out, news + [x]) == AddUnseen(out, news) + [x]
    ensures x !in seen ==> seen + {x} == Elems(AddUnseen(out, news) + [x])
  {
    AddUnseenSnoc(out, news, x);
  }

  /** Go's two ways of deleting element `i` of a slice (re-slicing the prefix when `i` is last). */
  function DeleteAt<T>(s: seq<T>, i: nat): (r: seq<T>)
    requires i < |s|
    ensures r == s[..i] + s[i + 1..]
  {
    if i == |s| - 1 then s[..i] else s[..i] + s[i + 1..]
  }

  /** The keys of a map, in the unspecified order in which a Go `range` loop visits them. */
  method CollectKeys<K, V>(m: map<K, V>) returns (keys: seq<K>)
    ensures NoDup(keys) && Elems(keys) == m.Keys && |keys| == |m|
  {
    keys := [];
    var rest := m.Keys;
    while rest != {}
      invariant rest <= m.Keys
      invariant forall k :: k in keys <==> k in m && k !in rest
      invariant NoDup(keys) && |keys| + |rest| == |m|
      decreases |rest|
    {
      var key :| key in rest;
      keys := keys + [key];
      rest := rest - {key};
    }
  }

  /** A permutation of a sequence without repeats has the same elements and no repeats either. */
  lemma SameElements<T>(a: seq<T>, b: seq<T>)
    requires NoDup(a) && multiset(a) == multiset(b)
    ensures NoDup(b) && Elems(b) == Elems(a)
  {
    forall x ensures x in Elems(a) <==> x in Elems(b) {
      assert x in Elems(a) <==> x in multiset(a);
      assert x in Elems(b) <==> x in multiset(b);
    }
    forall i, j | 0 <= i < j < |b| ensures b[i] != b[j] {
      if b[i] == b[j] {
        var x := b[i];
        assert multiset(b)[x] >= 2 by {
          assert b == b[..i] + [x] + b[i + 1..j] + [x] + b[j + 1..];
        }
        OccursOnce(a, x);
      }
    }
  }

  lemma {:induction false} OccursOnce<T>(a: seq<T>, x: T)
    requires NoDup(a)
    ensures multiset(a)[x] <= 1
  {
    if a != [] {
      OccursOnce(a[1..], x);
      assert a == [a[0]] + a[1..];
      if a[0] == x {
        assert x !in a[1..];
      }
    }
  }

  /** How many of `puts` are the pair `(a, b)`. */
  function CountPair(puts: seq<(int, int)>, a: int, b: int): nat
  {
    if puts == [] then 0 else (if puts[0] == (a, b) then 1 else 0) + CountPair(puts[1..], a, b)
  }

  lemma {:induction false} CountPairAppend(p: seq<(int, int)>, q: seq<(int, int)>, a: int, b: int)
    ensures CountPair(p + q, a, b) == CountPair(p, a, b) + CountPair(q, a, b)
    decreases |p|
  {
    if p == [] {
      assert p + q == q;
    } else {
      assert (p + q)[1..] == p[1..] + q;
      CountPairAppend(p[1..], q, a, b);
    }
  }

  /** One more put adds one to the count of its own pair and nothing to the others. */
  lemma CountPairSnoc(p: seq<(int, int)>, u: (int, int), a: int, b: int)
    ensures CountPair(p + [u], a, b) == CountPair(p, a, b) + (if u == (a, b) then 1 else 0)
  {
    CountPairAppend(p, [u], a, b);
    assert [u][1..] == [];
  }
}
