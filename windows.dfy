/**
 * The sliding-window scheme shared by both shinglers: while a stream is read item by item,
 * a window may open at an item, every open window collects the items that follow, and a
 * window that reaches `k` items is emitted and closed.
 */
module Windows {
  import opened Common


  /** A window holding `len` items is still open: it has not reached `k` (a `k` below 1 is never reached). */
  predicate Alive(len: int, k: int)
  {
    k < 1 || len < k
  }

  /** The window opened for item `x`, if one is opened there. */
  function Fresh<T>(x: T, isOpen: T -> bool): seq<seq<T>>
  {
    if isOpen(x) then [[]] else []
  }

  /**
   * One pass of the inner loop: `x` is appended to every window, and the windows that reach
   * `k` items leave the list; the others keep their relative order.
   */
  function Advance<T>(cands: seq<seq<T>>, x: T, k: int): seq<seq<T>>
  {
    if cands == [] then []
    else
      var w := cands[0] + [x];
      (if |w| == k then [] else [w]) + Advance(cands[1..], x, k)
  }

  /** The windows that the same pass completes, in list order. */
  function Completed<T>(cands: seq<seq<T>>, x: T, k: int): seq<seq<T>>
  {
    if cands == [] then []
    else
      var w := cands[0] + [x];
      (if |w| == k then [w] else []) + Completed(cands[1..], x, k)
  }

  /**
   * Reference description of the open windows once all of `xs` has been read: for each
   * position from `p` on where a window opened and has not yet reached `k`, the items from
   * that position to the end, in order of position.
   */
  function Pending<T>(xs: seq<T>, isOpen: T -> bool, k: int, p: nat): seq<seq<T>>
    requires p <= |xs|
    decreases |xs| - p
  {
    if p == |xs| then []
    else (if isOpen(xs[p]) && Alive(|xs| - p, k) then [xs[p..]] else []) + Pending(xs, isOpen, k, p + 1)
  }

  /**
   * Reference description of the emitted windows: every run of `k` items whose first item
   * opens a window, in the order in which the runs end.
   */
  function Finished<T>(xs: seq<T>, isOpen: T -> bool, k: int): seq<seq<T>>
  {
    if xs == [] then []
    else
      var n := |xs|;
      Finished(xs[..n - 1], isOpen, k) + (if 1 <= k <= n && isOpen(xs[n - k]) then [xs[n - k..]] else [])
  }

  /**
   * A pass splits the windows in two: those that stay open never hold `k` items, those that
   * complete hold exactly `k`, and no window is lost or duplicated.
   */
  lemma {:induction false} AdvanceShape<T>(cands: seq<seq<T>>, x: T, k: int)
    ensures forall i :: 0 <= i < |Advance(cands, x, k)| ==> |Advance(cands, x, k)[i]| != k
    ensures forall i :: 0 <= i < |Completed(cands, x, k)| ==> |Completed(cands, x, k)[i]| == k
    ensures |Advance(cands, x, k)| + |Completed(cands, x, k)| == |cands|
  {
    if cands != [] {
      AdvanceShape(cands[1..], x, k);
    }
  }

  /** Every open window holds at least one item and fewer than `k`. */
  lemma {:induction false} PendingShape<T>(xs: seq<T>, isOpen: T -> bool, k: int, p: nat)
    requires p <= |xs|
    ensures forall i :: 0 <= i < |Pending(xs, isOpen, k, p)| ==>
      1 <= |Pending(xs, isOpen, k, p)[i]| && Alive(|Pending(xs, isOpen, k, p)[i]|, k)
    decreases |xs| - p
  {
    if p < |xs| {
      PendingShape(xs, isOpen, k, p + 1);
    }
  }

  /** Every emitted window holds exactly `k` items. */
  lemma {:induction false} FinishedShape<T>(xs: seq<T>, isOpen: T -> bool, k: int)
    ensures forall i :: 0 <= i < |Finished(xs, isOpen, k)| ==> |Finished(xs, isOpen, k)[i]| == k
  {
    if xs != [] {
      FinishedShape(xs[..|xs| - 1], isOpen, k);
    }
  }

  /** The last item of a non-empty stream completes at most the run of `k` items that ends with it. */
  lemma FinishedUnfold<T>(xs: seq<T>, isOpen: T -> bool, k: int)
    requires xs != []
    ensures Finished(xs, isOpen, k) == Finished(xs[..|xs| - 1], isOpen, k) + RunEndingAt(xs, isOpen, k, 0)
  {
  }

  /** Window `w` is the run of `k` items of `xs` starting at `p`, and `p` opens a window. */
  predicate StartsAt<T(==)>(xs: seq<T>, isOpen: T -> bool, k: int, p: int, w: seq<T>)
  {
    0 <= p && 1 <= k && p + k <= |xs| && isOpen(xs[p]) && w == xs[p..p + k]
  }

  /** A pass over a concatenation of window lists is the two passes concatenated. */
  lemma AdvanceAppend<T>(a: seq<seq<T>>, b: seq<seq<T>>, x: T, k: int)
    ensures Advance(a + b, x, k) == Advance(a, x, k) + Advance(b, x, k)
    ensures Completed(a + b, x, k) == Completed(a, x, k) + Completed(b, x, k)
  {
    AdvanceOnlyAppend(a, b, x, k);
    CompletedAppend(a, b, x, k);
  }

  lemma {:induction false} AdvanceOnlyAppend<T>(a: seq<seq<T>>, b: seq<seq<T>>, x: T, k: int)
    ensures Advance(a + b, x, k) == Advance(a, x, k) + Advance(b, x, k)
    decreases |a|
  {
    if a == [] {
      assert a + b == b;
    } else {
      assert (a + b)[0] == a[0];
      assert (a + b)[1..] == a[1..] + b;
      AdvanceOnlyAppend(a[1..], b, x, k);
      var w := a[0] + [x];
      var h := if |w| == k then [] else [w];
      assert Advance(a + b, x, k) == h + Advance(a[1..] + b, x, k);
      assert h + (Advance(a[1..], x, k) + Advance(b, x, k)) == (h + Advance(a[1..], x, k)) + Advance(b, x, k);
    }
  }

  lemma {:induction false} CompletedAppend<T>(a: seq<seq<T>>, b: seq<seq<T>>, x: T, k: int)
    ensures Completed(a + b, x, k) == Completed(a, x, k) + Completed(b, x, k)
    decreases |a|
  {
    if a == [] {
      assert a + b == b;
    } else {
      assert (a + b)[0] == a[0];
      assert (a + b)[1..] == a[1..] + b;
      CompletedAppend(a[1..], b, x, k);
      var w := a[0] + [x];
      var h := if |w| == k then [w] else [];
      assert Completed(a + b, x, k) == h + Completed(a[1..] + b, x, k);
      assert h + (Completed(a[1..], x, k) + Completed(b, x, k)) == (h + Completed(a[1..], x, k)) + Completed(b, x, k);
    }
  }

  /** Advancing the first `j + 1` windows is advancing the first `j` and then window `j`. */
  lemma AdvancePrefix<T>(cands: seq<seq<T>>, j: nat, x: T, k: int)
    requires j < |cands|
    ensures Advance(cands[..j + 1], x, k) == Advance(cands[..j], x, k) + Advance([cands[j]], x, k)
    ensures Completed(cands[..j + 1], x, k) == Completed(cands[..j], x, k) + Completed([cands[j]], x, k)
  {
    assert cands[..j + 1] == cands[..j] + [cands[j]];
    AdvanceAppend(cands[..j], [cands[j]], x, k);
  }

  /** The window that position `p` contributes to Pending, if any. */
  function OpenAt<T>(xs: seq<T>, isOpen: T -> bool, k: int, p: nat): seq<seq<T>>
    requires p < |xs|
  {
    if isOpen(xs[p]) && Alive(|xs| - p, k) then [xs[p..]] else []
  }

  lemma PendingUnfold<T>(xs: seq<T>, isOpen: T -> bool, k: int, p: nat)
    requires p < |xs|
    ensures Pending(xs, isOpen, k, p) == OpenAt(xs, isOpen, k, p) + Pending(xs, isOpen, k, p + 1)
  {
  }

  /** The run of `k` items that ends with `x`, if its first item opens a window. */
  function RunEndingAt<T>(ys: seq<T>, isOpen: T -> bool, k: int, p: nat): seq<seq<T>>
  {
    var n := |ys|;
    if 1 <= k && p + k <= n && isOpen(ys[n - k]) then [ys[n - k..]] else []
  }

  /** The step for a fresh window: it receives `x` and is open or complete according to `k`. */
  lemma StepFresh<T>(xs: seq<T>, isOpen: T -> bool, k: int, x: T)
    ensures Advance(Fresh(x, isOpen), x, k) == Pending(xs + [x], isOpen, k, |xs|)
    ensures Completed(Fresh(x, isOpen), x, k) == RunEndingAt(xs + [x], isOpen, k, |xs|)
  {
    var ys := xs + [x];
    var n := |xs|;
    PendingUnfold(ys, isOpen, k, n);
    assert Pending(ys, isOpen, k, n + 1) == [];
    assert ys[n..] == [x];
    assert ys[n] == x;
    if isOpen(x) {
      assert Fresh(x, isOpen) == [[]];
      assert [] + [x] == [x];
      assert Advance([[]], x, k) == (if 1 == k then [] else [[x]]) + Advance([], x, k);
      assert Completed([[]], x, k) == (if 1 == k then [[x]] else []) + Completed([], x, k);
    }
  }

  /** The step for the window opened at `p`: extending it by `x` gives the window at `p` over `xs + [x]`. */
  lemma StepOpenAt<T>(xs: seq<T>, isOpen: T -> bool, k: int, x: T, p: nat)
    requires p < |xs|
    ensures Advance(OpenAt(xs, isOpen, k, p), x, k) == OpenAt(xs + [x], isOpen, k, p)
    ensures Completed(OpenAt(xs, isOpen, k, p), x, k)
         == (if 1 <= k && p + k == |xs| + 1 && isOpen(xs[p]) then [(xs + [x])[p..]] else [])
  {
    var ys := xs + [x];
    var n := |xs|;
    assert ys[p] == xs[p];
    assert xs[p..] + [x] == ys[p..];
    if isOpen(xs[p]) && Alive(n - p, k) {
      assert Advance([xs[p..]], x, k) == (if n - p + 1 == k then [] else [ys[p..]]) + Advance([], x, k);
      assert Completed([xs[p..]], x, k) == (if n - p + 1 == k then [ys[p..]] else []) + Completed([], x, k);
    }
  }

  /**
   * The step that keeps the inner loop faithful to the reference: opening the window for `x`
   * and advancing every open window by `x` leaves exactly the windows open over `xs + [x]`,
   * and completes at most the one run of `k` items that ends at `x`.
   */
  lemma {:induction false} Step<T>(xs: seq<T>, isOpen: T -> bool, k: int, x: T, p: nat)
    requires p <= |xs|
    ensures Advance(Pending(xs, isOpen, k, p) + Fresh(x, isOpen), x, k) == Pending(xs + [x], isOpen, k, p)
    ensures Completed(Pending(xs, isOpen, k, p) + Fresh(x, isOpen), x, k) == RunEndingAt(xs + [x], isOpen, k, p)
    decreases |xs| - p
  {
    var ys := xs + [x];
    var n := |xs|;
    if p == n {
      assert Pending(xs, isOpen, k, p) == [];
      assert [] + Fresh(x, isOpen) == Fresh(x, isOpen);
      StepFresh(xs, isOpen, k, x);
    } else {
      var head := OpenAt(xs, isOpen, k, p);
      var rest := Pending(xs, isOpen, k, p + 1);
      PendingUnfold(xs, isOpen, k, p);
      PendingUnfold(ys, isOpen, k, p);
      assert Pending(xs, isOpen, k, p) + Fresh(x, isOpen) == head + (rest + Fresh(x, isOpen));
      AdvanceAppend(head, rest + Fresh(x, isOpen), x, k);
      Step(xs, isOpen, k, x, p + 1);
      StepOpenAt(xs, isOpen, k, x, p);
      if 1 <= k && p + k == n + 1 {
        assert ys[n + 1 - k] == xs[p];
        assert RunEndingAt(ys, isOpen, k, p + 1) == [];
      } else {
        assert RunEndingAt(ys, isOpen, k, p) == RunEndingAt(ys, isOpen, k, p + 1);
      }
    }
  }

  /** Completing the step for a whole stream: the emitted windows grow exactly as Finished does. */
  lemma StepFinished<T>(xs: seq<T>, isOpen: T -> bool, k: int, x: T)
    ensures Advance(Pending(xs, isOpen, k, 0) + Fresh(x, isOpen), x, k) == Pending(xs + [x], isOpen, k, 0)
    ensures Finished(xs + [x], isOpen, k)
         == Finished(xs, isOpen, k) + Completed(Pending(xs, isOpen, k, 0) + Fresh(x, isOpen), x, k)
  {
    Step(xs, isOpen, k, x, 0);
    assert (xs + [x])[..|xs|] == xs;
  }

  /**
   * Finished, stated without recursion: a window is emitted exactly when it is the run of `k`
   * items from a position that opens a window.
   */
  lemma FinishedMembers<T>(xs: seq<T>, isOpen: T -> bool, k: int, w: seq<T>)
    ensures w in Finished(xs, isOpen, k) <==> exists p :: StartsAt(xs, isOpen, k, p, w)
  {
    if w in Finished(xs, isOpen, k) {
      var p := FinishedStart(xs, isOpen, k, w);
    }
    if exists p :: StartsAt(xs, isOpen, k, p, w) {
      var p :| StartsAt(xs, isOpen, k, p, w);
      StartIsFinished(xs, isOpen, k, p, w);
    }
  }

  lemma {:induction false} FinishedStart<T>(xs: seq<T>, isOpen: T -> bool, k: int, w: seq<T>) returns (p: int)
    requires w in Finished(xs, isOpen, k)
    ensures StartsAt(xs, isOpen, k, p, w)
    decreases |xs|
  {
    var pre := xs[..|xs| - 1];
    FinishedUnfold(xs, isOpen, k);
    if w in Finished(pre, isOpen, k) {
      p := FinishedStart(pre, isOpen, k, w);
      StartsAtPrefix(xs, isOpen, k, p, w);
    } else {
      p := |xs| - k;
    }
  }

  /** A run inside all but the last item of `xs` is the same run of `xs`. */
  lemma StartsAtPrefix<T>(xs: seq<T>, isOpen: T -> bool, k: int, p: int, w: seq<T>)
    requires xs != []
    ensures StartsAt(xs[..|xs| - 1], isOpen, k, p, w) <==> StartsAt(xs, isOpen, k, p, w) && p + k < |xs|
  {
    var pre := xs[..|xs| - 1];
    if 0 <= p && 1 <= k && p + k < |xs| {
      assert pre[p] == xs[p];
      assert pre[p..p + k] == xs[p..p + k];
    }
  }

  /** The run of `k` items that ends at the last item, when it opens a window. */
  lemma StartsAtLast<T>(xs: seq<T>, isOpen: T -> bool, k: int, p: int, w: seq<T>)
    requires StartsAt(xs, isOpen, k, p, w) && p + k == |xs|
    ensures RunEndingAt(xs, isOpen, k, 0) == [w]
  {
    assert xs[p..p + k] == xs[|xs| - k..];
  }

  lemma {:induction false} StartIsFinished<T>(xs: seq<T>, isOpen: T -> bool, k: int, p: int, w: seq<T>)
    requires StartsAt(xs, isOpen, k, p, w)
    ensures w in Finished(xs, isOpen, k)
    decreases |xs|
  {
    var pre := xs[..|xs| - 1];
    FinishedUnfold(xs, isOpen, k);
    StartsAtPrefix(xs, isOpen, k, p, w);
    if p + k < |xs| {
      StartIsFinished(pre, isOpen, k, p, w);
    } else {
      StartsAtLast(xs, isOpen, k, p, w);
    }
  }

  /** One pass of the in-place loop over a window that stays open: it is extended and kept. */
  lemma KeepStep<T>(cur: seq<seq<T>>, i: nat, cands: seq<seq<T>>, j: nat, x: T, k: int)
    requires i < |cur| && j < |cands|
    requires cur[..i] == Advance(cands[..j], x, k) && cur[i..] == cands[j..]
    requires |cur[i] + [x]| != k
    ensures cur[i := cur[i] + [x]][..i + 1] == Advance(cands[..j + 1], x, k)
    ensures cur[i := cur[i] + [x]][i + 1..] == cands[j + 1..]
    ensures Completed(cands[..j + 1], x, k) == Completed(cands[..j], x, k)
  {
    assert cur[i] == cands[j];
    AdvancePrefix(cands, j, x, k);
    var nxt := cur[i := cur[i] + [x]];
    assert nxt[..i + 1] == cur[..i] + [cur[i] + [x]];
    assert nxt[i + 1..] == cur[i + 1..];
    assert cur[i + 1..] == cur[i..][1..];
  }

  /** One pass of the in-place loop over a window that reaches length `k`: it is emitted and deleted. */
  lemma DropStep<T>(cur: seq<seq<T>>, i: nat, cands: seq<seq<T>>, j: nat, x: T, k: int)
    requires i < |cur| && j < |cands|
    requires cur[..i] == Advance(cands[..j], x, k) && cur[i..] == cands[j..]
    requires |cur[i] + [x]| == k
    ensures var nxt := DeleteAt(cur[i := cur[i] + [x]], i);
      && nxt[..i] == Advance(cands[..j + 1], x, k)
      && nxt[i..] == cands[j + 1..]
    ensures Completed(cands[..j + 1], x, k) == Completed(cands[..j], x, k) + [cur[i] + [x]]
  {
    assert cur[i] == cands[j];
    AdvancePrefix(cands, j, x, k);
    var nxt := cur[i := cur[i] + [x]];
    assert nxt[..i] == cur[..i];
    assert nxt[i + 1..] == cur[i + 1..];
    assert cur[i + 1..] == cur[i..][1..];
  }
}
