/**
 * Jaccard similarity of similarity.go: the size of the intersection of the two inputs'
 * element sets over the size of their union. The model returns the numerator and the
 * denominator as naturals; the source divides them as floating-point numbers.
 */
module Similarity {
  import opened Common

  /** A ratio of two naturals, kept undivided. */
  datatype Ratio = Ratio(num: nat, den: nat)

  /**
   * The Jaccard index of the element sets of `a` and `b`, as an undivided ratio. The
   * intersection is never larger than the union, so the ratio lies in [0, 1]; the
   * denominator is 0, and the source's division is 0/0, exactly when both inputs are empty.
   */
  function JaccardRatio(a: seq<string>, b: seq<string>): (r: Ratio)
    ensures r.num <= r.den
    ensures r.den == 0 <==> a == [] && b == []
  {
    SubsetSize(Elems(a) * Elems(b), Elems(a) + Elems(b));
    assert a != [] ==> a[0] in Elems(a) + Elems(b);
    assert b != [] ==> b[0] in Elems(a) + Elems(b);
    Ratio(|Elems(a) * Elems(b)|, |Elems(a) + Elems(b)|)
  }

  /** The first `i` elements of `s`, or all of them when `s` is shorter. */
  function Upto<T>(s: seq<T>, i: nat): seq<T>
  {
    if i < |s| then s[..i] else s
  }

  /** One more index adds its element to the elements seen so far. */
  lemma UptoStep(s: seq<string>, i: nat)
    requires i < |s|
    ensures Elems(Upto(s, i + 1)) == Elems(Upto(s, i)) + {s[i]}
  {
    assert Upto(s, i + 1) == Upto(s, i) + [s[i]];
  }

  /**
   * `Jaccard`: one index loop fills the element sets of both inputs and their union, then
   * the intersection is taken. A Go `map[string]bool` whose values are all `true` is a set.
   */
  method Jaccard(a: seq<string>, b: seq<string>) returns (r: Ratio)
    ensures r == JaccardRatio(a, b)
  {
    var setA: set<string> := {};
    var setB: set<string> := {};
    var union: set<string> := {};
    var i := 0;
    while i < |a| || i < |b|
      invariant i <= |a| || i <= |b|
      invariant setA == Elems(Upto(a, i)) && setB == Elems(Upto(b, i))
      invariant union == setA + setB
      decreases |a| + |b| - i
    {
      if i < |a| {
        UptoStep(a, i);
        setA := setA + {a[i]};
        union := union + {a[i]};
      }
      if i < |b| {
        UptoStep(b, i);
        setB := setB + {b[i]};
        union := union + {b[i]};
      }
      i := i + 1;
    }
    assert Upto(a, i) == a && Upto(b, i) == b;
    assert setA == Elems(a) && setB == Elems(b);
    var both := Intersection(setA, setB);
    r := Ratio(|both|, |union|);
  }

  /** `intersetion`: walks the smaller of the two sets and keeps what the other one holds. */
  method Intersection(setA: set<string>, setB: set<string>) returns (r: set<string>)
    ensures r == setA * setB
  {
    r := {};
    if |setA| < |setB| {
      var rest := setA;
      while rest != {}
        invariant rest <= setA
        invariant r == (setA - rest) * setB
        decreases rest
      {
        var key :| key in rest;
        if key in setB {
          r := r + {key};
        }
        rest := rest - {key};
      }
    } else {
      var rest := setB;
      while rest != {}
        invariant rest <= setB
        invariant r == setA * (setB - rest)
        decreases rest
      {
        var key :| key in rest;
        if key in setA {
          r := r + {key};
        }
        rest := rest - {key};
      }
    }
  }

  lemma SubsetSize<T>(x: set<T>, y: set<T>)
    requires x <= y
    ensures |x| <= |y|
  {
    assert y == x + (y - x);
  }

  /** The ratio does not depend on the order of the arguments. */
  lemma JaccardSymmetric(a: seq<string>, b: seq<string>)
    ensures JaccardRatio(a, b) == JaccardRatio(b, a)
  {
    assert Elems(a) * Elems(b) == Elems(b) * Elems(a);
    assert Elems(a) + Elems(b) == Elems(b) + Elems(a);
  }

  /** Only the element sets matter: repeating or reordering elements leaves the ratio alone. */
  lemma JaccardOfElements(a: seq<string>, a': seq<string>, b: seq<string>)
    requires Elems(a) == Elems(a')
    ensures JaccardRatio(a, b) == JaccardRatio(a', b)
  {
  }

  /** Repeating an input changes nothing. */
  lemma JaccardRepeats(a: seq<string>, b: seq<string>)
    ensures JaccardRatio(a + a, b) == JaccardRatio(a, b)
  {
    assert Elems(a + a) == Elems(a) by {
      forall x | x in Elems(a + a) ensures x in Elems(a) {
        var i :| 0 <= i < |a + a| && (a + a)[i] == x;
        if i >= |a| {
          assert a[i - |a|] == x;
        }
      }
    }
  }

  /** Inputs with the same elements, not both empty, have ratio 1. */
  lemma JaccardIdentical(a: seq<string>, b: seq<string>)
    requires Elems(a) == Elems(b) && a != []
    ensures JaccardRatio(a, b).num == JaccardRatio(a, b).den > 0
  {
    assert a[0] in Elems(a);
    assert Elems(a) * Elems(b) == Elems(a) && Elems(a) + Elems(b) == Elems(a);
  }

  /** The two cases of similarity_test.go: a set against itself, and {"a", "b"} against {"a"}. */
  lemma JaccardExamples()
    ensures JaccardRatio(["a", "b"], ["a", "b"]) == Ratio(2, 2)
    ensures JaccardRatio(["a", "b"], ["a"]) == Ratio(1, 2)
  {
    var ab, a := ["a", "b"], ["a"];
    assert "a" != "b" by { assert "a"[0] != "b"[0]; }
    assert Elems(ab) == {"a", "b"} && |Elems(ab)| == 2;
    assert Elems(a) == {"a"} && |Elems(a)| == 1;
    assert Elems(ab) * Elems(a) == Elems(a) && Elems(ab) + Elems(a) == Elems(ab);
    assert Elems(ab) * Elems(ab) == Elems(ab) && Elems(ab) + Elems(ab) == Elems(ab);
  }
}
