/**
 * The order `sort.Strings` puts strings in: lexicographic, comparing characters one by one,
 * with a proper prefix before the longer string. (Dafny's `<` on strings means "proper
 * prefix", so the order is defined here.)
 */
module Ordering {
  import opened Common

  /** `a` sorts strictly before `b`. */
  predicate LexLess(a: string, b: string)
    decreases |a|
  {
    if a == [] then b != []
    else if b == [] then false
    else if a[0] != b[0] then a[0] < b[0]
    else LexLess(a[1..], b[1..])
  }

  lemma {:induction false} LexLessIrreflexive(a: string)
    ensures !LexLess(a, a)
    decreases |a|
  {
    if a != [] {
      LexLessIrreflexive(a[1..]);
    }
  }

  lemma {:induction false} LexLessTransitive(a: string, b: string, c: string)
    requires LexLess(a, b) && LexLess(b, c)
    ensures LexLess(a, c)
    decreases |a|
  {
    if a != [] && a[0] == b[0] && b[0] == c[0] {
      LexLessTransitive(a[1..], b[1..], c[1..]);
    }
  }

  /** Any two different strings are ordered one way, and never both ways. */
  lemma {:induction false} LexLessTotal(a: string, b: string)
    ensures a != b <==> (LexLess(a, b) || LexLess(b, a))
    ensures !(LexLess(a, b) && LexLess(b, a))
    decreases |a|
  {
    if a != [] && b != [] && a[0] == b[0] {
      LexLessTotal(a[1..], b[1..]);
      assert a == [a[0]] + a[1..] && b == [b[0]] + b[1..];
    } else if a == [] {
      LexLessIrreflexive(b);
    }
  }

  /** Non-decreasing: no later string sorts before an earlier one. */
  predicate Sorted(s: seq<string>)
  {
    forall i, j :: 0 <= i < j < |s| ==> !LexLess(s[j], s[i])
  }

  /** Strictly increasing: the form the sorted keys of a map take. */
  predicate StrictlySorted(s: seq<string>)
  {
    forall i, j :: 0 <= i < j < |s| ==> LexLess(s[i], s[j])
  }

  /** `x` placed in front of the first element that does not sort before it. */
  function Insert(x: string, s: seq<string>): seq<string>
  {
    if s == [] || !LexLess(s[0], x) then [x] + s else [s[0]] + Insert(x, s[1..])
  }

  /** No element of `s` sorts before `y`. */
  predicate NoneBelow(s: seq<string>, y: string)
  {
    forall i :: 0 <= i < |s| ==> !LexLess(s[i], y)
  }

  /** "Does not sort before" is transitive. */
  lemma NotBelowTransitive(a: string, b: string, c: string)
    requires !LexLess(a, b) && !LexLess(b, c)
    ensures !LexLess(a, c)
  {
    LexLessTotal(a, b);
    LexLessTotal(b, c);
    if a != b && b != c && LexLess(a, c) {
      LexLessTransitive(b, a, c);
    }
  }

  lemma SortedCons(h: string, t: seq<string>)
    requires Sorted(t) && NoneBelow(t, h)
    ensures Sorted([h] + t)
  {
    forall i, j | 0 <= i < j < |[h] + t| ensures !LexLess(([h] + t)[j], ([h] + t)[i]) {
      assert ([h] + t)[j] == t[j - 1];
      if i > 0 {
        assert ([h] + t)[i] == t[i - 1];
      }
    }
  }

  lemma {:induction false} InsertNoneBelow(x: string, s: seq<string>, y: string)
    requires NoneBelow(s, y) && !LexLess(x, y)
    ensures NoneBelow(Insert(x, s), y)
  {
    if s != [] && LexLess(s[0], x) {
      InsertNoneBelow(x, s[1..], y);
    }
  }

  lemma {:induction false} InsertMultiset(x: string, s: seq<string>)
    ensures multiset(Insert(x, s)) == multiset(s) + multiset{x}
  {
    if s != [] && LexLess(s[0], x) {
      InsertMultiset(x, s[1..]);
      assert s == [s[0]] + s[1..];
    }
  }

  lemma {:induction false} InsertSorted(x: string, s: seq<string>)
    requires Sorted(s)
    ensures Sorted(Insert(x, s))
    ensures multiset(Insert(x, s)) == multiset(s) + multiset{x}
  {
    InsertMultiset(x, s);
    if s == [] || !LexLess(s[0], x) {
      forall j | 0 <= j < |s| ensures !LexLess(s[j], x) {
        LexLessIrreflexive(s[0]);
        NotBelowTransitive(s[j], s[0], x);
      }
      SortedCons(x, s);
    } else {
      InsertSorted(x, s[1..]);
      LexLessTotal(x, s[0]);
      assert NoneBelow(s[1..], s[0]);
      InsertNoneBelow(x, s[1..], s[0]);
      SortedCons(s[0], Insert(x, s[1..]));
    }
  }

  /**
   * `sort.Strings`: the result is sorted and holds the same strings, each as often as the
   * input does. Insertion stands for the library's algorithm, which is not modelled.
   */
  method SortStrings(keys: seq<string>) returns (r: seq<string>)
    ensures Sorted(r)
    ensures multiset(r) == multiset(keys)
  {
    r := [];
    var i := 0;
    while i < |keys|
      invariant i <= |keys|
      invariant Sorted(r)
      invariant multiset(r) == multiset(keys[..i])
    {
      InsertSorted(keys[i], r);
      r := Insert(keys[i], r);
      assert keys[..i + 1] == keys[..i] + [keys[i]];
      i := i + 1;
    }
    assert keys[..i] == keys;
  }

  /** Sorting strings that are all different gives a strictly increasing sequence. */
  lemma SortedDistinct(s: seq<string>)
    requires Sorted(s) && NoDup(s)
    ensures StrictlySorted(s)
  {
    forall i, j | 0 <= i < j < |s| ensures LexLess(s[i], s[j]) {
      LexLessTotal(s[i], s[j]);
    }
  }

  /**
   * There is only one strictly increasing arrangement of a set of strings, so the sorted keys
   * of a map do not depend on the order in which the map was walked.
   */
  lemma {:induction false} StrictlySortedUnique(s: seq<string>, t: seq<string>)
    requires StrictlySorted(s) && StrictlySorted(t) && Elems(s) == Elems(t)
    ensures s == t
    decreases |s|
  {
    if s != [] {
      assert s[0] in Elems(t);
      assert t != [];
      assert t[0] in Elems(s);
      var i :| 0 <= i < |t| && t[i] == s[0];
      var j :| 0 <= j < |s| && s[j] == t[0];
      if s[0] != t[0] {
        assert i > 0 && j > 0;
        LexLessTotal(s[0], t[0]);
      }
      assert Elems(s[1..]) == Elems(t[1..]) by {
        forall x | x in Elems(s[1..]) ensures x in Elems(t[1..]) {
          var k :| 0 <= k < |s[1..]| && s[1..][k] == x;
          assert LexLess(s[0], x);
          LexLessTotal(s[0], x);
          assert x in Elems(t);
        }
        forall x | x in Elems(t[1..]) ensures x in Elems(s[1..]) {
          var k :| 0 <= k < |t[1..]| && t[1..][k] == x;
          assert LexLess(t[0], x);
          LexLessTotal(t[0], x);
          assert x in Elems(s);
        }
      }
      StrictlySortedUnique(s[1..], t[1..]);
      assert s == [s[0]] + s[1..] && t == [t[0]] + t[1..];
    } else {
      ElemsEmpty(t);
    }
  }

  /** `x` is an element of `s` that no element of `s` sorts before. */
  predicate IsLeast(x: string, s: set<string>)
  {
    x in s && forall y :: y in s ==> !LexLess(y, x)
  }

  lemma {:induction false} LeastExists(s: set<string>)
    requires s != {}
    ensures exists x :: IsLeast(x, s)
    decreases |s|
  {
    var a :| a in s;
    if s - {a} == {} {
      assert s == {a};
      LexLessIrreflexive(a);
      assert IsLeast(a, s);
    } else {
      LeastExists(s - {a});
      var b :| IsLeast(b, s - {a});
      if LexLess(a, b) {
        forall y | y in s ensures !LexLess(y, a) {
          LexLessIrreflexive(a);
          if y != a && LexLess(y, a) {
            LexLessTransitive(y, a, b);
          }
        }
        assert IsLeast(a, s);
      } else {
        assert IsLeast(b, s);
      }
    }
  }

  lemma LeastUnique(s: set<string>)
    ensures forall x, y :: IsLeast(x, s) && IsLeast(y, s) ==> x == y
  {
    forall x, y | IsLeast(x, s) && IsLeast(y, s) ensures x == y {
      LexLessTotal(x, y);
    }
  }

  /** The elements of `s` in increasing order: what sorting the keys of a map gives. */
  ghost function SortedKeys(s: set<string>): (r: seq<string>)
    ensures |r| == |s|
    decreases |s|
  {
    if s == {} then []
    else
      LeastExists(s);
      var x :| IsLeast(x, s);
      [x] + SortedKeys(s - {x})
  }

  /** The sorted keys are strictly increasing and hold each element of the set once. */
  lemma {:induction false} SortedKeysProperties(s: set<string>)
    ensures StrictlySorted(SortedKeys(s))
    ensures Elems(SortedKeys(s)) == s
    decreases |s|
  {
    if s != {} {
      LeastExists(s);
      var x :| IsLeast(x, s);
      LeastUnique(s);
      assert SortedKeys(s) == [x] + SortedKeys(s - {x});
      SortedKeysProperties(s - {x});
      LeastFirst(x, SortedKeys(s - {x}), s);
    }
  }

  lemma LeastFirst(x: string, rest: seq<string>, s: set<string>)
    requires IsLeast(x, s) && StrictlySorted(rest) && Elems(rest) == s - {x}
    ensures StrictlySorted([x] + rest) && Elems([x] + rest) == s
  {
    forall j | 0 <= j < |rest| ensures LexLess(x, rest[j]) {
      assert rest[j] in Elems(rest);
      LexLessTotal(x, rest[j]);
    }
    assert Elems([x] + rest) == {x} + Elems(rest);
  }

  /** Sorting the keys of a map, in whatever order they were collected, gives SortedKeys. */
  lemma SortedIsSortedKeys(r: seq<string>, s: set<string>)
    requires Sorted(r) && NoDup(r) && Elems(r) == s
    ensures r == SortedKeys(s)
  {
    SortedDistinct(r);
    SortedKeysProperties(s);
    StrictlySortedUnique(r, SortedKeys(s));
  }
}
