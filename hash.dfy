/**
 * The hash functions of hash.go: four families of functions from an integer and a bucket
 * count to an integer, and the generator that lays out a list of them.
 */
module Hash {
  import opened Common

  function Abs(a: int): nat
  {
    if a < 0 then -a else a
  }

  /** Go's `/` on signed integers: the quotient truncated toward zero. */
  function GoQuo(a: int, n: int): int
    requires n != 0
  {
    if (a < 0) == (n < 0) then Abs(a) / Abs(n) else -(Abs(a) / Abs(n))
  }

  /**
   * Go's `%` on signed integers: the remainder left by GoQuo, so it takes the sign of the
   * dividend and is smaller than the divisor in magnitude.
   */
  function GoRem(a: int, n: int): (r: int)
    requires n != 0
    ensures Abs(r) < Abs(n)
    ensures a >= 0 ==> r >= 0
    ensures a < 0 ==> r <= 0
  {
    var m := Abs(a) % Abs(n);
    if a < 0 then -m else m
  }

  /** The identity by which the Go specification defines `%`: `a == (a / n) * n + a % n`. */
  lemma GoDivision(a: int, n: int)
    requires n != 0
    ensures a == GoQuo(a, n) * n + GoRem(a, n)
  {
    var q: int, m: int := Abs(a) / Abs(n), Abs(a) % Abs(n);
    assert Abs(a) == q * Abs(n) + m;
    var N: int := Abs(n);
    if n < 0 {
      NegateFactor(q, N);
      assert q * n == -(q * N);
    }
    if a < 0 && n > 0 {
      NegateFactor(q, N);
      assert (-q) * n == -(q * N);
    }
  }

  lemma NegateFactor(q: int, n: int)
    ensures q * (-n) == -(q * n) && (-q) * n == -(q * n)
  {
  }

  /** On a non-negative dividend and a positive divisor Go's `%` is the ordinary remainder. */
  lemma GoRemNatural(a: int, n: int)
    requires a >= 0 && n > 0
    ensures GoRem(a, n) == a % n
  {
  }

  /** Bitwise AND of two integers in two's complement (arbitrary width, sign bits extended). */
  function BitAnd(a: int, b: int): int
    decreases Abs(a) + Abs(b)
  {
    if a == 0 || b == 0 then 0
    else if a == -1 then b
    else if b == -1 then a
    else 2 * BitAnd(a / 2, b / 2) + (if a % 2 == 1 && b % 2 == 1 then 1 else 0)
  }

  /** `math.MaxInt32`, the mask of the low 31 bits. */
  const MaxInt32: int := 0x7fff_ffff

  /** A hash function, named by its family and parameters (the source keys hashers by this text). */
  datatype Hasher =
    | Modulus                              // x % numBuckets
    | PatternX(mult: int, coeff: int)      // (mult * x + coeff) % numBuckets
    | MaxInt(mult: int)                    // (mult * x + x & math.MaxInt32) % numBuckets
    | BitShift(mult: int, ander: int)      // (((x * mult) >> 28) & ander) % numBuckets

  /**
   * The value a hasher gives to `x` for `numBuckets` buckets (Go panics when that is 0): Go's
   * remainder keeps it strictly inside the bucket range in magnitude.
   */
  function Eval(h: Hasher, x: int, numBuckets: int): (r: int)
    requires numBuckets != 0
    ensures Abs(r) < Abs(numBuckets)
  {
    match h
    case Modulus => GoRem(x, numBuckets)
    case PatternX(m, c) => GoRem(m * x + c, numBuckets)
    case MaxInt(m) => GoRem(m * x + BitAnd(x, MaxInt32), numBuckets)
    case BitShift(m, a) => GoRem(BitAnd((x * m) / 0x1000_0000, a), numBuckets)
  }

  /** `toOdd`. */
  function ToOdd(k: int): (r: int)
    ensures r % 2 == 1
  {
    2 * k + 1
  }

  /** `randSign`: `k` when the draw of `rand.Intn(2)` is 0, `-k` otherwise. */
  function RandSign(k: int, drawIsZero: bool): (r: int)
    ensures Abs(r) == Abs(k)
    ensures k != 0 ==> (drawIsZero <==> r == k)
  {
    if drawIsZero then k else -k
  }

  /**
   * The hasher that GenerateHashers places in slot `i`: Modulus first, then PatternX, MaxInt
   * and BitShift hashers in turn. `randZero(d)` tells whether the `d`-th call of
   * `rand.Intn(2)` returned 0; PatternX slot `i` (from 4 on) makes call number `(i - 4) / 3`.
   * Slot 0 alone is Modulus; after that every multiplier is odd, a PatternX coefficient is plus
   * or minus half the slot number, and a BitShift mask is half the slot number minus one,
   * never negative.
   */
  function SlotHasher(i: nat, randZero: nat -> bool): (h: Hasher)
    ensures i == 0 <==> h == Modulus
    ensures i > 0 ==> h.mult % 2 == 1
    ensures i % 3 == 1 ==> h.PatternX? && Abs(h.coeff) == i / 2
    ensures i % 3 == 2 ==> h.MaxInt?
    ensures i % 3 == 0 && i > 0 ==> h.BitShift? && h.ander == (i - 2) / 2 >= 0
  {
    if i == 0 then Modulus
    else if i % 3 == 1 then
      (if i == 1 then PatternX(1, 0) else PatternX(ToOdd(i), RandSign(i / 2, randZero((i - 4) / 3))))
    else if i % 3 == 2 then
      MaxInt(if i == 2 then 1 else ToOdd(i - 1))
    else
      BitShift(if i == 3 then 1 else ToOdd(i - 2), (i - 2) / 2)
  }

  /** PatternX slot number `n` of its pass (slot `3n + 1`) makes draw number `n - 1`. */
  lemma SlotPatternX(i: nat, n: nat, randZero: nat -> bool)
    requires i == 3 * n + 1
    ensures SlotHasher(i, randZero) == if n == 0 then PatternX(1, 0) else PatternX(ToOdd(i), RandSign(i / 2, randZero(n - 1)))
  {
    if n > 0 {
      assert (i - 4) / 3 == n - 1;
    }
  }

  lemma SlotMaxInt(i: nat, randZero: nat -> bool)
    requires i % 3 == 2
    ensures SlotHasher(i, randZero) == MaxInt(if i == 2 then 1 else ToOdd(i - 1))
  {
  }

  lemma SlotBitShift(i: nat, randZero: nat -> bool)
    requires i % 3 == 0 && i > 0
    ensures SlotHasher(i, randZero) == BitShift(if i == 3 then 1 else ToOdd(i - 2), (i - 2) / 2)
  {
  }

  /** Which slots the three passes have filled once they have reached `i1`, `i2` and `i3`. */
  predicate Placed(j: int, i1: int, i2: int, i3: int)
  {
    j == 0 || (j % 3 == 1 && j < i1) || (j % 3 == 2 && j < i2) || (j % 3 == 0 && 0 < j < i3)
  }

  /** The hasher list once the passes have reached `i1`, `i2` and `i3`: unfilled slots are nil. */
  ghost function Layout(amount: nat, i1: int, i2: int, i3: int, randZero: nat -> bool): seq<Option<Hasher>>
  {
    seq(amount, j requires 0 <= j < amount => if Placed(j, i1, i2, i3) then Some(SlotHasher(j, randZero)) else None)
  }

  /** The `seen` set at the same point. */
  ghost function PlacedSet(amount: nat, i1: int, i2: int, i3: int, randZero: nat -> bool): set<Hasher>
  {
    set j | 0 <= j < amount && Placed(j, i1, i2, i3) :: SlotHasher(j, randZero)
  }

  /** Slot `i` is the next one of its pass: the pass moves from (i1, i2, i3) to (j1, j2, j3). */
  predicate NextSlot(i: int, i1: int, i2: int, i3: int, j1: int, j2: int, j3: int)
  {
    || (i % 3 == 1 && i == i1 && j1 == i1 + 3 && j2 == i2 && j3 == i3)
    || (i % 3 == 2 && i == i2 && j1 == i1 && j2 == i2 + 3 && j3 == i3)
    || (i % 3 == 0 && 0 < i && i == i3 && j1 == i1 && j2 == i2 && j3 == i3 + 3)
  }

  /** Filling the next slot of a pass: its hasher is new, and the list and the set grow by it. */
  lemma PlaceStep(amount: nat, i: int, i1: int, i2: int, i3: int, j1: int, j2: int, j3: int, randZero: nat -> bool)
    requires 0 <= i < amount && NextSlot(i, i1, i2, i3, j1, j2, j3)
    ensures SlotHasher(i, randZero) !in PlacedSet(amount, i1, i2, i3, randZero)
    ensures Layout(amount, j1, j2, j3, randZero) == Layout(amount, i1, i2, i3, randZero)[i := Some(SlotHasher(i, randZero))]
    ensures PlacedSet(amount, j1, j2, j3, randZero) == PlacedSet(amount, i1, i2, i3, randZero) + {SlotHasher(i, randZero)}
  {
    assert forall j :: Placed(j, j1, j2, j3) <==> Placed(j, i1, i2, i3) || j == i;
    forall j | 0 <= j < amount && Placed(j, i1, i2, i3)
      ensures SlotHasher(j, randZero) != SlotHasher(i, randZero)
    {
      SlotHashersDistinct(j, i, randZero);
    }
  }

  /**
   * GenerateHashers: `amount` hashers, slot `i` holding SlotHasher(i); a hasher whose text was
   * seen already would leave its slot nil (`None`), which never happens.
   */
  method GenerateHashers(amount: int, randZero: nat -> bool) returns (r: seq<Option<Hasher>>)
    requires amount >= 1
    ensures |r| == amount
    ensures forall j :: 0 <= j < amount ==> r[j] == Some(SlotHasher(j, randZero))
  {
    var hashers := new Option<Hasher>[amount](_ => None);
    var seen: set<Hasher> := {};

    // simple modulus first
    hashers[0] := Some(Modulus);
    seen := seen + {Modulus};
    assert hashers[..] == Layout(amount, 1, 2, 3, randZero);
    assert seen == PlacedSet(amount, 1, 2, 3, randZero);

    ghost var end1, end2, end3;
    seen, end1 := PatternXPass(hashers, seen, randZero);
    seen, end2 := MaxIntPass(hashers, seen, end1, randZero);
    seen, end3 := BitShiftPass(hashers, seen, end1, end2, randZero);
    r := hashers[..];
    assert forall j :: 0 <= j < amount ==> Placed(j, end1, end2, end3);
  }

  /** The first loop of GenerateHashers: PatternX hashers in slots 1, 4, 7, ... */
  method PatternXPass(hashers: array<Option<Hasher>>, seen0: set<Hasher>, randZero: nat -> bool)
    returns (seen: set<Hasher>, ghost end: int)
    requires hashers[..] == Layout(hashers.Length, 1, 2, 3, randZero)
    requires seen0 == PlacedSet(hashers.Length, 1, 2, 3, randZero)
    modifies hashers
    ensures end >= hashers.Length && end % 3 == 1
    ensures hashers[..] == Layout(hashers.Length, end, 2, 3, randZero)
    ensures seen == PlacedSet(hashers.Length, end, 2, 3, randZero)
  {
    seen := seen0;
    var amount := hashers.Length;
    var amountOfPatterns := 3;
    var draws: nat := 0;
    var i := 1;
    ghost var n := 0;
    while i < amount
      invariant i == 3 * n + 1 && draws == (if n == 0 then 0 else n - 1)
      invariant hashers[..] == Layout(amount, i, 2, 3, randZero)
      invariant seen == PlacedSet(amount, i, 2, 3, randZero)
    {
      var multiplier, coefficient;
      if i == 1 {
        multiplier := 1;
        coefficient := 0;
      } else {
        SmallRem(i, amount);
        multiplier := ToOdd(i % amount);
        coefficient := RandSign(i % amount / 2, randZero(draws));
        draws := draws + 1;
      }
      var hashFunc := PatternX(multiplier, coefficient);
      SlotPatternX(i, n, randZero);
      PlaceStep(amount, i, i, 2, 3, i + 3, 2, 3, randZero);
      if hashFunc !in seen {
        seen := seen + {hashFunc};
        hashers[i] := Some(hashFunc);
      }
      i := i + amountOfPatterns;
      n := n + 1;
    }
    end := i;
  }

  /** The second loop of GenerateHashers: MaxInt hashers in slots 2, 5, 8, ... */
  method MaxIntPass(hashers: array<Option<Hasher>>, seen0: set<Hasher>, ghost end1: int, randZero: nat -> bool)
    returns (seen: set<Hasher>, ghost end: int)
    requires hashers[..] == Layout(hashers.Length, end1, 2, 3, randZero)
    requires seen0 == PlacedSet(hashers.Length, end1, 2, 3, randZero)
    modifies hashers
    ensures end >= hashers.Length && end % 3 == 2
    ensures hashers[..] == Layout(hashers.Length, end1, end, 3, randZero)
    ensures seen == PlacedSet(hashers.Length, end1, end, 3, randZero)
  {
    seen := seen0;
    var amount := hashers.Length;
    var amountOfPatterns := 3;
    var i := 2;
    while i < amount
      invariant 2 <= i && i % 3 == 2
      invariant hashers[..] == Layout(amount, end1, i, 3, randZero)
      invariant seen == PlacedSet(amount, end1, i, 3, randZero)
    {
      var k := i - 1;
      SmallRem(k, amount);
      var multiplier;
      if k == 1 {
        multiplier := 1;
      } else {
        multiplier := ToOdd(k % amount);
      }
      var hashFunc := MaxInt(multiplier);
      SlotMaxInt(i, randZero);
      PlaceStep(amount, i, end1, i, 3, end1, i + 3, 3, randZero);
      if hashFunc !in seen {
        seen := seen + {hashFunc};
        hashers[i] := Some(hashFunc);
      }
      i := i + amountOfPatterns;
    }
    end := i;
  }

  /** The third loop of GenerateHashers: BitShift hashers in slots 3, 6, 9, ... */
  method BitShiftPass(hashers: array<Option<Hasher>>, seen0: set<Hasher>, ghost end1: int, ghost end2: int, randZero: nat -> bool)
    returns (seen: set<Hasher>, ghost end: int)
    requires hashers[..] == Layout(hashers.Length, end1, end2, 3, randZero)
    requires seen0 == PlacedSet(hashers.Length, end1, end2, 3, randZero)
    modifies hashers
    ensures end >= hashers.Length && end % 3 == 0
    ensures hashers[..] == Layout(hashers.Length, end1, end2, end, randZero)
    ensures seen == PlacedSet(hashers.Length, end1, end2, end, randZero)
  {
    seen := seen0;
    var amount := hashers.Length;
    var amountOfPatterns := 3;
    var i := 3;
    while i < amount
      invariant 3 <= i && i % 3 == 0
      invariant hashers[..] == Layout(amount, end1, end2, i, randZero)
      invariant seen == PlacedSet(amount, end1, end2, i, randZero)
    {
      var k := i - 2;
      SmallRem(k, amount);
      var multiplier;
      if k == 1 {
        multiplier := 1;
      } else {
        multiplier := ToOdd(k % amount);
      }
      var ander := k % amount / 2;
      var hashFunc := BitShift(multiplier, ander);
      SlotBitShift(i, randZero);
      PlaceStep(amount, i, end1, end2, i, end1, end2, i + 3, randZero);
      if hashFunc !in seen {
        seen := seen + {hashFunc};
        hashers[i] := Some(hashFunc);
      }
      i := i + amountOfPatterns;
    }
    end := i;
  }

  lemma SmallRem(k: int, n: int)
    requires 0 <= k < n
    ensures k % n == k
  {
  }

  /**
   * No two slots hold the same hasher, whatever the random draws: the `seen` check of the
   * generator never skips a slot, and the generated list has no duplicates.
   */
  lemma SlotHashersDistinct(i: nat, j: nat, randZero: nat -> bool)
    requires i != j
    ensures SlotHasher(i, randZero) != SlotHasher(j, randZero)
  {
    if i % 3 == j % 3 && i != 0 && j != 0 {
      assert SlotHasher(i, randZero).mult != SlotHasher(j, randZero).mult;
    }
  }

  // Properties of the hash functions.

  /** The values that hash_test.go expects from PatternX(1, 1) over five buckets. */
  lemma PatternXExamplesOne()
    ensures Eval(PatternX(1, 1), 0, 5) == 1 && Eval(PatternX(1, 1), 1, 5) == 2 && Eval(PatternX(1, 1), 2, 5) == 3
    ensures Eval(PatternX(1, 1), 3, 5) == 4 && Eval(PatternX(1, 1), 4, 5) == 0
  {
    assert GoRem(5, 5) == 0;
  }

  /** The values that hash_test.go expects from PatternX(3, 1) over five buckets. */
  lemma PatternXExamplesThree()
    ensures Eval(PatternX(3, 1), 0, 5) == 1 && Eval(PatternX(3, 1), 1, 5) == 4 && Eval(PatternX(3, 1), 2, 5) == 2
    ensures Eval(PatternX(3, 1), 3, 5) == 0 && Eval(PatternX(3, 1), 4, 5) == 3
  {
    assert GoRem(7, 5) == 2;
    assert GoRem(10, 5) == 0;
    assert GoRem(13, 5) == 3;
  }

  /** `2^k`. */
  function Pow2(k: nat): (r: nat)
    ensures r >= 1
  {
    if k == 0 then 1 else 2 * Pow2(k - 1)
  }

  lemma {:induction false} Pow2Add(a: nat, b: nat)
    ensures Pow2(a + b) == Pow2(a) * Pow2(b)
  {
    if a > 0 {
      Pow2Add(a - 1, b);
      assert Pow2(a + b) == 2 * Pow2(a - 1 + b);
    }
  }

  lemma Pow2ThirtyOne()
    ensures Pow2(31) == 0x8000_0000
  {
    assert Pow2(2) == 4;
    Pow2Add(2, 2);
    Pow2Add(4, 4);
    Pow2Add(8, 8);
    Pow2Add(16, 8);
    Pow2Add(24, 4);
    Pow2Add(28, 2);
    Pow2Add(30, 1);
  }

  lemma MulMono(t: int, d: int)
    requires d > 0
    ensures t >= 1 ==> t * d >= d
    ensures t <= -1 ==> t * d <= -d
  {
  }

  /** Euclidean remainder is determined by any decomposition `x == q * d + r` with `0 <= r < d`. */
  lemma ModUnique(x: int, d: int, q: int, r: int)
    requires d > 0 && 0 <= r < d && x == q * d + r
    ensures x % d == r
  {
    var q', r' := x / d, x % d;
    assert (q - q') * d == r' - r;
    MulMono(q - q', d);
  }

  /** The low bits of `x` modulo `2q` are its lowest bit and the low bits of `x / 2` modulo `q`. */
  lemma ModDouble(x: int, q: int)
    requires q > 0
    ensures x % (2 * q) == 2 * ((x / 2) % q) + x % 2
  {
    var h := x / 2;
    assert x == 2 * h + x % 2;
    assert h == (h / q) * q + h % q;
    assert x == (h / q) * (2 * q) + (2 * (h % q) + x % 2);
    ModUnique(x, 2 * q, h / q, 2 * (h % q) + x % 2);
  }

  /** AND with a mask of `k` one bits keeps the `k` low bits: the result is `x` modulo `2^k`. */
  lemma {:induction false} BitAndMask(x: int, k: nat)
    ensures BitAnd(x, Pow2(k) - 1) == x % Pow2(k)
    decreases k
  {
    if k > 0 && x != 0 && x != -1 {
      var h := Pow2(k - 1);
      var b := Pow2(k) - 1;
      assert b == 2 * (h - 1) + 1;
      assert b / 2 == h - 1 && b % 2 == 1;
      assert b != 0 && b != -1;
      assert BitAnd(x, b) == 2 * BitAnd(x / 2, h - 1) + (if x % 2 == 1 then 1 else 0);
      BitAndMask(x / 2, k - 1);
      ModDouble(x, h);
    } else if x == -1 {
      ModUnique(-1, Pow2(k), -1, Pow2(k) - 1);
    } else if x == 0 {
      ModUnique(0, Pow2(k), 0, 0);
    } else {
      assert Pow2(k) == 1;
    }
  }

  /** `x & math.MaxInt32` is `x` modulo `2^31`: never negative, whatever the sign of `x`. */
  lemma MaxInt32Mask(x: int)
    ensures BitAnd(x, MaxInt32) == x % 0x8000_0000
    ensures 0 <= BitAnd(x, MaxInt32) <= MaxInt32
  {
    Pow2ThirtyOne();
    BitAndMask(x, 31);
  }

  /** AND with a non-negative mask gives a value between 0 and the mask. */
  lemma {:induction false} BitAndBound(a: int, b: int)
    requires b >= 0
    ensures 0 <= BitAnd(a, b) <= b
    decreases Abs(a) + Abs(b)
  {
    if a != 0 && b != 0 && a != -1 {
      BitAndBound(a / 2, b / 2);
    }
  }

  /** Modulus on a non-negative value is the ordinary bucket index `x mod numBuckets`. */
  lemma ModulusBucket(x: int, numBuckets: int)
    requires x >= 0 && numBuckets > 0
    ensures Eval(Modulus, x, numBuckets) == x % numBuckets
    ensures 0 <= Eval(Modulus, x, numBuckets) < numBuckets
  {
  }

  /** A MaxInt hasher with a non-negative multiplier maps non-negative values to bucket indices. */
  lemma MaxIntBucket(m: int, x: int, numBuckets: int)
    requires m >= 0 && x >= 0 && numBuckets > 0
    ensures 0 <= Eval(MaxInt(m), x, numBuckets) < numBuckets
  {
    MaxInt32Mask(x);
    var v := m * x + BitAnd(x, MaxInt32);
    assert m * x >= 0 && v >= 0;
    assert Eval(MaxInt(m), x, numBuckets) == GoRem(v, numBuckets);
  }

  /** A BitShift hasher with a non-negative mask never exceeds the mask and is never negative. */
  lemma BitShiftBound(m: int, ander: int, x: int, numBuckets: int)
    requires ander >= 0 && numBuckets > 0
    ensures 0 <= Eval(BitShift(m, ander), x, numBuckets) <= ander
  {
    var y := (x * m) / 0x1000_0000;
    BitAndBound(y, ander);
    var z := BitAnd(y, ander);
    assert Eval(BitShift(m, ander), x, numBuckets) == GoRem(z, numBuckets);
    GoRemNatural(z, numBuckets);
    ModAtMost(z, numBuckets);
  }

  lemma ModAtMost(a: int, n: int)
    requires a >= 0 && n > 0
    ensures a % n <= a
  {
    MulMono(a / n, n);
  }

  /**
   * A generated PatternX hasher can give a negative value: in slot 4 with a draw of 1 it is
   * PatternX(9, -2), which sends 0 to -2 for five buckets.
   */
  lemma NegativeHashExample(randZero: nat -> bool)
    requires !randZero(0)
    ensures SlotHasher(4, randZero) == PatternX(9, -2)
    ensures Eval(SlotHasher(4, randZero), 0, 5) == -2
  {
  }
}
