/** 64-bit words under shifts and masks. Every fact here is about bit-vectors alone and
    small enough to be decided by bit-blasting; shift counts are 7-bit values. */
module BitVectors {

  const ALL_ONES: bv64 := 0xffff_ffff_ffff_ffff

  /** Bit m of w. */
  predicate At(w: bv64, m: bv7)
    requires m < 64
  {
    (w >> m) & 1 == 1
  }

  function Right(w: bv64, k: bv7): bv64
    requires k < 64
  {
    w >> k
  }

  function Left(w: bv64, c: bv7): bv64
    requires c < 64
  {
    w << c
  }

  function Or(a: bv64, b: bv64): bv64 { a | b }

  /** 1UL << k */
  function Single(k: bv7): bv64
    requires k < 64
  {
    1 << k
  }

  /** w |= 1UL << k */
  function WithBit(w: bv64, k: bv7): bv64
    requires k < 64
  {
    w | (1 << k)
  }

  /** w ^= 1UL << k */
  function FlipBit(w: bv64, k: bv7): bv64
    requires k < 64
  {
    w ^ (1 << k)
  }

  /** The low n bits, with alloc_pages' special case for n == 64. */
  function LowBits(n: bv7): bv64
    requires n <= 64
  {
    if n == 64 then ALL_ONES else (1 << n) - 1
  }

  /** x and mask have no bit in common. */
  predicate Disjoint(x: bv64, mask: bv64) { x & mask == 0 }

  // ---------- shift counts ----------

  function Plus(x: bv7, y: bv7): bv7 { x + y }

  lemma PlusZero(x: bv7)
    ensures Plus(x, 0) == x
  {}

  lemma PredInt(x: bv7)
    requires x > 0
    ensures x as int > 0 && (x - 1) as int == x as int - 1
  {}

  lemma SameInt(x: bv7, y: bv7)
    requires x as int == y as int
    ensures x == y
  {}

  lemma LessInt(x: bv7, y: bv7)
    ensures x < y <==> x as int < y as int
  {}

  lemma AddOne(x: bv7, y: bv7)
    ensures Plus(x, y + 1) == Plus(x, y) + 1
  {}

  // ---------- single bits ----------

  lemma AllOnesAt(k: bv7)
    requires k < 64
    ensures At(ALL_ONES, k)
  {}

  lemma RawWithBit(w: bv64, k: bv7, m: bv7)
    requires k < 64 && m < 64
    ensures ((w | (1 << k)) >> m) & 1 == 1 <==> (w >> m) & 1 == 1 || m == k
  {}

  lemma RawFlipBit(w: bv64, k: bv7, m: bv7)
    requires k < 64 && m < 64
    ensures ((w ^ (1 << k)) >> m) & 1 == 1 <==> ((w >> m) & 1 == 1) != (m == k)
  {}

  lemma WithBitAt(w: bv64, k: bv7, m: bv7)
    requires k < 64 && m < 64
    ensures At(WithBit(w, k), m) == (At(w, m) || m == k)
  {
    calc {
      At(WithBit(w, k), m);
      ((w | (1 << k)) >> m) & 1 == 1;
      { RawWithBit(w, k, m); }
      (w >> m) & 1 == 1 || m == k;
      At(w, m) || m == k;
    }
  }

  lemma FlipBitAt(w: bv64, k: bv7, m: bv7)
    requires k < 64 && m < 64
    ensures At(FlipBit(w, k), m) == (At(w, m) != (m == k))
  {
    calc {
      At(FlipBit(w, k), m);
      ((w ^ (1 << k)) >> m) & 1 == 1;
      { RawFlipBit(w, k, m); }
      ((w >> m) & 1 == 1) != (m == k);
      At(w, m) != (m == k);
    }
  }

  lemma RawOr(a: bv64, b: bv64, m: bv7)
    requires m < 64
    ensures ((a | b) >> m) & 1 == 1 <==> (a >> m) & 1 == 1 || (b >> m) & 1 == 1
  {}

  lemma OrAt(a: bv64, b: bv64, m: bv7)
    requires m < 64
    ensures At(Or(a, b), m) == (At(a, m) || At(b, m))
  {
    calc {
      At(Or(a, b), m);
      ((a | b) >> m) & 1 == 1;
      { RawOr(a, b, m); }
      (a >> m) & 1 == 1 || (b >> m) & 1 == 1;
      At(a, m) || At(b, m);
    }
  }

  // ---------- masks ----------

  lemma LowBitsGrow(n: bv7)
    requires n < 64
    ensures LowBits(n + 1) == Or(LowBits(n), Single(n))
  {}

  lemma AndOverOr(x: bv64, a: bv64, b: bv64)
    ensures x & (a | b) == (x & a) | (x & b)
  {}

  lemma OrIsZero(a: bv64, b: bv64)
    ensures Or(a, b) == 0 <==> a == 0 && b == 0
  {}

  lemma OrZero(b: bv64)
    ensures Or(0, b) == b
  {}

  lemma DisjointOr(x: bv64, a: bv64, b: bv64)
    ensures Disjoint(x, Or(a, b)) == (Disjoint(x, a) && Disjoint(x, b))
  {
    calc {
      Disjoint(x, Or(a, b));
      x & (a | b) == 0;
      { AndOverOr(x, a, b); }
      (x & a) | (x & b) == 0;
      { OrIsZero(x & a, x & b); }
      x & a == 0 && x & b == 0;
      Disjoint(x, a) && Disjoint(x, b);
    }
  }

  lemma DisjointSingle(x: bv64, n: bv7)
    requires n < 64
    ensures Disjoint(x, Single(n)) ==> !At(x, n)
    ensures !At(x, n) ==> Disjoint(x, Single(n))
  {}

  lemma DisjointEmpty(x: bv64)
    ensures Disjoint(x, LowBits(0))
  {}

  lemma DisjointStep(x: bv64, n: bv7)
    requires n < 64
    ensures Disjoint(x, LowBits(n + 1)) <==> Disjoint(x, LowBits(n)) && !At(x, n)
  {
    hide At, LowBits, Disjoint, Or, Single;
    LowBitsGrow(n);
    DisjointOr(x, LowBits(n), Single(n));
    DisjointSingle(x, n);
  }

  // ---------- shifts ----------

  lemma NoShift(w: bv64)
    ensures Right(w, 0) == w
  {}

  lemma RawRight(w: bv64, k: bv7, m: bv7, sum: bv7)
    requires k < 64 && m < 64 && sum < 64 && k + m == sum
    ensures ((w >> k) >> m) & 1 == (w >> sum) & 1
  {}

  lemma RightThenAt(w: bv64, k: bv7, m: bv7, sum: bv7)
    requires k < 64 && m < 64 && sum < 64 && k + m == sum
    ensures At(Right(w, k), m) == At(w, sum)
  {
    calc {
      At(Right(w, k), m);
      ((w >> k) >> m) & 1 == 1;
      { RawRight(w, k, m, sum); }
      (w >> sum) & 1 == 1;
      At(w, sum);
    }
  }

  lemma RightPastTop(w: bv64, k: bv7, m: bv7)
    requires k < 64 && m < 64 && k + m >= 64
    ensures !At(Right(w, k), m)
  {}

  lemma RawLeft(w: bv64, c: bv7, d: bv7, sum: bv7)
    requires c < 64 && d < 64 && sum < 64 && c + d == sum
    ensures ((w << c) >> sum) & 1 == (w >> d) & 1
  {}

  lemma LeftThenAt(w: bv64, c: bv7, d: bv7, sum: bv7)
    requires c < 64 && d < 64 && sum < 64 && c + d == sum
    ensures At(Left(w, c), sum) == At(w, d)
  {
    calc {
      At(Left(w, c), sum);
      ((w << c) >> sum) & 1 == 1;
      { RawLeft(w, c, d, sum); }
      (w >> d) & 1 == 1;
      At(w, d);
    }
  }

  lemma LeftShiftsInZeros(w: bv64, c: bv7, m: bv7)
    requires c < 64 && m < c
    ensures !At(Left(w, c), m)
  {}

  // ---------- windows over two words ----------

  lemma WindowInFirst(w0: bv64, w1: bv64, k: bv7, c: bv7, m: bv7, sum: bv7)
    requires 0 < k < 64 && c < 64 && m < c && sum < 64 && Plus(k, m) == sum
    ensures At(Or(Right(w0, k), Left(w1, c)), m) <==> At(w0, sum)
  {
    hide At, Or, Right, Left;
    OrAt(Right(w0, k), Left(w1, c), m);
    RightThenAt(w0, k, m, sum);
    LeftShiftsInZeros(w1, c, m);
  }

  lemma WindowInSecond(w0: bv64, w1: bv64, k: bv7, c: bv7, m: bv7, d: bv7)
    requires 0 < k < 64 && c < 64 && m < 64 && d < 64 && Plus(k, m) >= 64 && Plus(c, d) == m
    ensures At(Or(Right(w0, k), Left(w1, c)), m) <==> At(w1, d)
  {
    hide At, Or, Right, Left;
    OrAt(Right(w0, k), Left(w1, c), m);
    RightPastTop(w0, k, m);
    LeftThenAt(w1, c, d, m);
  }
}
