/** The words of the page bitmap with bit positions as numbers: single bits, one-hot
    masks, and the two-word window that alloc_pages shifts and tests. */
module Words {
  import opened BitVectors

  // ---------- shift counts ----------

  /** The number a shift count stands for, counted up from zero. */
  function Value(x: bv7): nat
    decreases x as int
  {
    if x == 0 then 0 else PredInt(x); Value(x - 1) + 1
  }

  lemma {:induction false} ValueIsInt(x: bv7)
    ensures Value(x) == x as int
    decreases x as int
  {
    if x > 0 {
      PredInt(x);
      ValueIsInt(x - 1);
    }
  }

  /** The shift count k, as the 7-bit value a shift instruction receives. */
  function Count(k: nat): (c: bv7)
    requires k < 128
    ensures Value(c) == k
  {
    if k == 0 then 0
    else
      var c := Count(k - 1);
      ValueIsInt(127);
      c + 1
  }

  lemma CountIs(k: nat, c: bv7)
    requires k < 128 && c as int == k
    ensures Count(k) == c
  {
    ValueIsInt(Count(k));
    SameInt(Count(k), c);
  }

  lemma CountLess(a: nat, b: nat)
    requires a < 128 && b < 128
    ensures Count(a) < Count(b) <==> a < b
  {
    ValueIsInt(Count(a));
    ValueIsInt(Count(b));
    LessInt(Count(a), Count(b));
  }

  lemma CountBelow64(k: nat)
    requires k <= 64
    ensures Count(k) <= 64 && (k < 64 ==> Count(k) < 64)
  {
    CountIs(64, 64);
    CountLess(k, 64);
  }

  lemma {:induction false} CountAdd(a: nat, b: nat)
    requires a + b < 128
    ensures Count(a + b) == Plus(Count(a), Count(b))
    decreases b
  {
    hide Count, Plus;
    if b == 0 {
      CountIs(0, 0);
      PlusZero(Count(a));
    } else {
      CountAdd(a, b - 1);
      CountAddStep(a, b - 1);
    }
  }

  lemma CountAddStep(a: nat, b: nat)
    requires a + b < 127
    requires Count(a + b) == Plus(Count(a), Count(b))
    ensures Count(a + (b + 1)) == Plus(Count(a), Count(b + 1))
  {
    hide Plus;
    AddOne(Count(a), Count(b));
    assert a + (b + 1) == (a + b) + 1;
  }

  // ---------- single bits ----------

  predicate Bit(w: bv64, k: nat)
    requires k < 64
  {
    CountBelow64(k);
    At(w, Count(k))
  }

  /** w |= 1UL << k */
  function SetBit(w: bv64, k: nat): bv64
    requires k < 64
  {
    CountBelow64(k);
    WithBit(w, Count(k))
  }

  /** w ^= 1UL << k */
  function ToggleBit(w: bv64, k: nat): bv64
    requires k < 64
  {
    CountBelow64(k);
    FlipBit(w, Count(k))
  }

  lemma AllOnesBit(k: nat)
    requires k < 64
    ensures Bit(ALL_ONES, k)
  {
    CountBelow64(k);
    AllOnesAt(Count(k));
  }

  /** Setting one bit leaves every other bit alone. */
  lemma SetBitAt(w: bv64, k: nat, m: nat)
    requires k < 64 && m < 64
    ensures Bit(SetBit(w, k), m) <==> Bit(w, m) || m == k
  {
    hide At, WithBit, Count;
    CountBelow64(k);
    CountBelow64(m);
    WithBitAt(w, Count(k), Count(m));
  }

  /** Flipping one bit leaves every other bit alone. */
  lemma ToggleBitAt(w: bv64, k: nat, m: nat)
    requires k < 64 && m < 64
    ensures Bit(ToggleBit(w, k), m) <==> Bit(w, m) != (m == k)
  {
    hide At, FlipBit, Count;
    CountBelow64(k);
    CountBelow64(m);
    FlipBitAt(w, Count(k), Count(m));
  }

  // ---------- masks ----------

  /** The low n bits of x are clear, tested with a mask. */
  predicate MaskClear(x: bv64, n: nat)
    requires n <= 64
  {
    CountBelow64(n);
    Disjoint(x, LowBits(Count(n)))
  }

  lemma MaskClearZero(x: bv64)
    ensures MaskClear(x, 0)
  {
    DisjointEmpty(x);
  }

  lemma MaskClearStep(x: bv64, n: nat)
    requires n < 64
    ensures MaskClear(x, n + 1) <==> MaskClear(x, n) && !Bit(x, n)
  {
    hide At, LowBits, Disjoint;
    CountBelow64(n);
    DisjointStep(x, Count(n));
  }

  /** A word is zero under a mask exactly when its low n bits are. */
  lemma {:induction false} MaskClearBits(x: bv64, n: nat)
    requires n <= 64
    ensures MaskClear(x, n) <==> forall m: nat :: m < n ==> !Bit(x, m)
  {
    hide Bit, MaskClear;
    if n == 0 {
      MaskClearZero(x);
    } else {
      MaskClearBits(x, n - 1);
      MaskClearStep(x, n - 1);
    }
  }

  // ---------- the two-word window ----------

  /** x86 takes a 64-bit shift count modulo 64, so a count of 64 does not shift. */
  function ShiftLeft(w: bv64, count: nat): bv64
    requires count <= 64
  {
    CountBelow64(count);
    if count == 64 then w else Left(w, Count(count))
  }

  /** (*p >> k) | (*(p + 1) << (64 - k)) */
  function Window(w0: bv64, w1: bv64, k: nat): bv64
    requires k < 64
  {
    CountBelow64(k);
    Or(Right(w0, Count(k)), ShiftLeft(w1, 64 - k))
  }

  /** The test that guards the claim of a run of n pages. */
  predicate WindowClear(w0: bv64, w1: bv64, k: nat, n: nat)
    requires k < 64 && n <= 64
  {
    MaskClear(Window(w0, w1, k), n)
  }

  /** Bit m of the 128-bit string w0, w1. */
  predicate PairBit(w0: bv64, w1: bv64, m: nat)
    requires m < 128
  {
    if m < 64 then Bit(w0, m) else Bit(w1, m - 64)
  }

  /** Away from a word boundary, bit m of the window is bit k + m of the pair. */
  lemma WindowBit(w0: bv64, w1: bv64, k: nat, m: nat)
    requires 0 < k < 64 && m < 64
    ensures Bit(Window(w0, w1, k), m) <==> PairBit(w0, w1, k + m)
  {
    hide At, Or, Right, Left, Count, Plus;
    CountBelow64(k);
    CountBelow64(m);
    CountBelow64(64 - k);
    CountIs(0, 0);
    CountLess(0, k);
    CountAdd(k, m);
    if k + m < 64 {
      CountBelow64(k + m);
      CountLess(m, 64 - k);
      WindowInFirst(w0, w1, Count(k), Count(64 - k), Count(m), Count(k + m));
    } else {
      CountIs(64, 64);
      CountLess(k + m, 64);
      CountAdd(64 - k, k + m - 64);
      CountBelow64(k + m - 64);
      WindowInSecond(w0, w1, Count(k), Count(64 - k), Count(m), Count(k + m - 64));
    }
  }

  /** At a word boundary the unshifted second word is or-ed in as well. */
  lemma WindowBitZero(w0: bv64, w1: bv64, m: nat)
    requires m < 64
    ensures Bit(Window(w0, w1, 0), m) <==> Bit(w0, m) || Bit(w1, m)
  {
    hide At, Or, Right, Left;
    CountBelow64(m);
    NoShift(w0);
    OrAt(w0, w1, Count(m));
  }

  /** The window test is exact away from word boundaries: it passes if and only if the
      n bits that start at offset k are clear. */
  lemma WindowExact(w0: bv64, w1: bv64, k: nat, n: nat)
    requires 1 <= k < 64 && n <= 64
    ensures WindowClear(w0, w1, k, n) <==> forall m: nat :: k <= m < k + n ==> !PairBit(w0, w1, m)
  {
    hide Bit, MaskClear, Window, PairBit;
    var x := Window(w0, w1, k);
    MaskClearBits(x, n);
    forall m: nat | m < n
      ensures Bit(x, m) <==> PairBit(w0, w1, k + m)
    {
      WindowBit(w0, w1, k, m);
    }
    if WindowClear(w0, w1, k, n) {
      forall m: nat | k <= m < k + n
        ensures !PairBit(w0, w1, m)
      {
        assert !Bit(x, m - k);
      }
    }
  }

  /** At a word boundary the test also demands the low n bits of the next word. */
  lemma WindowAtBoundary(w0: bv64, w1: bv64, n: nat)
    requires n <= 64
    ensures WindowClear(w0, w1, 0, n) <==> forall m: nat :: m < n ==> !Bit(w0, m) && !Bit(w1, m)
  {
    hide Bit, MaskClear, Window;
    var x := Window(w0, w1, 0);
    MaskClearBits(x, n);
    forall m: nat | m < n
      ensures Bit(x, m) <==> Bit(w0, m) || Bit(w1, m)
    {
      WindowBitZero(w0, w1, m);
    }
  }
}
