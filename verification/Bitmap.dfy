/** The page bitmap as a sequence of words: page i is bit i % 64 of word i / 64, and a
    set bit means the page is not free. */
module Bitmap {
  import opened Words

  predicate Used(bits: seq<bv64>, i: nat)
    requires i < 64 * |bits|
  {
    Bit(bits[i / 64], i % 64)
  }

  /** *(page_bits + (i >> 6)) |= 1UL << i % 64 */
  function Mark(bits: seq<bv64>, i: nat): (marked: seq<bv64>)
    requires i < 64 * |bits|
    ensures |marked| == |bits|
  {
    bits[i / 64 := SetBit(bits[i / 64], i % 64)]
  }

  /** *(page_bits + (i >> 6)) ^= 1UL << i % 64 */
  function Toggle(bits: seq<bv64>, i: nat): (toggled: seq<bv64>)
    requires i < 64 * |bits|
    ensures |toggled| == |bits|
  {
    bits[i / 64 := ToggleBit(bits[i / 64], i % 64)]
  }

  lemma MarkAt(bits: seq<bv64>, i: nat, j: nat)
    requires i < 64 * |bits| && j < 64 * |bits|
    ensures Used(Mark(bits, i), j) <==> Used(bits, j) || j == i
  {
    hide Bit, SetBit;
    SetBitAt(bits[i / 64], i % 64, j % 64);
  }

  lemma ToggleAt(bits: seq<bv64>, i: nat, j: nat)
    requires i < 64 * |bits| && j < 64 * |bits|
    ensures Used(Toggle(bits, i), j) <==> Used(bits, j) != (j == i)
  {
    hide Bit, ToggleBit;
    ToggleBitAt(bits[i / 64], i % 64, j % 64);
  }

  /** Pages lo..hi toggled one after the other. */
  function ToggleRange(bits: seq<bv64>, lo: nat, hi: nat): (toggled: seq<bv64>)
    requires lo <= hi <= 64 * |bits|
    ensures |toggled| == |bits|
    decreases hi
  {
    if lo == hi then bits else Toggle(ToggleRange(bits, lo, hi - 1), hi - 1)
  }

  lemma {:induction false} ToggleRangeAt(bits: seq<bv64>, lo: nat, hi: nat, j: nat)
    requires lo <= hi <= 64 * |bits| && j < 64 * |bits|
    ensures Used(ToggleRange(bits, lo, hi), j) <==> Used(bits, j) != (lo <= j < hi)
    decreases hi
  {
    hide Used, Toggle;
    if lo < hi {
      ToggleRangeAt(bits, lo, hi - 1, j);
      ToggleAt(ToggleRange(bits, lo, hi - 1), hi - 1, j);
    }
  }

  // ---------- counting set bits ----------

  function CountUsed(bits: seq<bv64>, lo: nat, hi: nat): (count: nat)
    requires lo <= hi <= 64 * |bits|
    ensures count <= hi - lo
    decreases hi
  {
    if lo == hi then 0
    else CountUsed(bits, lo, hi - 1) + if Used(bits, hi - 1) then 1 else 0
  }

  lemma {:induction false} CountUsedSame(a: seq<bv64>, b: seq<bv64>, lo: nat, hi: nat)
    requires |a| == |b| && lo <= hi <= 64 * |a|
    requires forall i :: lo <= i < hi ==> Used(a, i) == Used(b, i)
    ensures CountUsed(a, lo, hi) == CountUsed(b, lo, hi)
    decreases hi
  {
    hide Used;
    if lo < hi {
      CountUsedSame(a, b, lo, hi - 1);
    }
  }

  /** Marking a clear page of the range counts one more; any other mark counts the same. */
  lemma {:induction false} CountUsedMark(bits: seq<bv64>, marked: seq<bv64>, i: nat, lo: nat, hi: nat)
    requires lo <= hi <= 64 * |bits| && |marked| == |bits| && i < 64 * |bits|
    requires forall j :: 0 <= j < 64 * |bits| ==> (Used(marked, j) <==> Used(bits, j) || j == i)
    ensures CountUsed(marked, lo, hi)
         == CountUsed(bits, lo, hi) + if lo <= i < hi && !Used(bits, i) then 1 else 0
    decreases hi
  {
    hide Used;
    if lo < hi {
      CountUsedMark(bits, marked, i, lo, hi - 1);
    }
  }

  lemma {:induction false} CountUsedNone(bits: seq<bv64>, lo: nat, hi: nat)
    requires lo <= hi <= 64 * |bits|
    requires forall i :: lo <= i < hi ==> !Used(bits, i)
    ensures CountUsed(bits, lo, hi) == 0
    decreases hi
  {
    hide Used;
    if lo < hi {
      CountUsedNone(bits, lo, hi - 1);
    }
  }

  /** A clear page of the range keeps the count below the length. */
  lemma {:induction false} CountUsedRoom(bits: seq<bv64>, lo: nat, hi: nat, i: nat)
    requires lo <= i < hi <= 64 * |bits| && !Used(bits, i)
    ensures CountUsed(bits, lo, hi) < hi - lo
    decreases hi
  {
    hide Used;
    if i < hi - 1 {
      CountUsedRoom(bits, lo, hi - 1, i);
    }
  }

  // ---------- runs of pages ----------

  predicate RunClear(bits: seq<bv64>, t: nat, n: nat)
    requires t + n <= 64 * |bits|
  {
    forall i :: t <= i < t + n ==> !Used(bits, i)
  }

  /** The two-word test alloc_pages makes for the run of n pages that starts at page t. */
  predicate RunTest(bits: seq<bv64>, t: nat, n: nat)
    requires t / 64 + 1 < |bits| && n <= 64
  {
    WindowClear(bits[t / 64], bits[t / 64 + 1], t % 64, n)
  }

  lemma PairUsed(bits: seq<bv64>, t: nat, i: nat)
    requires t / 64 + 1 < |bits| && t <= i < t + 64
    ensures t % 64 + (i - t) < 128
    ensures PairBit(bits[t / 64], bits[t / 64 + 1], t % 64 + (i - t)) == Used(bits, i)
  {
    hide Bit;
  }

  /** Away from word boundaries the test passes exactly when the run is clear. */
  lemma RunTestExact(bits: seq<bv64>, t: nat, n: nat)
    requires t / 64 + 1 < |bits| && n <= 64 && t % 64 != 0
    ensures RunTest(bits, t, n) <==> RunClear(bits, t, n)
  {
    hide Used, WindowClear, PairBit;
    var k := t % 64;
    var w0, w1 := bits[t / 64], bits[t / 64 + 1];
    WindowExact(w0, w1, k, n);
    forall i | t <= i < t + n
      ensures k + (i - t) < 128 && PairBit(w0, w1, k + (i - t)) == Used(bits, i)
    {
      PairUsed(bits, t, i);
    }
    if RunTest(bits, t, n) {
      forall i | t <= i < t + n
        ensures !Used(bits, i)
      {
        assert !PairBit(w0, w1, k + (i - t));
      }
    }
    if RunClear(bits, t, n) {
      forall m: nat | k <= m < k + n
        ensures !PairBit(w0, w1, m)
      {
        assert !Used(bits, t + (m - k));
      }
    }
  }

  lemma WordUsed(bits: seq<bv64>, q: nat, m: nat)
    requires q < |bits| && m < 64
    ensures Bit(bits[q], m) == Used(bits, 64 * q + m)
  {
    hide Bit;
  }

  /** At a word boundary the test passes exactly when the run is clear and so are the
      n pages one word further on. */
  lemma RunTestBoundary(bits: seq<bv64>, t: nat, n: nat)
    requires t / 64 + 1 < |bits| && n <= 64 && t % 64 == 0
    ensures RunTest(bits, t, n) <==> RunClear(bits, t, n) && RunClear(bits, t + 64, n)
  {
    hide Used, WindowClear, Bit;
    var q := t / 64;
    WindowAtBoundary(bits[q], bits[q + 1], n);
    forall m: nat | m < n
      ensures Bit(bits[q], m) == Used(bits, t + m) && Bit(bits[q + 1], m) == Used(bits, t + 64 + m)
    {
      WordUsed(bits, q, m);
      WordUsed(bits, q + 1, m);
    }
    if RunTest(bits, t, n) {
      forall i | t <= i < t + n
        ensures !Used(bits, i)
      {
        assert !Bit(bits[q], i - t);
      }
      forall i | t + 64 <= i < t + 64 + n
        ensures !Used(bits, i)
      {
        assert !Bit(bits[q + 1], i - t - 64);
      }
    }
    if !RunTest(bits, t, n) {
      var m: nat :| m < n && (Bit(bits[q], m) || Bit(bits[q + 1], m));
      assert Used(bits, t + m) || Used(bits, t + 64 + m);
    }
  }

  /** At every offset the test implies that the run is clear. */
  lemma RunTestSound(bits: seq<bv64>, t: nat, n: nat)
    requires t / 64 + 1 < |bits| && n <= 64 && RunTest(bits, t, n)
    ensures RunClear(bits, t, n)
  {
    hide RunTest, RunClear;
    if t % 64 == 0 {
      RunTestBoundary(bits, t, n);
    } else {
      RunTestExact(bits, t, n);
    }
  }
}
