/** Where a search can end: which requests are given a run that leaves available memory
    although no zone bound is checked, and what a claim of the tested run does otherwise. */
module Confinement {
  import opened Bitmap
  import opened Memory
  import opened Allocation

  // ---------- runs a scan can reach ----------

  /** Every scanned run of zone z that passes, for some request the zone is eligible for, lies
      in available memory. A request is given the first of them only. */
  ghost predicate Confined(st: State, z: nat)
    requires z < |st.zones|
  {
    forall t: nat, n: nat :: 1 <= n <= 64 && Eligible(st, z, n) && Passes(st, t, n)
      && Scanned(FirstPage(st.zones[z]), EndPage(st.zones[z]), t)
      ==> forall i :: t <= i < t + n ==> InZone(st, i)
  }

  /** The last position below a page count that is a multiple of 64 that a scan tries. */
  function LastTry(start: nat, total: nat): nat
    requires total > 0
  {
    if start / 64 == (total - 1) / 64 && start % 64 != 0 then 64 * (start / 64) + 63 - start % 64 else total - 1
  }

  /** The zone reaches the end of the bitmap and has a free page, so the scan goes on into
      the word behind, and a single page passes there. */
  predicate LeaksBehind(st: State, z: nat)
    requires z < |st.zones| && |st.pages| + 128 <= 64 * |st.bits|
  {
    var total := |st.pages|;
    EndPage(st.zones[z]) == total && Eligible(st, z, 1)
    && ((exists i :: total < i < total + 64 && !Used(st.bits, i))
        || (!Used(st.bits, total) && !Used(st.bits, total + 64)))
  }

  /** The run from the last position tried to the first bit behind the bitmap is clear, and
      the zone has as many free pages. */
  predicate LeaksAcross(st: State, z: nat)
    requires z < |st.zones| && |st.pages| + 128 <= 64 * |st.bits|
  {
    var total := |st.pages|;
    total > 0
    && var t := LastTry(FirstPage(st.zones[z]), total);
       t < total && Scanned(FirstPage(st.zones[z]), EndPage(st.zones[z]), t)
       && RunClear(st.bits, t, total + 1 - t) && Eligible(st, z, total + 1 - t)
  }

  predicate Leaks(st: State, z: nat)
    requires z < |st.zones|
  {
    |st.pages| % 64 == 0 && |st.pages| + 128 <= 64 * |st.bits|
    && (LeaksBehind(st, z) || LeaksAcross(st, z))
  }

  predicate Guarded(st: State) {
    forall z :: 0 <= z < |st.zones| ==> !Leaks(st, z)
  }

  /** A zone with a free page has pages, and its bounds are page numbers of the table. */
  lemma EligibleZone(st: State, z: nat)
    requires Inv(st) && z < |st.zones| && Eligible(st, z, 1)
    ensures FirstPage(st.zones[z]) < EndPage(st.zones[z]) <= |st.pages|
  {
    assert ZoneOk(st, z);
  }

  lemma ClearInZone(st: State, i: nat)
    requires Inv(st) && i < |st.pages| && !Used(st.bits, i)
    ensures InZone(st, i)
  {
    assert PageOk(st, i);
  }

  lemma BehindScanned(start: nat, total: nat, t: nat)
    requires total % 64 == 0 && start < total <= t < total + 64
    ensures Scanned(start, total, t) && (t % 64 == 0 <==> t == total)
  {}

  lemma LeakEscapes(st: State, z: nat) returns (t: nat, n: nat)
    requires Inv(st) && z < |st.zones| && Leaks(st, z)
    ensures 1 <= n <= 64 && Eligible(st, z, n) && Passes(st, t, n) && t + n > |st.pages|
    ensures Scanned(FirstPage(st.zones[z]), EndPage(st.zones[z]), t)
  {
    hide Used, RunTest, ZoneOk, PageOk;
    var total := |st.pages|;
    var start := FirstPage(st.zones[z]);
    EligibleZone(st, z);
    if LeaksAcross(st, z) {
      t := LastTry(start, total);
      n := total + 1 - t;
      AcrossOffset(start, total);
      RunTestExact(st.bits, t, n);
    } else if exists i :: total < i < total + 64 && !Used(st.bits, i) {
      t :| total < t < total + 64 && !Used(st.bits, t);
      n := 1;
      BehindScanned(start, total, t);
      RunTestExact(st.bits, t, n);
    } else {
      t, n := total, 1;
      BehindScanned(start, total, t);
      RunTestBoundary(st.bits, t, n);
    }
  }

  lemma AcrossOffset(start: nat, total: nat)
    requires total > 0 && total % 64 == 0
    ensures var t := LastTry(start, total);
            start <= t ==> t % 64 != 0 && total - 63 <= t < total
  {}

  /** A scanned position that is less than 64 pages before the end is at or before the last
      one tried, which is then scanned too. */
  lemma LastTryScanned(start: nat, end: nat, total: nat, t: nat)
    requires total % 64 == 0 && t < total < t + 64 && Scanned(start, end, t)
    ensures t <= LastTry(start, total) < total && Scanned(start, end, LastTry(start, total))
  {
    var q := total / 64 - 1;
    InWord(q, t);
    InWord(q, total - 1);
    if start / 64 == q && start % 64 != 0 {
      InWord(q, 64 * q + 63 - start % 64);
    }
  }

  lemma InWord(q: nat, t: nat)
    requires 64 * q <= t < 64 * q + 64
    ensures t / 64 == q && t % 64 == t - 64 * q
  {}

  lemma EscapeLeaks(st: State, z: nat, t: nat, n: nat)
    requires Inv(st) && z < |st.zones| && 1 <= n <= 64 && Eligible(st, z, n) && Passes(st, t, n)
    requires Scanned(FirstPage(st.zones[z]), EndPage(st.zones[z]), t) && t + n > |st.pages|
    ensures Leaks(st, z)
  {
    hide Used, RunTest, ZoneOk, PageOk, Scanned, LastTry;
    var total := |st.pages|;
    EligibleZone(st, z);
    ScanReadable(st, z, t);
    ScannedBelowEnd(FirstPage(st.zones[z]), EndPage(st.zones[z]), t);
    RunTestSound(st.bits, t, n);
    var first := if t < total then total else t;
    assert !Used(st.bits, first);
    LastWord(total, t, first);
    if t < total {
      LastTryScanned(FirstPage(st.zones[z]), EndPage(st.zones[z]), total, t);
    } else if t == total {
      RunTestBoundary(st.bits, t, n);
      assert !Used(st.bits, total + 64);
    }
  }

  lemma ScannedBelowEnd(start: nat, end: nat, t: nat)
    requires Scanned(start, end, t)
    ensures 64 * (t / 64) <= end
  {}

  lemma LastWord(total: nat, t: nat, first: nat)
    requires t / 64 <= total / 64 && first == if t < total then total else t
    ensures first < 64 * BitmapWords(total) || total % 64 == 0
    ensures total % 64 == 0 && t >= total ==> 64 * (t / 64) == total && t < total + 64
    ensures total % 64 == 0 ==> total + 128 == 64 * (BitmapWords(total) + 2)
  {}

  /** A run that passes lies in available memory exactly when it ends inside the page table. */
  lemma RunConfined(st: State, t: nat, n: nat)
    requires Inv(st) && 1 <= n <= 64 && Passes(st, t, n)
    ensures t + n <= 64 * |st.bits| && RunClear(st.bits, t, n)
    ensures (forall i :: t <= i < t + n ==> InZone(st, i)) <==> t + n <= |st.pages|
  {
    hide Inv, Used, RunTest;
    RunTestSound(st.bits, t, n);
    if t + n <= |st.pages| {
      forall i | t <= i < t + n
        ensures InZone(st, i)
      {
        ClearInZone(st, i);
      }
    } else {
      assert !InZone(st, t + n - 1);
    }
  }

  /** Although no zone bound is checked, the bitmap confines every scan, unless the page count
      is a multiple of 64 and some run that reaches into the word behind the bitmap passes. */
  lemma ConfinedIff(st: State, z: nat)
    requires Inv(st) && z < |st.zones|
    ensures Confined(st, z) <==> !Leaks(st, z)
  {
    hide Inv, Used, Passes, Scanned, Leaks, Eligible, InZone;
    if Leaks(st, z) {
      var t, n := LeakEscapes(st, z);
      RunConfined(st, t, n);
    } else {
      forall t: nat, n: nat | 1 <= n <= 64 && Eligible(st, z, n) && Passes(st, t, n)
        && Scanned(FirstPage(st.zones[z]), EndPage(st.zones[z]), t)
        ensures forall i :: t <= i < t + n ==> InZone(st, i)
      {
        RunConfined(st, t, n);
        if t + n > |st.pages| {
          EscapeLeaks(st, z, t, n);
        }
      }
    }
  }

  /** The word after the bitmap reads as all used. */
  predicate GuardSet(st: State) {
    forall i :: |st.pages| <= i < |st.pages| + 64 ==> i < 64 * |st.bits| && Used(st.bits, i)
  }

  /** No zone leaks when the page count is no multiple of 64, when the last page lies in no
      zone, or when the word behind the bitmap is all ones. */
  lemma GuardedWhen(st: State)
    requires Inv(st)
    requires |st.pages| % 64 != 0 || !InZone(st, |st.pages| - 1) || GuardSet(st)
    ensures Guarded(st)
  {
    hide Used, ZoneOk, PageOk, Scanned, LastTry;
    forall z | 0 <= z < |st.zones|
      ensures !Leaks(st, z)
    {
      if Leaks(st, z) {
        var last := |st.pages| - 1;
        EligibleZone(st, z);
        LastPageOfZone(st, z);
        if LeaksAcross(st, z) {
          assert !Used(st.bits, last) && !Used(st.bits, last + 1);
          ClearInZone(st, last);
        }
      }
    }
  }

  lemma LastPageOfZone(st: State, z: nat)
    requires Inv(st) && z < |st.zones| && Eligible(st, z, 1)
    ensures EndPage(st.zones[z]) == |st.pages| ==> InZone(st, |st.pages| - 1)
  {
    assert ZoneOk(st, z);
    if EndPage(st.zones[z]) == |st.pages| {
      assert Covers(st.zones[z], |st.pages| - 1);
      assert PageOk(st, |st.pages| - 1);
    }
  }

  /** With a free last page the scan of its zone reaches, and passes, every clear bit of the word
      behind the bitmap but the first. */
  lemma FreeLastPageLeaks(st: State, i: nat)
    requires Inv(st) && |st.pages| > 0 && |st.pages| % 64 == 0 && !Used(st.bits, |st.pages| - 1)
    requires |st.pages| < i < |st.pages| + 64 && i < 64 * |st.bits| && !Used(st.bits, i)
    ensures !Guarded(st)
  {
    hide Used, Scanned, LastTry;
    var last := |st.pages| - 1;
    assert PageOk(st, last);
    var z := st.pages[last].zone.value;
    var zone := st.zones[z];
    assert ZoneOk(st, z) && Covers(zone, last);
    CountUsedRoom(st.bits, zone.pagesGroup, zone.pagesGroup + zone.pagesLength, last);
    assert LeaksBehind(st, z);
    assert Leaks(st, z);
  }

  /** Calls never open a leak. */
  lemma ShrinksGuarded(st: State, st': State)
    requires Guarded(st) && Shrinks(st, st')
    ensures Guarded(st')
  {
    hide Used, Scanned, LastTry;
    forall z | 0 <= z < |st.zones|
      ensures !Leaks(st', z)
    {
      assert !Leaks(st, z);
    }
  }

  // ---------- the run a request is given ----------

  /** A search for n pages in zone z ends outside available memory: the page count is a
      multiple of 64, some scanned run that ends past the page table passes, and none that
      ends inside it does. */
  ghost predicate ZoneLeaks(st: State, z: nat, n: nat)
    requires z < |st.zones| && n <= 64
  {
    var start, end := FirstPage(st.zones[z]), EndPage(st.zones[z]);
    |st.pages| % 64 == 0
    && (exists t: nat :: t + n > |st.pages| && Scanned(start, end, t) && Passes(st, t, n))
    && (forall t: nat :: t + n <= |st.pages| && Scanned(start, end, t) ==> !Passes(st, t, n))
  }

  /** A request for n pages from zones lo..hi ends there: its first eligible zone in which
      anything passes leaks. */
  ghost predicate RequestLeaks(st: State, lo: int, hi: int, n: nat)
    requires n <= 64
  {
    exists z: nat :: lo <= z <= hi && LeaksFirst(st, lo, z, n)
  }

  ghost predicate LeaksFirst(st: State, lo: int, z: nat, n: nat)
    requires n <= 64
  {
    Eligible(st, z, n) && ZoneLeaks(st, z, n)
    && forall y :: lo <= y < z && Eligible(st, y, n) ==> Blocked(st, y, n)
  }

  /** The exact condition for one zone: the first run that passes in it, which is the one a
      request is given, lies in available memory if and only if the zone does not leak for n. */
  lemma ZoneLeaksIff(st: State, z: nat, n: nat)
    requires Inv(st) && z < |st.zones| && 1 <= n <= 64 && Eligible(st, z, n)
    ensures ZoneLeaks(st, z, n)
       <==> exists t: nat :: FirstIn(st, z, n, t) && !(forall i :: t <= i < t + n ==> InZone(st, i))
  {
    hide Inv, Passes, Scanned, Eligible, InZone;
    if ZoneLeaks(st, z, n) {
      var t: nat :| t + n > |st.pages| && Scanned(FirstPage(st.zones[z]), EndPage(st.zones[z]), t) && Passes(st, t, n);
      var first := FirstExists(st, z, n, t);
      RunConfined(st, first, n);
    }
    if t: nat :| FirstIn(st, z, n, t) && !(forall i :: t <= i < t + n ==> InZone(st, i)) {
      RunConfined(st, t, n);
      FirstEscapes(st, z, n, t);
    }
  }

  /** When the first run that passes ends past the page table, no run inside passes. */
  lemma FirstEscapes(st: State, z: nat, n: nat, t: nat)
    requires Inv(st) && z < |st.zones| && 1 <= n <= 64 && Eligible(st, z, n)
    requires FirstIn(st, z, n, t) && t + n > |st.pages|
    ensures ZoneLeaks(st, z, n)
  {
    hide Inv, Passes, Scanned;
    EscapeLeaks(st, z, t, n);
  }

  /** The exact condition for a request: what it is given ends past the page table if and only
      if the request leaks. */
  lemma RequestLeaksIff(st: State, lo: int, hi: int, n: nat, z: int, t: nat)
    requires Inv(st) && 1 <= n <= 64 && Found(st, lo, hi, n, z, t)
    ensures RequestLeaks(st, lo, hi, n) <==> !(forall i :: t <= i < t + n ==> InZone(st, i))
    ensures RequestLeaks(st, lo, hi, n) <==> t + n > |st.pages|
  {
    hide Inv, Passes, Scanned, InZone;
    RunConfined(st, t, n);
    if t + n > |st.pages| {
      FirstEscapes(st, z, n, t);
      assert LeaksFirst(st, lo, z, n);
    }
    if z': nat :| lo <= z' <= hi && LeaksFirst(st, lo, z', n) {
      assert !Blocked(st, z, n) && !Blocked(st, z', n);
      assert z' == z;
    }
  }

  /** A request that leaks is given some run. */
  lemma LeakIsFound(st: State, lo: int, hi: int, n: nat) returns (z: int, t: nat)
    requires Inv(st) && 1 <= n <= 64 && RequestLeaks(st, lo, hi, n)
    ensures Found(st, lo, hi, n, z, t) && t + n > |st.pages|
  {
    hide Inv, Passes, Scanned, InZone;
    var y: nat :| lo <= y <= hi && LeaksFirst(st, lo, y, n);
    var u: nat :| u + n > |st.pages| && Scanned(FirstPage(st.zones[y]), EndPage(st.zones[y]), u) && Passes(st, u, n);
    z := y;
    t := FirstExists(st, y, n, u);
  }

  /** Without a leaking zone no request leaks. */
  lemma GuardedRequests(st: State, lo: int, hi: int, n: nat)
    requires Inv(st) && Guarded(st) && 1 <= n <= 64
    ensures !RequestLeaks(st, lo, hi, n)
  {
    hide Inv, Passes, Scanned, Leaks;
    if z: nat :| lo <= z <= hi && LeaksFirst(st, lo, z, n) {
      var t: nat :| t + n > |st.pages| && Scanned(FirstPage(st.zones[z]), EndPage(st.zones[z]), t) && Passes(st, t, n);
      EscapeLeaks(st, z, t, n);
    }
  }

  /** Claiming a tested run that ends inside the page table meets the allocation contract: n
      consecutive pages of available memory, all free before and all used after, everything
      else untouched, and the free total down by exactly n. */
  lemma TestedRunContract(st: State, n: nat, t: nat, flags: bv64)
    requires Inv(st) && 1 <= n <= 64 && flags != 0 && Passes(st, t, n) && t + n <= |st.pages|
    ensures forall i :: t <= i < t + n ==>
              InZone(st, i) && Touchable(st, i) && i < 64 * |st.bits| && !Used(st.bits, i)
    ensures var st' := ClaimRun(st, t, n, flags);
            Inv(st')
            && (forall i :: 0 <= i < 64 * |st.bits| ==> (Used(st'.bits, i) <==> Used(st.bits, i) || t <= i < t + n))
            && (forall i :: 0 <= i < |st.pages| && !(t <= i < t + n) ==> st'.pages[i] == st.pages[i])
            && (forall i :: t <= i < t + n && i < |st'.pages| ==> st'.pages[i].attribute == flags)
            && (forall i :: InZone(st, i) ==> InZone(st', i))
            && TotalFree(st'.zones) == TotalFree(st.zones) - n
  {
    hide RunTest, Used, PageOk, ZoneOk, TotalFree, ClaimRun, PageInit;
    RunConfined(st, t, n);
    ClaimRunEffect(st, t, n, flags);
  }
}
