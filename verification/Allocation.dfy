/** What alloc_pages looks for and what it claims: the positions it scans, the run it tests,
    the outcome of a search, and the run the code as written claims. */
module Allocation {
  import opened Bitmap
  import opened Memory

  const ZONE_DMA := 1
  const ZONE_NORMAL := 2
  const ZONE_UNMAPED := 4

  function FirstPage(z: Zone): nat { z.startAddr / PAGE_SIZE }

  function EndPage(z: Zone): nat { z.endAddr / PAGE_SIZE }

  // ---------- the scan ----------

  /** Pages in the words that the scan of a zone start..end visits: from start in the word
      that holds it to the last word whose first page is not beyond end. */
  predicate Visited(start: nat, end: nat, t: nat) {
    start <= t && start <= end && 64 * (t / 64) <= end
  }

  /** Pages whose run is tested. In a first word entered at offset s > 0 only the offsets
      s..64 - s are tried. */
  predicate Scanned(start: nat, end: nat, t: nat) {
    Visited(start, end, t)
    && (t / 64 == start / 64 && start % 64 != 0 ==> t % 64 < 64 - start % 64)
  }

  /** The value of j while the word of page t is searched. */
  function ScanWord(start: nat, t: nat): nat {
    if t / 64 == start / 64 then start else 64 * (t / 64)
  }

  predicate Passes(st: State, t: nat, n: nat)
    requires n <= 64
  {
    t / 64 + 1 < |st.bits| && RunTest(st.bits, t, n)
  }

  predicate Eligible(st: State, z: int, n: nat) {
    0 <= z < |st.zones| && st.zones[z].freeCount >= n
  }

  /** No scanned run of the zone passes the test. */
  ghost predicate Blocked(st: State, z: int, n: nat)
    requires 0 <= z < |st.zones| && n <= 64
  {
    forall t: nat :: Scanned(FirstPage(st.zones[z]), EndPage(st.zones[z]), t) ==> !Passes(st, t, n)
  }

  /** t is the lowest scanned page of the zone whose run passes the test. */
  ghost predicate FirstIn(st: State, z: int, n: nat, t: nat)
    requires 0 <= z < |st.zones| && n <= 64
  {
    var start, end := FirstPage(st.zones[z]), EndPage(st.zones[z]);
    Scanned(start, end, t) && Passes(st, t, n)
    && forall u: nat :: u < t && Scanned(start, end, u) ==> !Passes(st, u, n)
  }

  /** Zone z is the first eligible one of lo..hi in which a scanned run passes, and t is
      the lowest such run. */
  ghost predicate Found(st: State, lo: int, hi: int, n: nat, z: int, t: nat)
    requires n <= 64
  {
    lo <= z <= hi && Eligible(st, z, n) && FirstIn(st, z, n, t)
    && forall y :: lo <= y < z && Eligible(st, y, n) ==> Blocked(st, y, n)
  }

  ghost predicate NotFound(st: State, lo: int, hi: int, n: nat)
    requires n <= 64
  {
    forall y :: lo <= y <= hi && Eligible(st, y, n) ==> Blocked(st, y, n)
  }

  /** A search has one outcome. */
  lemma SearchDetermined(st: State, lo: int, hi: int, n: nat, z: int, t: nat, z': int, t': nat)
    requires n <= 64 && Found(st, lo, hi, n, z, t)
    ensures !NotFound(st, lo, hi, n)
    ensures Found(st, lo, hi, n, z', t') ==> z' == z && t' == t
  {
    hide Scanned, Passes;
    assert !Blocked(st, z, n);
    if Found(st, lo, hi, n, z', t') {
      assert !Blocked(st, z', n);
    }
  }

  /** If a scanned run passes, there is a lowest one. */
  lemma {:induction false} FirstExists(st: State, z: int, n: nat, t: nat) returns (first: nat)
    requires 0 <= z < |st.zones| && n <= 64
    requires Scanned(FirstPage(st.zones[z]), EndPage(st.zones[z]), t) && Passes(st, t, n)
    ensures first <= t && FirstIn(st, z, n, first)
    decreases t
  {
    hide Scanned, Passes;
    first := t;
    if !FirstIn(st, z, n, t) {
      var u: nat :| u < t && Scanned(FirstPage(st.zones[z]), EndPage(st.zones[z]), u) && Passes(st, u, n);
      first := FirstExists(st, z, n, u);
    }
  }

  /** A clear run of n pages from t on, in a word that the scan of zone z visits. */
  predicate Offers(st: State, z: int, n: nat, t: nat)
    requires 0 <= z < |st.zones| && n <= 64
  {
    Visited(FirstPage(st.zones[z]), EndPage(st.zones[z]), t)
    && t / 64 + 1 < |st.bits| && RunClear(st.bits, t, n)
  }

  /** The clear runs that the search passes over: those at the offsets it skips in a first
      word that it does not enter at the front, and those at a word boundary when the run one
      word further on is not clear. */
  predicate Missed(st: State, z: int, n: nat, t: nat)
    requires 0 <= z < |st.zones| && n <= 64 && t / 64 + 1 < |st.bits|
  {
    var start := FirstPage(st.zones[z]);
    (t / 64 == start / 64 && start % 64 != 0 && t % 64 >= 64 - start % 64)
    || (t % 64 == 0 && !RunClear(st.bits, t + 64, n))
  }

  lemma OfferedIff(st: State, z: int, n: nat, t: nat)
    requires Inv(st) && 0 <= z < |st.zones| && n <= 64
    ensures Scanned(FirstPage(st.zones[z]), EndPage(st.zones[z]), t) && Passes(st, t, n)
       <==> Offers(st, z, n, t) && !Missed(st, z, n, t)
  {
    hide RunTest, RunClear, Used, FirstPage, EndPage;
    if Visited(FirstPage(st.zones[z]), EndPage(st.zones[z]), t) {
      VisitedReadable(st, z, t);
      if t % 64 != 0 {
        RunTestExact(st.bits, t, n);
      } else {
        RunTestBoundary(st.bits, t, n);
      }
    }
  }

  /** NULL is returned exactly when every clear run of n pages in a zone with as many free
      pages is one that the search misses. */
  lemma NullIff(st: State, lo: int, hi: int, n: nat)
    requires Inv(st) && n <= 64
    ensures NotFound(st, lo, hi, n) <==>
      forall z, t: nat ::
        lo <= z <= hi && 0 <= z < |st.zones| && st.zones[z].freeCount >= n && Offers(st, z, n, t)
        ==> Missed(st, z, n, t)
  {
    hide Inv, Missed, Passes, Scanned, FirstPage, EndPage;
    forall z, t: nat | lo <= z <= hi && Eligible(st, z, n)
      ensures Scanned(FirstPage(st.zones[z]), EndPage(st.zones[z]), t) && Passes(st, t, n)
         <==> Offers(st, z, n, t) && !Missed(st, z, n, t)
    {
      OfferedIff(st, z, n, t);
    }
  }

  /** The search never reads beyond the two words after the bitmap. */
  lemma VisitedReadable(st: State, z: int, t: nat)
    requires Inv(st) && 0 <= z < |st.zones|
    requires Visited(FirstPage(st.zones[z]), EndPage(st.zones[z]), t)
    ensures t / 64 + 1 < |st.bits| && t / 64 <= |st.pages| / 64
  {
    assert ZoneOk(st, z);
  }

  lemma ScanReadable(st: State, z: int, t: nat)
    requires Inv(st) && 0 <= z < |st.zones|
    requires Scanned(FirstPage(st.zones[z]), EndPage(st.zones[z]), t)
    ensures t / 64 + 1 < |st.bits| && t / 64 <= |st.pages| / 64
  {
    VisitedReadable(st, z, t);
  }

  // ---------- the claim ----------

  /** The index the source claims for a hit at t: j + k - 1. */
  function WrittenIndex(start: nat, t: nat): int {
    ScanWord(start, t) + t % 64 - 1
  }

  /** The claimed run is the tested run exactly when the hit lies in the zone's first word
      and the zone starts at offset 1 of a word. */
  lemma WrittenIndexIff(start: nat, end: nat, t: nat)
    requires Scanned(start, end, t)
    ensures WrittenIndex(start, t) == t <==> t / 64 == start / 64 && start % 64 == 1
  {}

  /** Pages p..p + n of the page table are clear. */
  predicate FreeRun(st: State, p: int, n: nat) {
    0 <= p && p + n <= |st.pages| && p + n <= 64 * |st.bits| && RunClear(st.bits, p, n)
  }

  /** In a word entered at its first bit the source claims from one page before the tested
      run, so that this page alone decides whether the claimed run is free. If that page was
      scanned too, it can only be free when the run starts at offset 1 of its word. */
  lemma WrittenFreeIff(st: State, z: int, n: nat, t: nat)
    requires Inv(st) && 0 <= z < |st.zones| && 1 <= n <= 64 && FirstIn(st, z, n, t)
    requires ScanWord(FirstPage(st.zones[z]), t) % 64 == 0
    ensures WrittenIndex(FirstPage(st.zones[z]), t) == t - 1
    ensures t <= 64 * |st.bits|
    ensures FreeRun(st, t - 1, n) <==> t >= 1 && t - 1 + n <= |st.pages| && !Used(st.bits, t - 1)
    ensures t >= 1 && Scanned(FirstPage(st.zones[z]), EndPage(st.zones[z]), t - 1)
      ==> (FreeRun(st, t - 1, n) <==> t % 64 == 1 && t - 1 + n <= |st.pages| && !Used(st.bits, t - 1))
  {
    hide RunTest, Used;
    ScanReadable(st, z, t);
    RunTestSound(st.bits, t, n);
    if t >= 1 && t % 64 != 1 && Scanned(FirstPage(st.zones[z]), EndPage(st.zones[z]), t - 1) {
      WrittenClaimsUsedPage(st, z, n, t);
    }
  }

  /** In a first word entered at offset s > 0 the claimed run starts s - 1 pages after the
      tested one: only the pages that the test did not see decide. */
  lemma WrittenFreeInFirstWord(st: State, z: int, n: nat, t: nat)
    requires Inv(st) && 0 <= z < |st.zones| && 1 <= n <= 64 && FirstIn(st, z, n, t)
    requires t / 64 == FirstPage(st.zones[z]) / 64 && FirstPage(st.zones[z]) % 64 != 0
    ensures var w := WrittenIndex(FirstPage(st.zones[z]), t);
            w == t + FirstPage(st.zones[z]) % 64 - 1 && w + n <= 64 * |st.bits|
            && (FreeRun(st, w, n) <==>
                  w + n <= |st.pages| && forall i :: w <= i < w + n && t + n <= i ==> !Used(st.bits, i))
  {
    hide RunTest, Used;
    ScanReadable(st, z, t);
    RunTestSound(st.bits, t, n);
  }

  /** In a word entered at its first bit: unless the run starts at offset 1, the page before
      it is in use whenever it was scanned, because the run one page earlier was tried first
      and failed. */
  lemma WrittenClaimsUsedPage(st: State, z: int, n: nat, t: nat)
    requires Inv(st) && 0 <= z < |st.zones| && 1 <= n <= 64 && FirstIn(st, z, n, t)
    requires t >= 1 && t % 64 != 1
    requires ScanWord(FirstPage(st.zones[z]), t) % 64 == 0
    requires Scanned(FirstPage(st.zones[z]), EndPage(st.zones[z]), t - 1)
    ensures WrittenIndex(FirstPage(st.zones[z]), t) == t - 1 && Used(st.bits, t - 1)
  {
    hide RunTest, Used;
    ScanReadable(st, z, t);
    ScanReadable(st, z, t - 1);
    assert !Passes(st, t - 1, n);
    RunTestSound(st.bits, t, n);
    RunTestExact(st.bits, t - 1, n);
  }

  /** A zone that starts on a word boundary: every hit other than its first page or an
      offset of 1 makes the source return a page that is in use. */
  lemma WrittenClaimAligned(st: State, z: int, n: nat, t: nat)
    requires Inv(st) && 0 <= z < |st.zones| && 1 <= n <= 64 && FirstIn(st, z, n, t)
    requires FirstPage(st.zones[z]) % 64 == 0 && t > FirstPage(st.zones[z]) && t % 64 != 1
    ensures Used(st.bits, WrittenIndex(FirstPage(st.zones[z]), t))
  {
    hide RunTest, Used;
    WrittenClaimsUsedPage(st, z, n, t);
  }
}
