/** The page manager as the kernel runs it: gmdsc with its three tables in memory, updated
    in place by init_memory, page_init and alloc_pages. */
module MemoryManager {
  import opened Prelude
  import opened BitVectors
  import opened Words
  import opened Bitmap
  import opened Memory
  import opened Construction
  import opened Allocation
  import opened Confinement
  import opened Histories
  import opened Boot
  import opened Counterexamples

  /** What alloc_pages returns. Wild means that after so many page_init calls the claim
      reached something that is not the descriptor of a page in a zone; what the next call
      overwrites is outside the model. */
  datatype Result = Null | Pages(first: int) | Wild(first: int, calls: nat)

  /** The zones a request searches: first and last index, both included. */
  function ZoneRange(select: int, dma: int, normal: int, unmaped: int, zones: int): Option<(int, int)> {
    if select == ZONE_DMA then Some((0, dma))
    else if select == ZONE_NORMAL then Some((dma, normal))
    else if select == ZONE_UNMAPED then Some((unmaped, zones - 1))
    else None
  }

  /** alloc_pages with its claim at index j + k - 1, as written. */
  ghost predicate AllocatedAsWritten(st: State, range: Option<(int, int)>, n: nat, flags: bv64, r: Result, st': State)
    requires n <= 64
  {
    match range
    case None => r == Null && st' == st
    case Some((lo, hi)) =>
      match r
      case Null => NotFound(st, lo, hi, n) && st' == st
      case Pages(first) =>
        (exists z, t :: Found(st, lo, hi, n, z, t) && first == WrittenIndex(FirstPage(st.zones[z]), t))
        && (forall i :: first <= i < first + n ==> Touchable(st, i))
        && st' == ClaimRun(st, first, n, flags)
      case Wild(first, calls) =>
        (exists z, t :: Found(st, lo, hi, n, z, t) && first == WrittenIndex(FirstPage(st.zones[z]), t))
        && calls < n
        && (forall i :: first <= i < first + calls ==> Touchable(st, i))
        && !Touchable(st, first + calls)
        && st' == ClaimRun(st, first, calls, flags)
  }

  /** alloc_pages with its claim at the run it tested: a step of the allocation history. */
  ghost predicate AllocatedAsTested(st: State, lo: int, hi: int, n: nat, flags: bv64, r: Result, st': State)
    requires 1 <= n <= 64 && flags != 0
  {
    (r == Null <==> NotFound(st, lo, hi, n))
    && (r.Wild? <==> RequestLeaks(st, lo, hi, n))
    && (r != Null ==> r.first >= 0)
    && Step(st, Alloc(lo, hi, n, flags, if r == Null then None else Some(r.first)), st')
  }

  lemma FoundSome(st: State, lo: int, hi: int, n: nat, z: int, t: nat)
    requires n <= 64 && Found(st, lo, hi, n, z, t)
    ensures !NotFound(st, lo, hi, n)
  {
    SearchDetermined(st, lo, hi, n, z, t, z, t);
  }

  /** The allocation contract: n consecutive pages of available memory, all free before and
      all used after, everything else untouched, the accounting right and the free total
      down by n. */
  ghost predicate MeetsContract(st: State, n: nat, r: Result, st': State) {
    match r
    case Pages(p) =>
      p >= 0 && |st'.bits| == |st.bits| && |st'.pages| == |st.pages|
      && (forall i :: p <= i < p + n ==> InZone(st, i) && i < 64 * |st.bits| && !Used(st.bits, i))
      && (forall i :: 0 <= i < 64 * |st.bits| ==> (Used(st'.bits, i) <==> Used(st.bits, i) || p <= i < p + n))
      && (forall i :: 0 <= i < |st.pages| && !(p <= i < p + n) ==> st'.pages[i] == st.pages[i])
      && Inv(st') && TotalFree(st'.zones) == TotalFree(st.zones) - n
    case _ => false
  }

  lemma TouchableIffInZone(st: State, i: int)
    requires Inv(st)
    ensures Touchable(st, i) <==> InZone(st, i)
  {
    if InZone(st, i) {
      InZoneTouchable(st, i);
    }
  }

  /** The run that a search claims is decided by its outcome. */
  lemma WrittenAt(st: State, lo: int, hi: int, n: nat, flags: bv64, r: Result, st': State, z: int, t: nat)
    requires n <= 64 && Found(st, lo, hi, n, z, t)
    requires AllocatedAsWritten(st, Some((lo, hi)), n, flags, r, st')
    ensures !r.Null? && r.first == WrittenIndex(FirstPage(st.zones[z]), t)
  {
    hide FirstIn, Blocked, Eligible, ClaimRun, Touchable, NotFound;
    forall z', t' | Found(st, lo, hi, n, z', t')
      ensures z' == z && t' == t
    {
      SearchDetermined(st, lo, hi, n, z, t, z', t');
    }
    SearchDetermined(st, lo, hi, n, z, t, z, t);
  }

  /** The code as written meets the allocation contract exactly when the pages it claims,
      from j + k - 1 on, are clear pages of the table. */
  lemma WrittenMeetsContractIff(st: State, lo: int, hi: int, n: nat, flags: bv64, r: Result, st': State, z: int, t: nat)
    requires Inv(st) && 1 <= n <= 64 && flags != 0
    requires Found(st, lo, hi, n, z, t) && AllocatedAsWritten(st, Some((lo, hi)), n, flags, r, st')
    ensures MeetsContract(st, n, r, st') <==> FreeRun(st, WrittenIndex(FirstPage(st.zones[z]), t), n)
  {
    hide Inv, Used, Touchable, InZone, TotalFree, ClaimRun, Found, WrittenIndex;
    WrittenAt(st, lo, hi, n, flags, r, st', z, t);
    var w := r.first;
    if FreeRun(st, w, n) {
      forall i | w <= i < w + n
        ensures InZone(st, i) && Touchable(st, i)
      {
        ClearInZone(st, i);
        TouchableIffInZone(st, i);
      }
      ClaimRunEffect(st, w, n, flags);
    } else if MeetsContract(st, n, r, st') {
      LastInTable(st, w + n - 1);
    }
  }

  lemma LastInTable(st: State, i: int)
    requires InZone(st, i)
    ensures 0 <= i < |st.pages|
  {}

  /** The first request after boot, on the example map: whatever memory holds behind the
      bitmap, the code as written claims a page of the metadata and breaks its contract. */
  lemma FirstRequestBreaksContract(after0: bv64, after1: bv64, flags: bv64, r: Result, st': State)
    requires flags != 0 && BootMap(EXAMPLE_MAP, EXAMPLE_IMAGE)
    requires AllocatedAsWritten(Booted(EXAMPLE_MAP, EXAMPLE_IMAGE, after0, after1), Some((0, 0)), 1, flags, r, st')
    ensures !r.Null? && ReservedFrom(EXAMPLE_IMAGE) <= r.first < ReservedTo(EXAMPLE_MAP, EXAMPLE_IMAGE)
    ensures !MeetsContract(Booted(EXAMPLE_MAP, EXAMPLE_IMAGE, after0, after1), 1, r, st')
  {
    hide Inv, BootMap, Booted, Used, Found, ReservedFrom, ReservedTo, MeetsContract, AllocatedAsWritten, WrittenIndex;
    var st := Booted(EXAMPLE_MAP, EXAMPLE_IMAGE, after0, after1);
    WrittenClaimExample(after0, after1);
    BootedInv(EXAMPLE_MAP, EXAMPLE_IMAGE, after0, after1);
    WrittenAt(st, 0, 0, 1, flags, r, st', 0, 8859);
    WrittenMeetsContractIff(st, 0, 0, 1, flags, r, st', 0, 8859);
  }

  /** The claim leaves the descriptors exactly when one of the claimed pages lies in no zone;
      a hit at page 0 claims index -1, in front of the table. */
  lemma WrittenWildIff(st: State, lo: int, hi: int, n: nat, flags: bv64, r: Result, st': State, z: int, t: nat)
    requires Inv(st) && 1 <= n <= 64
    requires Found(st, lo, hi, n, z, t) && AllocatedAsWritten(st, Some((lo, hi)), n, flags, r, st')
    ensures var w := WrittenIndex(FirstPage(st.zones[z]), t);
            r.Wild? <==> exists i :: w <= i < w + n && !InZone(st, i)
    ensures t == 0 ==> r == Wild(-1, 0)
  {
    hide Inv, Touchable, InZone, ClaimRun, Found;
    WrittenAt(st, lo, hi, n, flags, r, st', z, t);
    forall i
      ensures Touchable(st, i) <==> InZone(st, i)
    {
      TouchableIffInZone(st, i);
    }
    if t == 0 {
      FoundAtZero(st, lo, hi, n, z);
      assert r.Wild? && r.calls > 0 ==> Touchable(st, -1);
    }
  }

  lemma FoundAtZero(st: State, lo: int, hi: int, n: nat, z: int)
    requires n <= 64 && Found(st, lo, hi, n, z, 0)
    ensures WrittenIndex(FirstPage(st.zones[z]), 0) == -1 && !InZone(st, -1)
  {
    hide Passes;
  }

  // ---------- sequences of calls to the written code ----------

  datatype WrittenCall = WrittenCall(range: Option<(int, int)>, n: nat, flags: bv64, result: Result)

  /** A call with flags that does not end wild. */
  ghost predicate WrittenStep(st: State, c: WrittenCall, st': State) {
    c.n <= 64 && c.flags != 0 && !c.result.Wild?
    && AllocatedAsWritten(st, c.range, c.n, c.flags, c.result, st')
  }

  /** states[k] is the state before calls[k]. */
  ghost predicate WrittenHistory(states: seq<State>, calls: seq<WrittenCall>) {
    |states| == |calls| + 1
    && forall k :: 0 <= k < |calls| ==> WrittenStep(states[k], calls[k], states[k + 1])
  }

  lemma WrittenStepInv(st: State, c: WrittenCall, st': State)
    requires Inv(st) && WrittenStep(st, c, st')
    ensures Inv(st') && Shrinks(st, st') && forall i :: InZone(st', i) <==> InZone(st, i)
  {
    hide Inv, Used, InZone, Found, NotFound, ClaimRun, Touchable;
    if c.result.Pages? {
      assert c.range.Some?;
      ClaimRunKeepsInv(st, c.result.first, c.n, c.flags);
      ClaimRunShrinks(st, c.result.first, c.n, c.flags);
    }
  }

  /** The code as written may return pages in use, but over every such history the accounting
      stays right, no page in use becomes free, and available memory stays the same. */
  lemma {:induction false} WrittenHistoryInv(states: seq<State>, calls: seq<WrittenCall>, k: nat)
    requires WrittenHistory(states, calls) && Inv(states[0]) && k <= |calls|
    ensures Inv(states[k]) && Shrinks(states[0], states[k])
    ensures forall i :: InZone(states[k], i) <==> InZone(states[0], i)
    decreases k
  {
    hide Inv, Used, InZone, WrittenStep;
    if k > 0 {
      WrittenHistoryInv(states, calls, k - 1);
      WrittenStepInv(states[k - 1], calls[k - 1], states[k]);
    }
  }

  /** Where the search stopped: zone index, word cursor j and bit offset k. */
  datatype Hit = Hit(zone: int, j: nat, k: nat)

  /** First page of the run the search tested: *p is the word of j, shifted by k. */
  function TestedPage(h: Hit): nat { 64 * (h.j / 64) + h.k }

  /** One turn of the loop over j visits the scanned pages below the next value of j. */
  lemma ScanStep(start: nat, end: nat, j: nat, t: nat)
    requires j == start || (start < j && j % 64 == 0)
    requires j <= end && j <= t < j + (if j % 64 != 0 then 64 - start % 64 else 64)
    ensures Scanned(start, end, t) <==> j % 64 <= t % 64 < 64 - j % 64
    ensures t / 64 == j / 64 && ScanWord(start, t) == j
  {}

  class MemoryManager {
    var e820: seq<E820>
    var layout: Layout
    var pageBits: array<bv64>
    var pages: array<Page>
    var zones: array<Zone>
    const dmaIndex: int
    const normalIndex: int
    const unmapedIndex: int

    ghost function St(): State
      reads this, pageBits, pages, zones
    {
      State(pageBits[..], pages[..], zones[..])
    }

    /** The three tables are different objects. */
    predicate Separate()
      reads this
    {
      var a: object, b: object, c: object := pageBits, pages, zones;
      a != b && a != c && b != c
    }

    function Range(select: int): Option<(int, int)>
      reads this
    {
      ZoneRange(select, dmaIndex, normalIndex, unmapedIndex, zones.Length)
    }

    /** The zone indices name zones. */
    predicate IndicesOk()
      reads this
    {
      0 <= dmaIndex < zones.Length && 0 <= normalIndex < zones.Length && 0 <= unmapedIndex
    }

    /** gmdsc after the memory map has been read, before init_memory. */
    constructor (entries: seq<E820>, dma: int, normal: int, unmaped: int)
      ensures e820 == entries && dmaIndex == dma && normalIndex == normal && unmapedIndex == unmaped
      ensures Separate() && fresh(pageBits) && fresh(pages) && fresh(zones)
    {
      e820 := entries;
      layout := Layout(0, 0, 0, 0, 0);
      pageBits := new bv64[0];
      pages := new Page[0];
      zones := new Zone[0];
      dmaIndex, normalIndex, unmapedIndex := dma, normal, unmaped;
    }

    /** after0 and after1 are the words that memory holds behind the bitmap. */
    method InitMemory(image: Image, after0: bv64, after1: bv64)
      requires BootMap(e820, image)
      modifies this
      ensures e820 == old(e820)
      ensures layout == LayOut(image.kernelEnd, TotalPages(e820), Available(e820))
      ensures Separate() && fresh(pageBits) && fresh(pages) && fresh(zones)
      ensures St() == Booted(e820, image, after0, after1)
    {
      hide GoodMap, Inv, Used, LayOut, BuildZones, ClaimRun, MakesZone, HoldsImage, ReservedFrom, ReservedTo;
      BootFits(e820, image, after0, after1);
      BootDefined(e820, image, after0, after1);
      var total := TotalPages(e820);
      layout := LayOut(image.kernelEnd, total, Available(e820));
      var words := BitmapWords(total);
      pageBits := new bv64[words + 2](i => if i < words then ALL_ONES else if i == words then after0 else after1);
      pages := new Page[total](_ => ZERO_PAGE);
      zones := new Zone[Available(e820)](_ => ZERO_ZONE);
      assert pageBits[..] == Blank(total, Available(e820), after0, after1).bits;
      assert St() == Blank(total, Available(e820), after0, after1);
      BuildZoneTables();
      assert St() == Zoned(e820, image, after0, after1);
      ReservePages(ReservedFrom(image), ReservedTo(e820, image));
    }

    /** The first loop of construct_mem_struct. */
    method BuildZoneTables()
      requires Separate() && Fits(St(), e820)
      modifies pageBits, pages, zones
      ensures St() == BuildZones(old(St()), e820)
    {
      hide EntryFirst, EntryEnd, AddZone;
      var zone := 0;
      for i := 0 to |e820|
        invariant Fits(old(St()), e820[..i])
        invariant zone == ZoneCount(e820[..i])
        invariant St() == BuildZones(old(St()), e820[..i])
      {
        assert e820[..i + 1][..i] == e820[..i];
        AvailableGrows(e820, i + 1);
        var e := e820[i];
        assert e in e820;
        if e.kind != E820_AVAILABLE { continue; }
        var start, end := EntryFirst(e), EntryEnd(e);
        if end <= start { continue; }
        FillZone(zone, start, end);
        zone := zone + 1;
      }
      assert e820[..|e820|] == e820;
    }

    /** One zone: its descriptor, then page by page the descriptor and the bit. */
    method FillZone(zone: nat, start: nat, end: nat)
      requires Separate() && zone < zones.Length && start <= end <= pages.Length <= 64 * pageBits.Length
      modifies pageBits, pages, zones
      ensures St() == AddZone(old(St()), zone, start, end)
    {
      hide ToggleBit;
      zones[zone] := FreshZone(start, end);
      for j := start to end
        invariant zones[..] == old(zones[..])[zone := FreshZone(start, end)]
        invariant pages[..] == SetPages(old(pages[..]), start, j, zone)
        invariant pageBits[..] == ToggleRange(old(pageBits[..]), start, j)
      {
        pages[j] := FreshPage(j, zone);
        pageBits[j / 64] := ToggleBit(pageBits[j / 64], j % 64);
      }
    }

    /** The last loop of construct_mem_struct. */
    method ReservePages(from: nat, to: nat)
      requires Separate() && from <= to
      requires forall i :: from <= i < to ==> Touchable(St(), i)
      modifies pageBits, pages, zones
      ensures St() == ClaimRun(old(St()), from, to - from, KERNEL_FLAGS)
    {
      hide Memory.PageInit;
      for i := from to to
        invariant St() == ClaimRun(old(St()), from, i - from, KERNEL_FLAGS)
      {
        assert Touchable(old(St()), i);
        PageInit(i, KERNEL_FLAGS);
      }
    }

    method PageInit(i: nat, flags: bv64)
      requires Separate() && Touchable(St(), i)
      modifies pageBits, pages, zones
      ensures St() == Memory.PageInit(old(St()), i, flags)
    {
      hide SetBit, Or, Shared, Decrement;
      var p := pages[i];
      var z := p.zone.value;
      var b := p.phyAddr / PAGE_SIZE;
      if p.attribute == 0 {
        pageBits[b / 64] := SetBit(pageBits[b / 64], b % 64);
        pages[i] := p.(attribute := flags, refCount := p.refCount + 1);
        zones[z] := zones[z].(usingCount := zones[z].usingCount + 1);
        zones[z] := zones[z].(freeCount := Decrement(zones[z].freeCount));
        zones[z] := zones[z].(totalLink := zones[z].totalLink + 1);
      } else if Shared(p.attribute, flags) {
        pages[i] := p.(attribute := Or(p.attribute, flags), refCount := p.refCount + 1);
        zones[z] := zones[z].(totalLink := zones[z].totalLink + 1);
      } else {
        pageBits[b / 64] := SetBit(pageBits[b / 64], b % 64);
        pages[i] := p.(attribute := Or(p.attribute, flags));
      }
    }

    /** The nested search loops of alloc_pages up to the jump to find_free_pages. */
    method FindWindow(lo: nat, hi: int, n: nat) returns (hit: Option<Hit>)
      requires Inv(St()) && hi < zones.Length && n <= 64
      ensures hit.None? ==> NotFound(St(), lo, hi, n)
      ensures hit.Some? ==>
        Found(St(), lo, hi, n, hit.value.zone, TestedPage(hit.value))
        && hit.value.k == TestedPage(hit.value) % 64
        && hit.value.j == ScanWord(FirstPage(zones[hit.value.zone]), TestedPage(hit.value))
    {
      hide WindowClear, Scanned, Used, ZoneCounts, PageOk;
      var i := lo;
      while i <= hi
        invariant lo <= i
        invariant forall y :: lo <= y < i && Eligible(St(), y, n) ==> Blocked(St(), y, n)
      {
        if zones[i].freeCount >= n {
          hit := FindInZone(i, n);
          if hit.Some? { return; }
        }
        i := i + 1;
      }
      return None;
    }

    /** The loop over bit offsets k of the word that holds page j. */
    method FindInWord(j: nat, n: nat) returns (hit: Option<nat>)
      requires j / 64 + 1 < pageBits.Length && n <= 64
      ensures hit.Some? ==> j % 64 <= hit.value < 64 - j % 64 && RunTest(pageBits[..], 64 * (j / 64) + hit.value, n)
      ensures forall t: nat :: 64 * (j / 64) + j % 64 <= t
                && t < 64 * (j / 64) + (if hit.Some? then hit.value else 64 - j % 64)
                ==> t / 64 == j / 64 && !RunTest(pageBits[..], t, n)
    {
      hide WindowClear;
      var w, shift := j / 64, j % 64;
      var k := shift;
      while k < 64 - shift
        invariant shift <= k && (k <= 64 - shift || k == shift)
        invariant forall t: nat :: 64 * w + shift <= t < 64 * w + k ==> t / 64 == w && !RunTest(pageBits[..], t, n)
      {
        assert (64 * w + k) / 64 == w && (64 * w + k) % 64 == k;
        if WindowClear(pageBits[w], pageBits[w + 1], k, n) {
          return Some(k);
        }
        k := k + 1;
      }
      return None;
    }

    method FindInZone(i: nat, n: nat) returns (hit: Option<Hit>)
      requires Inv(St()) && i < zones.Length && n <= 64
      ensures hit.None? ==> Blocked(St(), i, n)
      ensures hit.Some? ==>
        hit.value.zone == i
        && FirstIn(St(), i, n, TestedPage(hit.value))
        && hit.value.k == TestedPage(hit.value) % 64
        && hit.value.j == ScanWord(FirstPage(zones[i]), TestedPage(hit.value))
    {
      hide RunTest, Scanned, ScanWord, Used, ZoneCounts, PageOk;
      assert ZoneOk(St(), i);
      var start, end := FirstPage(zones[i]), EndPage(zones[i]);
      var tmp := 64 - start % 64;
      var j := start;
      forall t: nat | t < j
        ensures !Scanned(start, end, t)
      {
        ScannedFrom(start, end, t);
      }
      while j <= end
        invariant j == start || (start < j && j % 64 == 0)
        invariant forall t: nat :: t < j && Scanned(start, end, t) ==> !Passes(St(), t, n)
        decreases end - j
      {
        var next := j + if j % 64 != 0 then tmp else 64;
        var k := FindInWord(j, n);
        ghost var limit := if k.Some? then 64 * (j / 64) + k.value else next;
        forall t: nat | t < limit && Scanned(start, end, t)
          ensures !Passes(St(), t, n)
        {
          if j <= t {
            ScanStep(start, end, j, t);
          }
        }
        if k.Some? {
          ScanStep(start, end, j, limit);
          return Some(Hit(i, j, k.value));
        }
        j := next;
      }
      forall t: nat | Scanned(start, end, t)
        ensures !Passes(St(), t, n)
      {
        ScannedBelow(start, end, j, t);
      }
      return None;
    }

    /** The claim loop: page_init on n descriptors from index first on, up to the first
        one it must not follow. */
    method ClaimPages(first: int, n: nat, flags: bv64) returns (calls: nat)
      requires Separate()
      modifies pageBits, pages, zones
      ensures calls <= n
      ensures forall i :: first <= i < first + calls ==> Touchable(old(St()), i)
      ensures calls < n ==> !Touchable(old(St()), first + calls)
      ensures St() == ClaimRun(old(St()), first, calls, flags)
    {
      hide Memory.PageInit;
      calls := 0;
      while calls < n
        invariant calls <= n
        invariant forall i :: first <= i < first + calls ==> Touchable(old(St()), i)
        invariant St() == ClaimRun(old(St()), first, calls, flags)
      {
        var i := first + calls;
        if !(0 <= i < pages.Length && pages[i].phyAddr / PAGE_SIZE < 64 * pageBits.Length
             && pages[i].zone.Some? && pages[i].zone.value < zones.Length) {
          assert !Touchable(St(), i);
          return;
        }
        PageInit(i, flags);
        calls := calls + 1;
      }
    }

    /** alloc_pages as written. */
    method AllocPages(select: int, n: nat, flags: bv64) returns (r: Result)
      requires Separate() && Inv(St()) && IndicesOk() && n <= 64
      modifies pageBits, pages, zones
      ensures select == 1 ==> AllocatedAsWritten(old(St()), Some((0, dmaIndex)), n, flags, r, St())
      ensures select == 2 ==> AllocatedAsWritten(old(St()), Some((dmaIndex, normalIndex)), n, flags, r, St())
      ensures select == 4 ==> AllocatedAsWritten(old(St()), Some((unmapedIndex, zones.Length - 1)), n, flags, r, St())
      ensures select != 1 && select != 2 && select != 4 ==> r == Null && St() == old(St())
      ensures select == 1 ==> (r == Null <==> NotFound(old(St()), 0, dmaIndex, n))
      ensures select == 2 ==> (r == Null <==> NotFound(old(St()), dmaIndex, normalIndex, n))
      ensures select == 4 ==> (r == Null <==> NotFound(old(St()), unmapedIndex, zones.Length - 1, n))
      ensures flags != 0 ==> Inv(St())
    {
      hide Inv, Blocked, FirstIn, NotFound, ClaimRun, Touchable, Eligible;
      var range := Range(select);
      if range.None? { return Null; }
      var hit := FindWindow(range.value.0, range.value.1, n);
      if hit.None? { return Null; }
      var page := hit.value.j + hit.value.k - 1;
      FoundSome(St(), range.value.0, range.value.1, n, hit.value.zone, TestedPage(hit.value));
      assert page == WrittenIndex(FirstPage(St().zones[hit.value.zone]), TestedPage(hit.value));
      ghost var st := St();
      var calls := ClaimPages(page, n, flags);
      if flags != 0 { ClaimRunKeepsInv(st, page, calls, flags); }
      if calls < n { return Wild(page, calls); }
      return Pages(page);
    }

    /** alloc_pages with its claim at the run it tested: a step of the allocation history,
        which leaves the descriptors of the zones exactly when the request leaks. */
    method AllocPagesTested(select: int, n: nat, flags: bv64) returns (r: Result)
      requires Separate() && Inv(St()) && IndicesOk() && 1 <= n <= 64 && flags != 0
      modifies pageBits, pages, zones
      ensures Inv(St())
      ensures select == 1 ==> AllocatedAsTested(old(St()), 0, dmaIndex, n, flags, r, St())
      ensures select == 2 ==> AllocatedAsTested(old(St()), dmaIndex, normalIndex, n, flags, r, St())
      ensures select == 4 ==> AllocatedAsTested(old(St()), unmapedIndex, zones.Length - 1, n, flags, r, St())
      ensures select != 1 && select != 2 && select != 4 ==> r == Null && St() == old(St())
    {
      hide Inv, Scanned, Passes, ClaimRun, RequestLeaks, InZone, Blocked, Eligible, FirstIn, NotFound;
      ghost var st := St();
      var range := Range(select);
      if range.None? { return Null; }
      ghost var (lo, hi) := range.value;
      var hit := FindWindow(range.value.0, range.value.1, n);
      if hit.None? {
        NothingLeaks(st, lo, hi, n);
        return Null;
      }
      var page := TestedPage(hit.value);
      FoundSome(st, lo, hi, n, hit.value.zone, page);
      RequestLeaksIff(st, lo, hi, n, hit.value.zone, page);
      forall i
        ensures Touchable(st, i) <==> InZone(st, i)
      {
        TouchableIffInZone(st, i);
      }
      var calls := ClaimPages(page, n, flags);
      ClaimRunKeepsInv(st, page, calls, flags);
      if calls < n { return Wild(page, calls); }
      return Pages(page);
    }
  }

  /** A request that finds nothing does not leak. */
  lemma NothingLeaks(st: State, lo: int, hi: int, n: nat)
    requires Inv(st) && 1 <= n <= 64 && NotFound(st, lo, hi, n)
    ensures !RequestLeaks(st, lo, hi, n)
  {
    hide Inv, FirstIn, Blocked, Eligible, RequestLeaks;
    if RequestLeaks(st, lo, hi, n) {
      var z, t := LeakIsFound(st, lo, hi, n);
      SearchDetermined(st, lo, hi, n, z, t, z, t);
    }
  }

  lemma ScannedFrom(start: nat, end: nat, t: nat)
    requires t < start
    ensures !Scanned(start, end, t)
  {}

  lemma ScannedBelow(start: nat, end: nat, j: nat, t: nat)
    requires j == start || (start < j && j % 64 == 0)
    requires end < j && Scanned(start, end, t)
    ensures t < j
  {}

  lemma AvailableGrows(entries: seq<E820>, i: nat)
    requires i <= |entries|
    ensures Available(entries[..i]) <= Available(entries)
    decreases |entries|
  {
    if i < |entries| {
      AvailableGrows(entries[..|entries| - 1], i);
      assert entries[..|entries| - 1][..i] == entries[..i];
    } else {
      assert entries[..i] == entries;
    }
  }
}
