/** The page manager's state and page_init: the bitmap, the page descriptors and the zone
    descriptors, with pointers between them as indices. */
module Memory {
  import opened Prelude
  import opened BitVectors
  import opened Bitmap

  const PAGE_SIZE := 4096

  const PG_PTABLE_MAPED: bv64 := 0x1
  const PG_KERNEL_INIT: bv64 := 0x2
  const PG_REFERENCED: bv64 := 0x4
  const PG_ACTIVE: bv64 := 0x10
  const PG_KERNEL: bv64 := 0x80
  const PG_K_SHARE_TO_U: bv64 := 0x100

  /** zone is the index of the page's zone descriptor; None is the null pointer that the
      zero fill leaves in pages outside every zone. */
  datatype Page = Page(phyAddr: nat, attribute: bv64, refCount: nat, age: nat, zone: Option<nat>)

  /** pagesGroup is the index of the zone's first page descriptor. */
  datatype Zone = Zone(pagesGroup: nat, pagesLength: nat,
                       startAddr: nat, endAddr: nat, length: nat, attribute: bv64,
                       usingCount: nat, freeCount: nat, totalLink: nat)

  const ZERO_PAGE := Page(0, 0, 0, 0, None)
  const ZERO_ZONE := Zone(0, 0, 0, 0, 0, 0, 0, 0, 0)

  /** bits holds the bitmap and, after it, the two words of memory that a search ending
      at the last page can read past it. */
  datatype State = State(bits: seq<bv64>, pages: seq<Page>, zones: seq<Zone>)

  /** Words of bitmap for a number of pages (page_bits_length / 8). */
  function BitmapWords(pages: nat): nat { (pages + 63) / 64 }

  // ---------- page_init ----------

  /** page_init follows the page's address into the bitmap and its zone pointer. */
  predicate Touchable(st: State, i: int) {
    0 <= i < |st.pages|
    && st.pages[i].phyAddr / PAGE_SIZE < 64 * |st.bits|
    && st.pages[i].zone.Some?
    && st.pages[i].zone.value < |st.zones|
  }

  predicate Shared(attribute: bv64, flags: bv64) {
    attribute & PG_REFERENCED != 0 || attribute & PG_K_SHARE_TO_U != 0
    || flags & PG_REFERENCED != 0 || flags & PG_K_SHARE_TO_U != 0
  }

  /** x-- on a 64-bit unsigned counter. */
  function Decrement(x: nat): nat {
    if x == 0 then 0xffff_ffff_ffff_ffff else x - 1
  }

  function PageInit(st: State, i: nat, flags: bv64): (st': State)
    requires Touchable(st, i)
    ensures |st'.bits| == |st.bits| && |st'.pages| == |st.pages| && |st'.zones| == |st.zones|
    ensures forall j :: Touchable(st', j) <==> Touchable(st, j)
  {
    var p := st.pages[i];
    var z := p.zone.value;
    var zone := st.zones[z];
    if p.attribute == 0 then
      State(Mark(st.bits, p.phyAddr / PAGE_SIZE),
            st.pages[i := p.(attribute := flags, refCount := p.refCount + 1)],
            st.zones[z := zone.(usingCount := zone.usingCount + 1,
                                freeCount := Decrement(zone.freeCount),
                                totalLink := zone.totalLink + 1)])
    else if Shared(p.attribute, flags) then
      st.(pages := st.pages[i := p.(attribute := Or(p.attribute, flags), refCount := p.refCount + 1)],
          zones := st.zones[z := zone.(totalLink := zone.totalLink + 1)])
    else
      st.(bits := Mark(st.bits, p.phyAddr / PAGE_SIZE),
          pages := st.pages[i := p.(attribute := Or(p.attribute, flags))])
  }

  // ---------- the accounting invariant ----------

  predicate Covers(z: Zone, i: int) {
    z.pagesGroup <= i < z.pagesGroup + z.pagesLength
  }

  function SumRefs(pages: seq<Page>, lo: nat, hi: nat): nat
    requires lo <= hi <= |pages|
    decreases hi
  {
    if lo == hi then 0 else SumRefs(pages, lo, hi - 1) + pages[hi - 1].refCount
  }

  predicate ZoneShape(z: Zone, total: nat) {
    z.startAddr == PAGE_SIZE * z.pagesGroup
    && z.length == PAGE_SIZE * z.pagesLength
    && z.endAddr == z.startAddr + z.length
    && z.pagesGroup + z.pagesLength <= total
  }

  predicate ZoneCounts(st: State, z: Zone)
    requires z.pagesGroup + z.pagesLength <= |st.pages| <= 64 * |st.bits|
  {
    var lo, hi := z.pagesGroup, z.pagesGroup + z.pagesLength;
    z.usingCount == CountUsed(st.bits, lo, hi)
    && z.usingCount + z.freeCount == z.pagesLength
    && z.totalLink == SumRefs(st.pages, lo, hi)
  }

  predicate ZoneOk(st: State, z: nat)
    requires z < |st.zones| && |st.pages| <= 64 * |st.bits|
  {
    ZoneShape(st.zones[z], |st.pages|) && ZoneCounts(st, st.zones[z])
  }

  /** Bitmap, attribute and reference count of page i agree, its zone pointer is the one
      zone that covers it, and pages outside every zone are marked used. */
  predicate PageOk(st: State, i: nat)
    requires i < |st.pages| <= 64 * |st.bits|
  {
    var p := st.pages[i];
    (forall z :: 0 <= z < |st.zones| && Covers(st.zones[z], i) ==> p.zone == Some(z))
    && match p.zone
       case Some(z) =>
         z < |st.zones| && Covers(st.zones[z], i) && p.phyAddr == PAGE_SIZE * i
         && (Used(st.bits, i) <==> p.attribute != 0)
         && (p.attribute != 0 <==> p.refCount >= 1)
       case None =>
         Used(st.bits, i) && p.attribute == 0 && p.refCount == 0
  }

  predicate Sized(st: State) {
    |st.bits| == BitmapWords(|st.pages|) + 2
  }

  ghost predicate Inv(st: State) {
    Sized(st)
    && (forall z :: 0 <= z < |st.zones| ==> ZoneOk(st, z))
    && (forall i :: 0 <= i < |st.pages| ==> PageOk(st, i))
    && (forall i :: |st.pages| <= i < 64 * BitmapWords(|st.pages|) ==> Used(st.bits, i))
  }

  /** Page i lies in available memory. */
  predicate InZone(st: State, i: int) {
    0 <= i < |st.pages| && st.pages[i].zone.Some?
  }

  lemma InZoneTouchable(st: State, i: int)
    requires Inv(st) && InZone(st, i)
    ensures Touchable(st, i) && st.pages[i].phyAddr / PAGE_SIZE == i
  {
    assert PageOk(st, i);
  }

  lemma {:induction false} SumRefsUpdate(pages: seq<Page>, i: nat, p: Page, lo: nat, hi: nat)
    requires lo <= hi <= |pages| && i < |pages|
    ensures SumRefs(pages[i := p], lo, hi)
         == SumRefs(pages, lo, hi) + if lo <= i < hi then p.refCount - pages[i].refCount else 0
    decreases hi
  {
    if lo < hi {
      SumRefsUpdate(pages, i, p, lo, hi - 1);
    }
  }

  /** What page_init changes: page i becomes used, and nothing else moves. */
  lemma PageInitEffect(st: State, i: nat, flags: bv64)
    requires Inv(st) && InZone(st, i)
    ensures Touchable(st, i)
    ensures var st' := PageInit(st, i, flags);
            |st'.bits| == |st.bits| && |st'.pages| == |st.pages| && |st'.zones| == |st.zones|
            && (forall j :: 0 <= j < 64 * |st.bits| ==> (Used(st'.bits, j) <==> Used(st.bits, j) || j == i))
            && (forall j :: 0 <= j < |st.pages| && j != i ==> st'.pages[j] == st.pages[j])
            && st'.pages[i].zone == st.pages[i].zone
            && st'.pages[i].phyAddr == st.pages[i].phyAddr
            && st'.pages[i].attribute == Or(st.pages[i].attribute, flags)
  {
    hide Used, Mark, Or, Shared;
    OrZero(flags);
    InZoneTouchable(st, i);
    assert PageOk(st, i);
    var st' := PageInit(st, i, flags);
    forall j | 0 <= j < 64 * |st.bits|
      ensures Used(st'.bits, j) <==> Used(st.bits, j) || j == i
    {
      MarkAt(st.bits, i, j);
    }
  }

  lemma SharedBits(attribute: bv64, flags: bv64)
    ensures Shared(attribute, flags) <==> (attribute | flags) & 0x104 != 0
    ensures Or(attribute, flags) == attribute | flags
  {}

  /** The descriptor page_init leaves: the flags or-ed in, and one reference more exactly when
      the page was free or a flag that counts sharing, bit 2 or bit 8, is set on either side. */
  lemma PageInitPage(st: State, i: nat, flags: bv64)
    requires Inv(st) && InZone(st, i)
    ensures Touchable(st, i) && i < 64 * |st.bits|
    ensures var was, now := st.pages[i], PageInit(st, i, flags).pages[i];
            now == was.(attribute := was.attribute | flags, refCount := now.refCount)
            && now.refCount
               == was.refCount + if !Used(st.bits, i) || (was.attribute | flags) & 0x104 != 0 then 1 else 0
  {
    hide Used, Mark, Shared, Or;
    InZoneTouchable(st, i);
    assert PageOk(st, i);
    OrZero(flags);
    SharedBits(st.pages[i].attribute, flags);
  }

  lemma PageInitPages(st: State, i: nat, flags: bv64, j: nat)
    requires Inv(st) && InZone(st, i) && Touchable(st, i) && j < |st.pages|
    requires st.pages[i].attribute != 0 || flags != 0
    requires |st.pages| <= 64 * |PageInit(st, i, flags).bits|
    ensures PageOk(PageInit(st, i, flags), j)
  {
    hide Used, Mark, Or, Shared;
    PageInitEffect(st, i, flags);
    OrIsZero(st.pages[i].attribute, flags);
    assert PageOk(st, i) && PageOk(st, j);
    var st' := PageInit(st, i, flags);
    assert forall z :: 0 <= z < |st.zones| ==> Covers(st'.zones[z], j) == Covers(st.zones[z], j);
  }

  /** The counters of the page's zone move by one use if the page was free and by the
      change of its reference count; no other zone descriptor changes. */
  lemma PageInitDelta(st: State, i: nat, flags: bv64, z: nat)
    requires Inv(st) && InZone(st, i) && Touchable(st, i) && z < |st.zones|
    ensures |PageInit(st, i, flags).zones| == |st.zones|
    ensures var st', was := PageInit(st, i, flags), st.zones[z];
            var now := st'.zones[z];
            var own := st.pages[i].zone == Some(z);
            var claim := if own && !Used(st.bits, i) then 1 else 0;
            var link := if own then st'.pages[i].refCount - st.pages[i].refCount else 0;
            now.freeCount == was.freeCount - claim
            && now == was.(usingCount := was.usingCount + claim, freeCount := now.freeCount, totalLink := now.totalLink)
            && now.totalLink == was.totalLink + link
  {
    hide Used, Mark, Or, Shared;
    assert PageOk(st, i) && ZoneOk(st, z);
    var zone := st.zones[z];
    if Covers(zone, i) && !Used(st.bits, i) {
      CountUsedRoom(st.bits, zone.pagesGroup, zone.pagesGroup + zone.pagesLength, i);
    }
  }

  lemma PageInitZones(st: State, i: nat, flags: bv64, z: nat)
    requires Inv(st) && InZone(st, i) && Touchable(st, i) && z < |st.zones|
    ensures var st' := PageInit(st, i, flags);
            |st.pages| <= 64 * |st.bits| && |st'.bits| == |st.bits|
            && |st'.zones| == |st.zones| && |st'.pages| == |st.pages|
            && ZoneOk(st', z)
  {
    hide Used, PageInit, CountUsed, SumRefs;
    PageInitEffect(st, i, flags);
    PageInitDelta(st, i, flags, z);
    var st' := PageInit(st, i, flags);
    assert PageOk(st, i) && ZoneOk(st, z);
    var lo, hi := st.zones[z].pagesGroup, st.zones[z].pagesGroup + st.zones[z].pagesLength;
    CountUsedMark(st.bits, st'.bits, i, lo, hi);
    SumRefsUpdate(st.pages, i, st'.pages[i], lo, hi);
    assert st'.pages == st.pages[i := st'.pages[i]];
    assert Covers(st.zones[z], i) <==> st.pages[i].zone == Some(z);
  }

  /** page_init keeps bitmap, attributes, reference counts and zone counters in
      agreement, and never takes a free count below zero. */
  lemma PageInitKeepsInv(st: State, i: nat, flags: bv64)
    requires Inv(st) && InZone(st, i)
    requires st.pages[i].attribute != 0 || flags != 0
    ensures Touchable(st, i) && Inv(PageInit(st, i, flags))
  {
    hide Used, ZoneOk, PageOk, PageInit;
    PageInitEffect(st, i, flags);
    var st' := PageInit(st, i, flags);
    forall j | 0 <= j < |st'.pages|
      ensures PageOk(st', j)
    {
      PageInitPages(st, i, flags, j);
    }
    forall z | 0 <= z < |st'.zones|
      ensures ZoneOk(st', z)
    {
      PageInitZones(st, i, flags, z);
    }
  }

  /** The agreement survives page_init exactly when the page is in use already or the
      flags are not empty: a first claim with no flags sets the bit and the reference
      count but leaves the attribute zero. */
  lemma PageInitKeepsInvIff(st: State, i: nat, flags: bv64)
    requires Inv(st) && InZone(st, i)
    ensures Touchable(st, i)
    ensures Inv(PageInit(st, i, flags)) <==> st.pages[i].attribute != 0 || flags != 0
  {
    InZoneTouchable(st, i);
    if st.pages[i].attribute != 0 || flags != 0 {
      PageInitKeepsInv(st, i, flags);
    } else {
      var st' := PageInit(st, i, flags);
      assert !PageOk(st', i);
    }
  }

  // ---------- free pages over all zones ----------

  function TotalFree(zones: seq<Zone>): nat {
    if zones == [] then 0 else TotalFree(zones[..|zones| - 1]) + zones[|zones| - 1].freeCount
  }

  lemma {:induction false} TotalFreeUpdate(zones: seq<Zone>, z: nat, zone: Zone)
    requires z < |zones|
    ensures TotalFree(zones[z := zone]) == TotalFree(zones) + zone.freeCount - zones[z].freeCount
  {
    var last := |zones| - 1;
    if z < last {
      TotalFreeUpdate(zones[..last], z, zone);
      assert zones[z := zone][..last] == zones[..last][z := zone];
    } else {
      assert zones[z := zone][..last] == zones[..last];
    }
  }

  /** Claiming a free page takes one off the free total; claiming a used page takes none. */
  lemma PageInitFree(st: State, i: nat, flags: bv64)
    requires Inv(st) && InZone(st, i)
    ensures Touchable(st, i)
    ensures TotalFree(PageInit(st, i, flags).zones)
         == TotalFree(st.zones) - if Used(st.bits, i) then 0 else 1
  {
    hide Used;
    InZoneTouchable(st, i);
    assert PageOk(st, i);
    var z := st.pages[i].zone.value;
    var zone := st.zones[z];
    assert ZoneOk(st, z);
    if !Used(st.bits, i) {
      CountUsedRoom(st.bits, zone.pagesGroup, zone.pagesGroup + zone.pagesLength, i);
    }
    TotalFreeUpdate(st.zones, z, PageInit(st, i, flags).zones[z]);
  }

  /** References counted over all zones. */
  function TotalLinks(zones: seq<Zone>): nat {
    if zones == [] then 0 else TotalLinks(zones[..|zones| - 1]) + zones[|zones| - 1].totalLink
  }

  lemma {:induction false} TotalLinksUpdate(zones: seq<Zone>, z: nat, zone: Zone)
    requires z < |zones|
    ensures TotalLinks(zones[z := zone]) == TotalLinks(zones) + zone.totalLink - zones[z].totalLink
  {
    var last := |zones| - 1;
    if z < last {
      TotalLinksUpdate(zones[..last], z, zone);
      assert zones[z := zone][..last] == zones[..last][z := zone];
    } else {
      assert zones[z := zone][..last] == zones[..last];
    }
  }

  /** The link counts of the zones rise by one reference exactly when the page's does. */
  lemma PageInitLinks(st: State, i: nat, flags: bv64)
    requires Inv(st) && InZone(st, i)
    ensures Touchable(st, i) && i < 64 * |st.bits|
    ensures TotalLinks(PageInit(st, i, flags).zones)
         == TotalLinks(st.zones)
            + if !Used(st.bits, i) || (st.pages[i].attribute | flags) & 0x104 != 0 then 1 else 0
  {
    hide Used, Mark, Or, Shared;
    InZoneTouchable(st, i);
    assert PageOk(st, i);
    SharedBits(st.pages[i].attribute, flags);
    var z := st.pages[i].zone.value;
    TotalLinksUpdate(st.zones, z, PageInit(st, i, flags).zones[z]);
    assert st.zones[z := st.zones[z]] == st.zones;
  }

  // ---------- claiming a run ----------

  /** The loop of alloc_pages that calls page_init on n consecutive descriptors. */
  function ClaimRun(st: State, p: int, n: nat, flags: bv64): (st': State)
    requires forall i :: p <= i < p + n ==> Touchable(st, i)
    ensures |st'.bits| == |st.bits| && |st'.pages| == |st.pages| && |st'.zones| == |st.zones|
    ensures forall j :: Touchable(st', j) <==> Touchable(st, j)
    decreases n
  {
    if n == 0 then st else assert Touchable(st, p + n - 1); PageInit(ClaimRun(st, p, n - 1, flags), p + n - 1, flags)
  }

  /** Claiming n clear pages of available memory marks exactly those pages, keeps the
      accounting invariant, and takes exactly n off the free total. */
  lemma {:induction false} ClaimRunEffect(st: State, p: nat, n: nat, flags: bv64)
    requires Inv(st) && flags != 0 && p + n <= 64 * |st.bits|
    requires forall i :: p <= i < p + n ==> InZone(st, i)
    requires RunClear(st.bits, p, n)
    ensures forall i :: p <= i < p + n ==> Touchable(st, i)
    ensures var st' := ClaimRun(st, p, n, flags);
            Inv(st')
            && (forall j :: 0 <= j < 64 * |st.bits| ==> (Used(st'.bits, j) <==> Used(st.bits, j) || p <= j < p + n))
            && (forall j :: 0 <= j < |st.pages| && !(p <= j < p + n) ==> st'.pages[j] == st.pages[j])
            && (forall j :: p <= j < p + n && j < |st'.pages| ==> st'.pages[j].attribute == flags)
            && (forall j :: InZone(st, j) ==> InZone(st', j))
            && TotalFree(st'.zones) == TotalFree(st.zones) - n
    decreases n
  {
    hide Used, PageInit, PageOk, ZoneOk, TotalFree, Or;
    forall i | p <= i < p + n
      ensures Touchable(st, i)
    {
      InZoneTouchable(st, i);
    }
    if n > 0 {
      var i := p + n - 1;
      assert InZone(st, i);
      ClaimRunEffect(st, p, n - 1, flags);
      var mid := ClaimRun(st, p, n - 1, flags);
      assert mid.pages[i] == st.pages[i];
      FreeAttribute(mid, i);
      PageInitEffect(mid, i, flags);
      PageInitKeepsInv(mid, i, flags);
      PageInitFree(mid, i, flags);
      OrZero(flags);
    }
  }

  lemma FreeAttribute(st: State, i: nat)
    requires Inv(st) && InZone(st, i) && !Used(st.bits, i)
    ensures st.pages[i].attribute == 0
  {
    assert PageOk(st, i);
  }

  /** A claim of n clear pages gives each of them the flags and its first reference, and the
      zones n links. */
  lemma {:induction false} ClaimRunRefs(st: State, p: nat, n: nat, flags: bv64)
    requires Inv(st) && flags != 0 && p + n <= 64 * |st.bits|
    requires forall i :: p <= i < p + n ==> InZone(st, i)
    requires RunClear(st.bits, p, n)
    ensures forall i :: p <= i < p + n ==> Touchable(st, i)
    ensures var st' := ClaimRun(st, p, n, flags);
            |st'.pages| == |st.pages|
            && (forall j :: p <= j < p + n && j < |st.pages| ==>
                  st'.pages[j] == st.pages[j].(attribute := flags, refCount := 1))
            && TotalLinks(st'.zones) == TotalLinks(st.zones) + n
    decreases n
  {
    hide Inv, Used, PageInit, TotalLinks;
    ClaimRunEffect(st, p, n, flags);
    if n > 0 {
      var i := p + n - 1;
      assert InZone(st, i) && !Used(st.bits, i);
      ClaimRunRefs(st, p, n - 1, flags);
      ClaimRunEffect(st, p, n - 1, flags);
      var mid := ClaimRun(st, p, n - 1, flags);
      assert mid.pages[i] == st.pages[i];
      FreeCounts(mid, i);
      ZeroOr(flags);
      PageInitEffect(mid, i, flags);
      PageInitPage(mid, i, flags);
      PageInitLinks(mid, i, flags);
    }
  }

  lemma ZeroOr(flags: bv64)
    ensures 0 | flags == flags
  {}

  lemma FreeCounts(st: State, i: nat)
    requires Inv(st) && InZone(st, i) && i < 64 * |st.bits| && !Used(st.bits, i)
    ensures st.pages[i].attribute == 0 && st.pages[i].refCount == 0
  {
    assert PageOk(st, i);
  }

  /** Whatever run of available memory is claimed, free or not, the accounting stays right. */
  lemma {:induction false} ClaimRunKeepsInv(st: State, p: int, n: nat, flags: bv64)
    requires Inv(st) && flags != 0
    requires forall i :: p <= i < p + n ==> Touchable(st, i)
    ensures Inv(ClaimRun(st, p, n, flags))
    ensures forall i :: InZone(ClaimRun(st, p, n, flags), i) <==> InZone(st, i)
    decreases n
  {
    hide Inv, PageInit;
    if n > 0 {
      var i := p + n - 1;
      assert Touchable(st, i);
      ClaimRunKeepsInv(st, p, n - 1, flags);
      var mid := ClaimRun(st, p, n - 1, flags);
      PageInitKeepsInv(mid, i, flags);
      PageInitZonesOf(mid, i, flags);
    }
  }

  lemma PageInitZonesOf(st: State, i: nat, flags: bv64)
    requires Touchable(st, i)
    ensures forall j :: InZone(PageInit(st, i, flags), j) <==> InZone(st, j)
  {
    hide Mark, Or, Shared;
  }

  /** Same tables, zones changed in their counts only, no page freed, no free count raised. */
  ghost predicate Shrinks(st: State, st': State) {
    |st'.bits| == |st.bits| && |st'.pages| == |st.pages| && |st'.zones| == |st.zones|
    && (forall i :: 0 <= i < 64 * |st.bits| && Used(st.bits, i) ==> Used(st'.bits, i))
    && (forall z :: 0 <= z < |st.zones| ==>
          var was, now := st.zones[z], st'.zones[z];
          now == was.(usingCount := now.usingCount, freeCount := now.freeCount, totalLink := now.totalLink)
          && now.freeCount <= was.freeCount)
  }

  lemma PageInitShrinks(st: State, i: nat, flags: bv64)
    requires Inv(st) && InZone(st, i)
    ensures Touchable(st, i) && Shrinks(st, PageInit(st, i, flags))
  {
    hide Inv, Used, InZone, PageInit;
    PageInitEffect(st, i, flags);
    forall z | 0 <= z < |st.zones|
      ensures |PageInit(st, i, flags).zones| == |st.zones|
      ensures var was, now := st.zones[z], PageInit(st, i, flags).zones[z];
              now == was.(usingCount := now.usingCount, freeCount := now.freeCount, totalLink := now.totalLink)
              && now.freeCount <= was.freeCount
    {
      PageInitDelta(st, i, flags, z);
    }
  }

  lemma {:induction false} ClaimRunShrinks(st: State, p: int, n: nat, flags: bv64)
    requires Inv(st) && flags != 0
    requires forall i :: p <= i < p + n ==> Touchable(st, i)
    ensures Shrinks(st, ClaimRun(st, p, n, flags))
    decreases n
  {
    hide Inv, Used, PageInit;
    if n > 0 {
      var i := p + n - 1;
      assert Touchable(st, i);
      ClaimRunShrinks(st, p, n - 1, flags);
      ClaimRunKeepsInv(st, p, n - 1, flags);
      PageInitShrinks(ClaimRun(st, p, n - 1, flags), i, flags);
    }
  }
}
