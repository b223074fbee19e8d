/** What init_memory builds: where the metadata lies, and the bitmap, page and zone
    descriptors that construct_mem_struct derives from the e820 memory map. */
module Construction {
  import opened Prelude
  import opened BitVectors
  import opened Words
  import opened Bitmap
  import opened Memory

  const E820_AVAILABLE := 1

  datatype E820 = E820(addr: nat, len: nat, kind: nat)

  function U64(x: nat): nat { x % TWO_64 }

  /** PAGE_4K_ALIGN */
  function PageAlign(addr: nat): nat { U64(addr + PAGE_SIZE - 1) / PAGE_SIZE * PAGE_SIZE }

  function EntryFirst(e: E820): nat { PageAlign(e.addr) / PAGE_SIZE }

  function EntryEnd(e: E820): nat { U64(e.addr + e.len) / PAGE_SIZE }

  /** The entry becomes a zone. */
  predicate MakesZone(e: E820) {
    e.kind == E820_AVAILABLE && EntryFirst(e) < EntryEnd(e)
  }

  /** The entry becomes a zone that holds page i. */
  predicate Contributes(e: E820, i: int) {
    MakesZone(e) && EntryFirst(e) <= i < EntryEnd(e)
  }

  // ---------- layout ----------

  const PAGE_STRUCT_BYTES := 40
  const ZONE_STRUCT_BYTES := 72

  datatype Layout = Layout(bitsAt: nat, bitsBytes: nat, pagesAt: nat, zonesAt: nat, end: nat)

  /** page_bits_length: the byte count rounded down to whole words. */
  function BitsBytes(pages: nat): nat { (pages + 63) / 8 / 8 * 8 }

  /** The addresses init_memory computes. Adding a byte count to a pointer to 64-bit words
      reserves eight times the bitmap. */
  function LayOut(kernelEnd: nat, pages: nat, zones: nat): Layout {
    var bitsAt := PageAlign(kernelEnd);
    var pagesAt := PageAlign(bitsAt + 8 * BitsBytes(pages));
    var zonesAt := PageAlign(pagesAt + PAGE_STRUCT_BYTES * pages);
    Layout(bitsAt, BitsBytes(pages), pagesAt, zonesAt, PageAlign(zonesAt + ZONE_STRUCT_BYTES * zones))
  }

  lemma AlignUp(addr: nat)
    requires addr + PAGE_SIZE <= TWO_64
    ensures addr <= PageAlign(addr) < addr + PAGE_SIZE && PageAlign(addr) % PAGE_SIZE == 0
  {}

  lemma BitsBytesWords(pages: nat)
    ensures BitsBytes(pages) == 8 * BitmapWords(pages)
  {}

  /** Kernel image, bitmap, page descriptors and zone descriptors follow one another on
      page boundaries without overlap, for every amount of memory that leaves the
      addresses below 2^64, and every byte of them lies in a page that is reserved. */
  lemma LayoutOrdered(kernelStart: nat, kernelEnd: nat, pages: nat, zones: nat)
    requires kernelStart <= kernelEnd
    requires kernelEnd + 8 * BitsBytes(pages) + PAGE_STRUCT_BYTES * pages
             + ZONE_STRUCT_BYTES * zones + 4 * PAGE_SIZE <= TWO_64
    ensures var l := LayOut(kernelEnd, pages, zones);
            l.bitsBytes == 8 * BitmapWords(pages)
            && l.bitsAt % PAGE_SIZE == 0 && l.pagesAt % PAGE_SIZE == 0
            && l.zonesAt % PAGE_SIZE == 0 && l.end % PAGE_SIZE == 0
            && kernelEnd <= l.bitsAt
            && l.bitsAt + l.bitsBytes <= l.pagesAt
            && l.pagesAt + PAGE_STRUCT_BYTES * pages <= l.zonesAt
            && l.zonesAt + ZONE_STRUCT_BYTES * zones <= l.end
            && forall a :: kernelStart <= a < l.end ==> kernelStart / PAGE_SIZE <= a / PAGE_SIZE < l.end / PAGE_SIZE
  {
    hide PageAlign, BitsBytes, BitmapWords;
    BitsBytesWords(pages);
    AlignUp(kernelEnd);
    var bitsAt := PageAlign(kernelEnd);
    AlignUp(bitsAt + 8 * BitsBytes(pages));
    var pagesAt := PageAlign(bitsAt + 8 * BitsBytes(pages));
    AlignUp(pagesAt + PAGE_STRUCT_BYTES * pages);
    var zonesAt := PageAlign(pagesAt + PAGE_STRUCT_BYTES * pages);
    AlignUp(zonesAt + ZONE_STRUCT_BYTES * zones);
    var end := PageAlign(zonesAt + ZONE_STRUCT_BYTES * zones);
    forall a | kernelStart <= a < end
      ensures kernelStart / PAGE_SIZE <= a / PAGE_SIZE < end / PAGE_SIZE
    {
      PageOrder(kernelStart, a, end);
    }
  }

  /** Each of the four roundings adds less than a page. */
  lemma LayoutBelow(kernelEnd: nat, pages: nat, zones: nat)
    requires kernelEnd + 8 * BitsBytes(pages) + PAGE_STRUCT_BYTES * pages
             + ZONE_STRUCT_BYTES * zones + 4 * PAGE_SIZE <= TWO_64
    ensures LayOut(kernelEnd, pages, zones).end < kernelEnd + 8 * BitsBytes(pages) + PAGE_STRUCT_BYTES * pages
             + ZONE_STRUCT_BYTES * zones + 4 * PAGE_SIZE
  {
    hide PageAlign, BitsBytes;
    AlignUp(kernelEnd);
    var bitsAt := PageAlign(kernelEnd);
    AlignUp(bitsAt + 8 * BitsBytes(pages));
    var pagesAt := PageAlign(bitsAt + 8 * BitsBytes(pages));
    AlignUp(pagesAt + PAGE_STRUCT_BYTES * pages);
    AlignUp(PageAlign(pagesAt + PAGE_STRUCT_BYTES * pages) + ZONE_STRUCT_BYTES * zones);
  }

  lemma PageOrder(start: nat, a: nat, end: nat)
    requires start <= a < end && end % PAGE_SIZE == 0
    ensures start / PAGE_SIZE <= a / PAGE_SIZE < end / PAGE_SIZE
  {}

  // ---------- the page and zone descriptors ----------

  /** The state after the three fills: every page marked used, all descriptors zero. The
      two words after the bitmap hold whatever memory held. */
  function Blank(pages: nat, zones: nat, after0: bv64, after1: bv64): State {
    State(seq(BitmapWords(pages), _ => ALL_ONES) + [after0, after1],
          seq(pages, _ => ZERO_PAGE),
          seq(zones, _ => ZERO_ZONE))
  }

  function FreshPage(i: nat, z: nat): Page { Page(PAGE_SIZE * i, 0, 0, 0, Some(z)) }

  function FreshZone(lo: nat, hi: nat): Zone
    requires lo <= hi
  {
    Zone(lo, hi - lo, PAGE_SIZE * lo, PAGE_SIZE * hi, PAGE_SIZE * (hi - lo), 0, 0, hi - lo, 0)
  }

  function SetPages(pages: seq<Page>, lo: nat, hi: nat, z: nat): (r: seq<Page>)
    requires lo <= hi <= |pages|
    ensures |r| == |pages|
    ensures forall i :: 0 <= i < |pages| ==> r[i] == if lo <= i < hi then FreshPage(i, z) else pages[i]
    decreases hi
  {
    if lo == hi then pages else SetPages(pages, lo, hi - 1, z)[hi - 1 := FreshPage(hi - 1, z)]
  }

  /** Zone z over pages lo..hi: one descriptor, and each page's bit flipped. */
  function AddZone(st: State, z: nat, lo: nat, hi: nat): State
    requires z < |st.zones| && lo <= hi <= |st.pages| <= 64 * |st.bits|
  {
    State(ToggleRange(st.bits, lo, hi),
          SetPages(st.pages, lo, hi, z),
          st.zones[z := FreshZone(lo, hi)])
  }

  /** Number of entries of available memory (e820_available_size). */
  function Available(entries: seq<E820>): nat {
    if entries == [] then 0
    else Available(entries[..|entries| - 1]) + if entries[|entries| - 1].kind == E820_AVAILABLE then 1 else 0
  }

  /** Number of zones the entries make. */
  function ZoneCount(entries: seq<E820>): (n: nat)
    ensures n <= Available(entries)
  {
    if entries == [] then 0
    else ZoneCount(entries[..|entries| - 1]) + if MakesZone(entries[|entries| - 1]) then 1 else 0
  }

  /** Numbers of zones grow along the map, by one at each entry that makes a zone. */
  lemma {:induction false} ZoneCountGrows(entries: seq<E820>, k: nat)
    requires k < |entries|
    ensures ZoneCount(entries[..k]) + (if MakesZone(entries[k]) then 1 else 0) <= ZoneCount(entries)
    decreases |entries|
  {
    hide MakesZone;
    var last := |entries| - 1;
    if k < last {
      ZoneCountGrows(entries[..last], k);
      assert entries[..last][..k] == entries[..k];
    }
  }

  predicate Fits(st: State, entries: seq<E820>) {
    Available(entries) <= |st.zones| && |st.pages| <= 64 * |st.bits|
    && forall e :: e in entries ==> MakesZone(e) ==> EntryEnd(e) <= |st.pages|
  }

  /** The first loop of construct_mem_struct over a prefix of the memory map. */
  function BuildZones(st: State, entries: seq<E820>): (st': State)
    requires Fits(st, entries)
    ensures |st'.bits| == |st.bits| && |st'.pages| == |st.pages| && |st'.zones| == |st.zones|
  {
    if entries == [] then st
    else
      var init, e := entries[..|entries| - 1], entries[|entries| - 1];
      var built := BuildZones(st, init);
      if MakesZone(e) then AddZone(built, ZoneCount(init), EntryFirst(e), EntryEnd(e)) else built
  }

  // ---------- the bitmap it leaves ----------

  /** How many zones hold page i. */
  function Covering(entries: seq<E820>, i: int): nat {
    if entries == [] then 0
    else Covering(entries[..|entries| - 1], i) + if Contributes(entries[|entries| - 1], i) then 1 else 0
  }

  /** The zone loop flips a page's bit exactly when an odd number of zones hold it,
      whatever the ranges. */
  lemma {:induction false} BitIsParity(st: State, entries: seq<E820>, i: nat)
    requires Fits(st, entries) && i < 64 * |st.bits|
    ensures Used(BuildZones(st, entries).bits, i) <==> Used(st.bits, i) != (Covering(entries, i) % 2 == 1)
    decreases |entries|
  {
    hide Used, EntryFirst, EntryEnd, ToggleRange, SetPages;
    if entries != [] {
      var init, e := entries[..|entries| - 1], entries[|entries| - 1];
      BitIsParity(st, init, i);
      if MakesZone(e) {
        ToggleRangeAt(BuildZones(st, init).bits, EntryFirst(e), EntryEnd(e), i);
      }
    }
  }

  lemma {:induction false} CoveringZero(entries: seq<E820>, i: int)
    ensures Covering(entries, i) == 0 <==> forall e :: e in entries ==> !Contributes(e, i)
    decreases |entries|
  {
    if entries != [] {
      CoveringZero(entries[..|entries| - 1], i);
    }
  }

  /** No page belongs to two entries. */
  ghost predicate PagewiseDisjoint(entries: seq<E820>) {
    forall a, b, i :: 0 <= a < b < |entries| && Contributes(entries[a], i) ==> !Contributes(entries[b], i)
  }

  lemma {:induction false} CoveringAtMostOne(entries: seq<E820>, i: int)
    requires PagewiseDisjoint(entries)
    ensures Covering(entries, i) <= 1
    decreases |entries|
  {
    if entries != [] {
      var init, e := entries[..|entries| - 1], entries[|entries| - 1];
      CoveringAtMostOne(init, i);
      CoveringZero(init, i);
    }
  }

  // ---------- memory maps as bytes ----------

  /** The firmware's promise: no address wrap, and available byte ranges do not overlap. */
  predicate GoodMap(entries: seq<E820>) {
    (forall e :: e in entries ==> e.addr + e.len + PAGE_SIZE <= TWO_64)
    && forall a, b :: 0 <= a < b < |entries|
         && entries[a].kind == E820_AVAILABLE && entries[b].kind == E820_AVAILABLE
         ==> entries[a].addr + entries[a].len <= entries[b].addr
             || entries[b].addr + entries[b].len <= entries[a].addr
  }

  /** The entry is available memory that contains all of page i. */
  predicate HoldsPage(e: E820, i: nat) {
    e.kind == E820_AVAILABLE && e.addr <= PAGE_SIZE * i && PAGE_SIZE * (i + 1) <= e.addr + e.len
  }

  /** Rounding a byte range inwards keeps exactly the pages that lie wholly in it. */
  lemma ContributesIffHolds(e: E820, i: nat)
    requires e.addr + e.len + PAGE_SIZE <= TWO_64
    ensures Contributes(e, i) <==> HoldsPage(e, i)
  {}

  lemma GoodMapPagewise(entries: seq<E820>)
    requires GoodMap(entries)
    ensures PagewiseDisjoint(entries)
  {
    forall a, b, i | 0 <= a < b < |entries| && Contributes(entries[a], i)
      ensures !Contributes(entries[b], i)
    {
      ContributesIffHolds(entries[a], i);
      ContributesIffHolds(entries[b], i);
    }
  }

  lemma BlankUsed(pages: nat, zones: nat, after0: bv64, after1: bv64, i: nat)
    requires i < 64 * BitmapWords(pages)
    ensures Used(Blank(pages, zones, after0, after1).bits, i)
  {
    AllOnesBit(i % 64);
  }

  /** For a good map the bitmap says exactly which pages are whole pages of available
      memory. */
  lemma BitmapMeansAvailable(pages: nat, zones: nat, after0: bv64, after1: bv64, entries: seq<E820>, i: nat)
    requires GoodMap(entries) && i < 64 * BitmapWords(pages)
    requires Fits(Blank(pages, zones, after0, after1), entries)
    ensures !Used(BuildZones(Blank(pages, zones, after0, after1), entries).bits, i)
       <==> exists e :: e in entries && HoldsPage(e, i)
  {
    hide Used, Contributes, HoldsPage, BuildZones, Covering;
    BlankUsed(pages, zones, after0, after1, i);
    BitIsParity(Blank(pages, zones, after0, after1), entries, i);
    GoodMapPagewise(entries);
    CoveringAtMostOne(entries, i);
    CoveringZero(entries, i);
    forall e | e in entries
      ensures Contributes(e, i) <==> HoldsPage(e, i)
    {
      ContributesIffHolds(e, i);
    }
  }

  // ---------- the accounting invariant it establishes ----------

  lemma {:induction false} SumRefsZero(pages: seq<Page>, lo: nat, hi: nat)
    requires lo <= hi <= |pages|
    requires forall i :: lo <= i < hi ==> pages[i].refCount == 0
    ensures SumRefs(pages, lo, hi) == 0
    decreases hi
  {
    if lo < hi {
      SumRefsZero(pages, lo, hi - 1);
    }
  }

  lemma {:induction false} SumRefsSame(a: seq<Page>, b: seq<Page>, lo: nat, hi: nat)
    requires |a| == |b| && lo <= hi <= |a|
    requires forall i :: lo <= i < hi ==> a[i].refCount == b[i].refCount
    ensures SumRefs(a, lo, hi) == SumRefs(b, lo, hi)
    decreases hi
  {
    if lo < hi {
      SumRefsSame(a, b, lo, hi - 1);
    }
  }

  lemma BlankInv(pages: nat, zones: nat, after0: bv64, after1: bv64)
    ensures Inv(Blank(pages, zones, after0, after1))
  {
    hide Used;
    var st := Blank(pages, zones, after0, after1);
    forall i: nat | i < 64 * BitmapWords(pages)
      ensures Used(st.bits, i)
    {
      BlankUsed(pages, zones, after0, after1, i);
    }
    forall i | 0 <= i < |st.pages|
      ensures PageOk(st, i)
    {
      assert Used(st.bits, i);
    }
  }

  lemma AddZoneZones(st: State, z: nat, lo: nat, hi: nat, y: nat)
    requires Inv(st) && z < |st.zones| && y < |st.zones| && lo <= hi <= |st.pages|
    requires st.zones[z] == ZERO_ZONE
    requires forall i :: lo <= i < hi ==> st.pages[i].zone == None
    ensures ZoneOk(AddZone(st, z, lo, hi), y)
  {
    hide Used, CountUsed, SumRefs, ToggleRange;
    var st' := AddZone(st, z, lo, hi);
    assert ZoneOk(st, y);
    forall i: nat | i < 64 * |st.bits|
      ensures Used(st'.bits, i) <==> Used(st.bits, i) != (lo <= i < hi)
    {
      ToggleRangeAt(st.bits, lo, hi, i);
    }
    var a, b := st'.zones[y].pagesGroup, st'.zones[y].pagesGroup + st'.zones[y].pagesLength;
    if y == z {
      forall i: nat | a <= i < b
        ensures !Used(st'.bits, i)
      {
        assert PageOk(st, i);
      }
      CountUsedNone(st'.bits, a, b);
      SumRefsZero(st'.pages, a, b);
    } else {
      forall i: nat | a <= i < b
        ensures Used(st.bits, i) == Used(st'.bits, i) && st'.pages[i] == st.pages[i]
      {
        assert PageOk(st, i) && Covers(st.zones[y], i);
      }
      CountUsedSame(st.bits, st'.bits, a, b);
      SumRefsSame(st.pages, st'.pages, a, b);
    }
  }

  /** Adding a zone over pages that no zone holds yet keeps the accounting invariant. */
  lemma AddZoneInv(st: State, z: nat, lo: nat, hi: nat)
    requires Inv(st) && z < |st.zones| && lo <= hi <= |st.pages|
    requires st.zones[z] == ZERO_ZONE
    requires forall i :: lo <= i < hi ==> st.pages[i].zone == None
    ensures Inv(AddZone(st, z, lo, hi))
  {
    hide Used, ZoneOk, ToggleRange;
    var st' := AddZone(st, z, lo, hi);
    forall i: nat | i < 64 * |st.bits|
      ensures Used(st'.bits, i) <==> Used(st.bits, i) != (lo <= i < hi)
    {
      ToggleRangeAt(st.bits, lo, hi, i);
    }
    forall i | 0 <= i < |st'.pages|
      ensures PageOk(st', i)
    {
      assert PageOk(st, i);
      assert forall y :: 0 <= y < |st.zones| && y != z ==> Covers(st'.zones[y], i) == Covers(st.zones[y], i);
      assert Covers(st'.zones[z], i) <==> lo <= i < hi;
      assert !Covers(ZERO_ZONE, i);
    }
    forall y | 0 <= y < |st'.zones|
      ensures ZoneOk(st', y)
    {
      AddZoneZones(st, z, lo, hi, y);
    }
  }

  /** construct_mem_struct establishes the accounting invariant, and a page lies in a zone
      exactly when some entry contributes it. */
  lemma {:induction false} BuildZonesInv(st: State, entries: seq<E820>)
    requires Fits(st, entries) && PagewiseDisjoint(entries)
    requires Inv(st)
    requires forall i :: 0 <= i < |st.pages| ==> st.pages[i].zone == None
    requires forall z :: 0 <= z < |st.zones| ==> st.zones[z] == ZERO_ZONE
    ensures Inv(BuildZones(st, entries))
    ensures forall i :: 0 <= i < |st.pages| ==>
              (InZone(BuildZones(st, entries), i) <==> exists e :: e in entries && Contributes(e, i))
    ensures forall z :: ZoneCount(entries) <= z < |st.zones| ==> BuildZones(st, entries).zones[z] == ZERO_ZONE
    decreases |entries|
  {
    hide ToggleRange, Contributes, Inv;
    if entries != [] {
      var init, e := entries[..|entries| - 1], entries[|entries| - 1];
      assert entries == init + [e];
      BuildZonesInv(st, init);
      var built := BuildZones(st, init);
      if MakesZone(e) {
        var lo, hi := EntryFirst(e), EntryEnd(e);
        forall i | lo <= i < hi
          ensures built.pages[i].zone == None
        {
          LastContributes(entries, i);
          assert !InZone(built, i);
        }
        AddZoneInv(built, ZoneCount(init), lo, hi);
      }
      forall i | 0 <= i < |st.pages|
        ensures InZone(BuildZones(st, entries), i) <==> exists f :: f in entries && Contributes(f, i)
      {
        LastZone(built, e, ZoneCount(init), i);
      }
    }
  }

  /** Zones are numbered in the order of the map: each entry that makes a zone gets the next
      descriptor, over its own pages. */
  lemma {:induction false} ZoneOfEntry(st: State, entries: seq<E820>, k: nat)
    requires Fits(st, entries) && k < |entries| && MakesZone(entries[k])
    ensures ZoneCount(entries[..k]) < |st.zones|
    ensures BuildZones(st, entries).zones[ZoneCount(entries[..k])]
         == FreshZone(EntryFirst(entries[k]), EntryEnd(entries[k]))
    decreases |entries|
  {
    hide ToggleRange, EntryFirst, EntryEnd;
    var last := |entries| - 1;
    ZoneCountGrows(entries, k);
    if k < last {
      assert entries[..last][..k] == entries[..k];
      ZoneOfEntry(st, entries[..last], k);
      ZoneCountGrows(entries[..last], k);
    }
  }

  /** The loop fills page descriptors with addresses and zones only. */
  lemma {:induction false} PagesBlank(st: State, entries: seq<E820>, i: nat)
    requires Fits(st, entries) && i < |st.pages|
    requires st.pages[i].attribute == 0 && st.pages[i].refCount == 0 && st.pages[i].age == 0
    ensures var p := BuildZones(st, entries).pages[i]; p.attribute == 0 && p.refCount == 0 && p.age == 0
    decreases |entries|
  {
    hide ToggleRange, EntryFirst, EntryEnd;
    if entries != [] {
      PagesBlank(st, entries[..|entries| - 1], i);
    }
  }

  lemma LastContributes(entries: seq<E820>, i: int)
    requires PagewiseDisjoint(entries) && entries != []
    requires MakesZone(entries[|entries| - 1])
    requires EntryFirst(entries[|entries| - 1]) <= i < EntryEnd(entries[|entries| - 1])
    ensures forall f :: f in entries[..|entries| - 1] ==> !Contributes(f, i)
  {
    hide MakesZone;
    assert Contributes(entries[|entries| - 1], i);
  }

  lemma LastZone(built: State, e: E820, z: nat, i: nat)
    requires z < |built.zones| || !MakesZone(e)
    requires |built.pages| <= 64 * |built.bits| && i < |built.pages|
    requires MakesZone(e) ==> EntryEnd(e) <= |built.pages|
    ensures var st' := if MakesZone(e) then AddZone(built, z, EntryFirst(e), EntryEnd(e)) else built;
            InZone(st', i) <==> InZone(built, i) || Contributes(e, i)
  {}
}
