/** The state init_memory leaves: zones built, kernel image and metadata reserved. */
module Boot {
  import opened Prelude
  import opened BitVectors
  import Words
  import opened Bitmap
  import opened Memory
  import opened Construction
  import opened Allocation
  import opened Confinement
  import opened Histories
  import opened PageTables

  const KERNEL_FLAGS: bv64 := PG_PTABLE_MAPED | PG_KERNEL_INIT | PG_ACTIVE | PG_KERNEL

  /** The memory size is taken from the last entry of the map. */
  function TotalPages(entries: seq<E820>): nat
    requires entries != []
  {
    var last := entries[|entries| - 1];
    U64(last.addr + last.len) / PAGE_SIZE
  }

  /** Where the image lies and how far the metadata after it reaches. */
  datatype Image = Image(kernelStart: nat, kernelEnd: nat)

  function MetadataEnd(entries: seq<E820>, image: Image): nat
    requires entries != []
  {
    LayOut(image.kernelEnd, TotalPages(entries), Available(entries)).end
  }

  /** First reserved page. */
  function ReservedFrom(image: Image): nat { image.kernelStart / PAGE_SIZE }

  /** First page after the reserved ones. */
  function ReservedTo(entries: seq<E820>, image: Image): nat
    requires entries != []
  {
    Vir2Phy(MetadataEnd(entries, image)) / PAGE_SIZE
  }

  /** Available memory that contains kernel image and metadata. */
  predicate HoldsImage(e: E820, entries: seq<E820>, image: Image)
    requires entries != []
  {
    e.kind == E820_AVAILABLE && e.addr <= PAGE_SIZE * ReservedFrom(image)
    && PAGE_SIZE * ReservedTo(entries, image) <= e.addr + e.len
  }

  /** What the boot code relies on: a good map whose last entry ends highest, in which
      one available entry holds kernel image and metadata. */
  predicate BootMap(entries: seq<E820>, image: Image) {
    entries != [] && GoodMap(entries)
    && (forall e :: e in entries ==>
          e.addr + e.len <= entries[|entries| - 1].addr + entries[|entries| - 1].len)
    && image.kernelStart <= image.kernelEnd
    && ReservedFrom(image) <= ReservedTo(entries, image)
    && exists e :: e in entries && HoldsImage(e, entries, image)
  }

  lemma BootFits(entries: seq<E820>, image: Image, after0: bv64, after1: bv64)
    requires BootMap(entries, image)
    ensures Fits(Blank(TotalPages(entries), Available(entries), after0, after1), entries)
  {
    hide Available, EntryFirst, ReservedFrom, ReservedTo;
    var last := entries[|entries| - 1];
    forall e | e in entries
      ensures EntryEnd(e) <= TotalPages(entries)
    {
      assert last in entries;
      EndOrder(e, last);
    }
    WordsHold(TotalPages(entries));
  }

  lemma EndOrder(e: E820, last: E820)
    requires e.addr + e.len <= last.addr + last.len && last.addr + last.len + PAGE_SIZE <= TWO_64
    ensures EntryEnd(e) <= U64(last.addr + last.len) / PAGE_SIZE
  {}

  lemma WordsHold(pages: nat)
    ensures pages <= 64 * BitmapWords(pages)
  {}

  /** The state after the zone loop. */
  function Zoned(entries: seq<E820>, image: Image, after0: bv64, after1: bv64): State
    requires BootMap(entries, image)
  {
    BootFits(entries, image, after0, after1);
    BuildZones(Blank(TotalPages(entries), Available(entries), after0, after1), entries)
  }

  lemma HeldIff(entries: seq<E820>, image: Image, e: E820, i: nat)
    requires BootMap(entries, image) && e in entries
    ensures Contributes(e, i) <==> HoldsPage(e, i)
  {
    hide HoldsImage, Contributes, HoldsPage;
    ContributesIffHolds(e, i);
  }

  /** A page that an entry holds is below the page count. */
  lemma HeldBelowTotal(entries: seq<E820>, image: Image, e: E820, i: nat)
    requires BootMap(entries, image) && e in entries && HoldsPage(e, i)
    ensures i < TotalPages(entries) && Contributes(e, i)
  {
    hide HoldsImage, MakesZone;
    var last := entries[|entries| - 1];
    assert last in entries;
    ContributesIffHolds(e, i);
    HeldBelowEnd(e, last, i);
  }

  lemma HeldBelowEnd(e: E820, last: E820, i: nat)
    requires e.addr + e.len <= last.addr + last.len && last.addr + last.len + PAGE_SIZE <= TWO_64
    requires HoldsPage(e, i)
    ensures i < U64(last.addr + last.len) / PAGE_SIZE
  {}

  lemma ReservedHeld(entries: seq<E820>, image: Image, e: E820, i: nat)
    requires entries != [] && HoldsImage(e, entries, image)
    requires ReservedFrom(image) <= i < ReservedTo(entries, image)
    ensures HoldsPage(e, i)
  {
    hide ReservedFrom, ReservedTo;
  }

  lemma ZonedInv(entries: seq<E820>, image: Image, after0: bv64, after1: bv64)
    requires BootMap(entries, image)
    ensures Inv(Zoned(entries, image, after0, after1))
    ensures forall i :: 0 <= i < TotalPages(entries) ==>
              (InZone(Zoned(entries, image, after0, after1), i) <==> exists e :: e in entries && Contributes(e, i))
    ensures forall i :: ReservedFrom(image) <= i < ReservedTo(entries, image)
              ==> InZone(Zoned(entries, image, after0, after1), i)
  {
    hide Inv, InZone, Contributes, ReservedFrom, ReservedTo, HoldsImage, HoldsPage, TotalPages, BuildZones, GoodMap;
    BootFits(entries, image, after0, after1);
    BlankInv(TotalPages(entries), Available(entries), after0, after1);
    GoodMapPagewise(entries);
    BuildZonesInv(Blank(TotalPages(entries), Available(entries), after0, after1), entries);
    var e :| e in entries && HoldsImage(e, entries, image);
    forall i | ReservedFrom(image) <= i < ReservedTo(entries, image)
      ensures InZone(Zoned(entries, image, after0, after1), i)
    {
      ReservedHeld(entries, image, e, i);
      HeldBelowTotal(entries, image, e, i);
    }
  }

  lemma BootDefined(entries: seq<E820>, image: Image, after0: bv64, after1: bv64)
    requires BootMap(entries, image)
    ensures forall i :: ReservedFrom(image) <= i < ReservedTo(entries, image) ==>
              Touchable(Zoned(entries, image, after0, after1), i)
  {
    hide Inv, Touchable, InZone, GoodMap, LayOut, BuildZones;
    BootFits(entries, image, after0, after1);
    ZonedInv(entries, image, after0, after1);
    forall i | ReservedFrom(image) <= i < ReservedTo(entries, image)
      ensures Touchable(Zoned(entries, image, after0, after1), i)
    {
      InZoneTouchable(Zoned(entries, image, after0, after1), i);
    }
  }

  /** The state after init_memory. */
  function Booted(entries: seq<E820>, image: Image, after0: bv64, after1: bv64): State
    requires BootMap(entries, image)
  {
    BootDefined(entries, image, after0, after1);
    ClaimRun(Zoned(entries, image, after0, after1), ReservedFrom(image),
             ReservedTo(entries, image) - ReservedFrom(image), KERNEL_FLAGS)
  }

  lemma ReservedBit(entries: seq<E820>, image: Image, after0: bv64, after1: bv64, e: E820, i: nat)
    requires BootMap(entries, image) && e in entries && HoldsPage(e, i) && i < TotalPages(entries)
    ensures i < 64 * |Zoned(entries, image, after0, after1).bits|
    ensures !Used(Zoned(entries, image, after0, after1).bits, i)
  {
    hide Used, GoodMap, HoldsPage, TotalPages, BuildZones, ReservedFrom, ReservedTo, HoldsImage;
    BootFits(entries, image, after0, after1);
    WordsHold(TotalPages(entries));
    BitmapMeansAvailable(TotalPages(entries), Available(entries), after0, after1, entries, i);
  }

  /** The reserved pages are clear after the zone loop. */
  lemma ReservedClear(entries: seq<E820>, image: Image, after0: bv64, after1: bv64)
    requires BootMap(entries, image)
    ensures ReservedFrom(image) <= ReservedTo(entries, image) <= 64 * |Zoned(entries, image, after0, after1).bits|
    ensures RunClear(Zoned(entries, image, after0, after1).bits, ReservedFrom(image),
                     ReservedTo(entries, image) - ReservedFrom(image))
  {
    hide Used, GoodMap, HoldsPage, TotalPages, BuildZones, ReservedFrom, ReservedTo, HoldsImage, Zoned, Contributes;
    var e :| e in entries && HoldsImage(e, entries, image);
    forall i | ReservedFrom(image) <= i < ReservedTo(entries, image)
      ensures i < 64 * |Zoned(entries, image, after0, after1).bits|
      ensures !Used(Zoned(entries, image, after0, after1).bits, i)
    {
      ReservedHeld(entries, image, e, i);
      HeldBelowTotal(entries, image, e, i);
      ReservedBit(entries, image, after0, after1, e, i);
    }
    ReservedFits(entries, image, after0, after1, e);
  }

  lemma ReservedFits(entries: seq<E820>, image: Image, after0: bv64, after1: bv64, e: E820)
    requires BootMap(entries, image) && e in entries && HoldsImage(e, entries, image)
    ensures ReservedTo(entries, image) <= 64 * |Zoned(entries, image, after0, after1).bits|
  {
    hide GoodMap, ReservedFrom, ReservedTo, BuildZones, Available;
    BootFits(entries, image, after0, after1);
    WordsHold(TotalPages(entries));
    LastFits(entries, image, e);
  }

  lemma LastFits(entries: seq<E820>, image: Image, e: E820)
    requires BootMap(entries, image) && e in entries && HoldsImage(e, entries, image)
    ensures ReservedTo(entries, image) <= TotalPages(entries)
  {
    hide ReservedFrom, ReservedTo;
    assert entries[|entries| - 1] in entries;
  }

  /** Reserving marks exactly the reserved pages and keeps the accounting invariant. */
  lemma ReserveEffect(entries: seq<E820>, image: Image, after0: bv64, after1: bv64)
    requires BootMap(entries, image)
    ensures var zoned, booted := Zoned(entries, image, after0, after1), Booted(entries, image, after0, after1);
            Inv(booted)
            && |booted.bits| == |zoned.bits| == BitmapWords(TotalPages(entries)) + 2
            && |booted.pages| == TotalPages(entries)
            && forall i :: 0 <= i < 64 * |zoned.bits| ==>
                 Used(booted.bits, i)
                 == (Used(zoned.bits, i) || ReservedFrom(image) <= i < ReservedTo(entries, image))
  {
    hide Inv, Touchable, Used, GoodMap, ClaimRun, RunClear, LayOut, BuildZones;
    BootFits(entries, image, after0, after1);
    BootDefined(entries, image, after0, after1);
    ZonedInv(entries, image, after0, after1);
    ReservedClear(entries, image, after0, after1);
    ClaimRunEffect(Zoned(entries, image, after0, after1), ReservedFrom(image),
                   ReservedTo(entries, image) - ReservedFrom(image), KERNEL_FLAGS);
  }

  /** Every descriptor of available memory after boot: a reserved page carries the flags 0x93 and
      one reference, any other page neither flags nor references, and both their own address. */
  lemma BootedPages(entries: seq<E820>, image: Image, after0: bv64, after1: bv64, i: nat)
    requires BootMap(entries, image) && i < TotalPages(entries)
    requires exists e :: e in entries && HoldsPage(e, i)
    ensures i < |Booted(entries, image, after0, after1).pages|
    ensures var p := Booted(entries, image, after0, after1).pages[i];
            var reserved := ReservedFrom(image) <= i < ReservedTo(entries, image);
            p.attribute == (if reserved then 0x93 else 0) && p.refCount == (if reserved then 1 else 0)
            && p.age == 0 && p.phyAddr == 4096 * i
  {
    hide Inv, Touchable, Used, GoodMap, ClaimRun, RunClear, LayOut, BuildZones, InZone, ReservedFrom, ReservedTo,
         HoldsImage, TotalPages, Available, HoldsPage, Contributes;
    BootFits(entries, image, after0, after1);
    BootDefined(entries, image, after0, after1);
    ZonedInv(entries, image, after0, after1);
    ReservedClear(entries, image, after0, after1);
    var zoned := Zoned(entries, image, after0, after1);
    var e :| e in entries && HoldsPage(e, i);
    HeldIff(entries, image, e, i);
    InZoneAddress(zoned, i);
    PagesBlank(Blank(TotalPages(entries), Available(entries), after0, after1), entries, i);
    ClaimRunEffect(zoned, ReservedFrom(image), ReservedTo(entries, image) - ReservedFrom(image), KERNEL_FLAGS);
    ClaimRunRefs(zoned, ReservedFrom(image), ReservedTo(entries, image) - ReservedFrom(image), KERNEL_FLAGS);
    KernelFlags();
  }

  /** Zones are numbered in the order of the map, and each spans the whole pages of its entry. */
  lemma BootedZones(entries: seq<E820>, image: Image, after0: bv64, after1: bv64, k: nat)
    requires BootMap(entries, image) && k < |entries| && MakesZone(entries[k])
    ensures var st, z := Booted(entries, image, after0, after1), ZoneCount(entries[..k]);
            z < |st.zones|
            && FirstPage(st.zones[z]) == (entries[k].addr + 4095) / 4096
            && EndPage(st.zones[z]) == (entries[k].addr + entries[k].len) / 4096
            && st.zones[z].attribute == 0
  {
    hide Inv, Touchable, Used, ClaimRun, RunClear, LayOut, BuildZones, InZone, ReservedFrom, ReservedTo,
         HoldsImage, TotalPages, Available, MakesZone, GoodMap;
    BootFits(entries, image, after0, after1);
    BootDefined(entries, image, after0, after1);
    ZonedInv(entries, image, after0, after1);
    ZoneOfEntry(Blank(TotalPages(entries), Available(entries), after0, after1), entries, k);
    EntryPages(entries, k);
    ClaimRunShrinks(Zoned(entries, image, after0, after1), ReservedFrom(image),
                    ReservedTo(entries, image) - ReservedFrom(image), KERNEL_FLAGS);
  }

  lemma EntryPages(entries: seq<E820>, k: nat)
    requires GoodMap(entries) && k < |entries| && MakesZone(entries[k])
    ensures var e := entries[k];
            EntryFirst(e) == (e.addr + 4095) / 4096 && EntryEnd(e) == (e.addr + e.len) / 4096
            && EntryFirst(e) < EntryEnd(e)
            && FirstPage(FreshZone(EntryFirst(e), EntryEnd(e))) == EntryFirst(e)
            && EndPage(FreshZone(EntryFirst(e), EntryEnd(e))) == EntryEnd(e)
            && FreshZone(EntryFirst(e), EntryEnd(e)).attribute == 0
  {
    assert entries[k] in entries;
  }

  lemma KernelFlags()
    ensures KERNEL_FLAGS == 0x93
  {}

  lemma InZoneAddress(st: State, i: nat)
    requires Inv(st) && InZone(st, i)
    ensures i < |st.pages| && st.pages[i].phyAddr == 4096 * i
  {
    assert PageOk(st, i);
  }

  /** Booting establishes the accounting invariant with the kernel image and all metadata
      marked used, and frees exactly the other whole pages of available memory. */
  lemma BootedInv(entries: seq<E820>, image: Image, after0: bv64, after1: bv64)
    requires BootMap(entries, image)
    ensures Inv(Booted(entries, image, after0, after1))
    ensures |Booted(entries, image, after0, after1).bits| == BitmapWords(TotalPages(entries)) + 2
    ensures forall i :: 0 <= i < 64 * BitmapWords(TotalPages(entries)) ==>
              (!Used(Booted(entries, image, after0, after1).bits, i) <==>
                 (exists e :: e in entries && HoldsPage(e, i))
                 && !(ReservedFrom(image) <= i < ReservedTo(entries, image)))
  {
    hide Inv, Used, GoodMap, HoldsPage, LayOut, Booted, BuildZones;
    BootFits(entries, image, after0, after1);
    ReserveEffect(entries, image, after0, after1);
    forall i: nat | i < 64 * BitmapWords(TotalPages(entries))
      ensures !Used(Zoned(entries, image, after0, after1).bits, i) <==> exists e :: e in entries && HoldsPage(e, i)
    {
      BitmapMeansAvailable(TotalPages(entries), Available(entries), after0, after1, entries, i);
    }
  }

  /** No zone reaches the two words after the bitmap: they keep what memory held. */
  lemma BootedAfter(entries: seq<E820>, image: Image, after0: bv64, after1: bv64, i: nat)
    requires BootMap(entries, image)
    requires 64 * BitmapWords(TotalPages(entries)) <= i < 64 * BitmapWords(TotalPages(entries)) + 128
    ensures i < 64 * |Booted(entries, image, after0, after1).bits|
    ensures Used(Booted(entries, image, after0, after1).bits, i)
       <==> Words.Bit(if i < 64 * BitmapWords(TotalPages(entries)) + 64 then after0 else after1, i % 64)
  {
    hide Inv, GoodMap, Booted, LayOut, BuildZones, Covering, Words.Bit, TotalPages, HoldsImage, Available,
         ReservedFrom, ReservedTo, Contributes, HoldsPage, BitmapWords;
    BootFits(entries, image, after0, after1);
    ReserveEffect(entries, image, after0, after1);
    WordsHold(TotalPages(entries));
    var e :| e in entries && HoldsImage(e, entries, image);
    LastFits(entries, image, e);
    BitIsParity(Blank(TotalPages(entries), Available(entries), after0, after1), entries, i);
    CoveringZero(entries, i);
    forall f | f in entries
      ensures !Contributes(f, i)
    {
      NothingPastTotal(entries, image, f, i);
    }
    BlankAfter(TotalPages(entries), Available(entries), after0, after1, i);
  }

  lemma NothingPastTotal(entries: seq<E820>, image: Image, e: E820, i: nat)
    requires BootMap(entries, image) && e in entries && i >= TotalPages(entries)
    ensures !Contributes(e, i)
  {
    hide TotalPages, Contributes, HoldsImage, HoldsPage;
    ContributesIffHolds(e, i);
    if HoldsPage(e, i) {
      HeldBelowTotal(entries, image, e, i);
    }
  }

  lemma BlankAfter(pages: nat, zones: nat, after0: bv64, after1: bv64, i: nat)
    requires 64 * BitmapWords(pages) <= i < 64 * BitmapWords(pages) + 128
    ensures |Blank(pages, zones, after0, after1).bits| == BitmapWords(pages) + 2
    ensures Used(Blank(pages, zones, after0, after1).bits, i)
       <==> Words.Bit(if i < 64 * BitmapWords(pages) + 64 then after0 else after1, i % 64)
  {
    hide Words.Bit;
  }

  /** Some entry holds the last page of memory. */
  predicate LastHeld(entries: seq<E820>)
    requires entries != []
  {
    exists e :: e in entries && TotalPages(entries) > 0 && HoldsPage(e, TotalPages(entries) - 1)
  }

  lemma LastHeldInZone(entries: seq<E820>, image: Image, after0: bv64, after1: bv64)
    requires BootMap(entries, image)
    ensures InZone(Booted(entries, image, after0, after1), TotalPages(entries) - 1) <==> LastHeld(entries)
  {
    hide Inv, GoodMap, LayOut, BuildZones, TotalPages, HoldsImage, Available, ReservedFrom, ReservedTo,
         Contributes, HoldsPage, BitmapWords, ClaimRun, Zoned, Touchable;
    ZonedInv(entries, image, after0, after1);
    BootDefined(entries, image, after0, after1);
    ReserveEffect(entries, image, after0, after1);
    ClaimRunKeepsInv(Zoned(entries, image, after0, after1), ReservedFrom(image),
                     ReservedTo(entries, image) - ReservedFrom(image), KERNEL_FLAGS);
    var last := TotalPages(entries) - 1;
    if last >= 0 {
      forall e | e in entries
        ensures Contributes(e, last) <==> HoldsPage(e, last)
      {
        HeldIff(entries, image, e, last);
      }
    }
  }

  /** Confinement after boot. No zone leaks when the page count is no multiple of 64, when no
      entry holds the last page, as with a last entry that is reserved, or when memory behind
      the bitmap reads as all ones. Otherwise, with a last page that is left free, a scan
      reaches and passes every clear bit of the next word but its first. */
  lemma BootedGuard(entries: seq<E820>, image: Image, after0: bv64, after1: bv64)
    requires BootMap(entries, image)
    ensures TotalPages(entries) % 64 != 0 || !LastHeld(entries) || after0 == ALL_ONES
      ==> Guarded(Booted(entries, image, after0, after1))
    ensures TotalPages(entries) % 64 == 0 && LastHeld(entries) && ReservedTo(entries, image) < TotalPages(entries)
      && (exists k: nat :: 1 <= k < 64 && !Words.Bit(after0, k))
      ==> !Guarded(Booted(entries, image, after0, after1))
  {
    hide Inv, GoodMap, Booted, LayOut, BuildZones, Words.Bit, TotalPages, HoldsImage, LastHeld, Used,
         Guarded, InZone, ReservedFrom, ReservedTo, HoldsPage, Available;
    var st := Booted(entries, image, after0, after1);
    var total := TotalPages(entries);
    ReserveEffect(entries, image, after0, after1);
    LastHeldInZone(entries, image, after0, after1);
    WordsHold(total);
    if total % 64 != 0 || !LastHeld(entries) {
      GuardedWhen(st);
    } else if after0 == ALL_ONES {
      forall i: nat | total <= i < total + 64
        ensures i < 64 * |st.bits| && Used(st.bits, i)
      {
        Words.AllOnesBit(i % 64);
        BootedAfter(entries, image, after0, after1, i);
      }
      GuardedWhen(st);
      forall k: nat | k < 64
        ensures Words.Bit(after0, k)
      {
        Words.AllOnesBit(k);
      }
    } else if ReservedTo(entries, image) < total && exists k: nat :: 1 <= k < 64 && !Words.Bit(after0, k) {
      var k: nat :| 1 <= k < 64 && !Words.Bit(after0, k);
      BootedAfter(entries, image, after0, after1, total + k);
      LastFree(entries, image, after0, after1);
      FreeLastPageLeaks(st, total + k);
    }
  }

  lemma LastFree(entries: seq<E820>, image: Image, after0: bv64, after1: bv64)
    requires BootMap(entries, image) && LastHeld(entries) && ReservedTo(entries, image) < TotalPages(entries)
    ensures 0 < TotalPages(entries) <= 64 * |Booted(entries, image, after0, after1).bits|
    ensures !Used(Booted(entries, image, after0, after1).bits, TotalPages(entries) - 1)
  {
    hide Inv, GoodMap, Booted, LayOut, TotalPages, HoldsImage, Used, ReservedFrom, ReservedTo, HoldsPage;
    BootedInv(entries, image, after0, after1);
    WordsHold(TotalPages(entries));
  }

  /** Over every history that starts at boot, no allocation returns a page of the kernel image or
      of the metadata as long as no earlier call leaked, and a call that does not leak itself
      returns available memory only. */
  lemma KernelNeverReturned(entries: seq<E820>, image: Image, after0: bv64, after1: bv64,
                            states: seq<State>, events: seq<Event>, b: nat, i: int)
    requires BootMap(entries, image)
    requires History(states, events) && states[0] == Booted(entries, image, after0, after1)
    requires b < |events| && Returned(events[b], i) && NoLeaks(states, events, b)
    ensures !(ReservedFrom(image) <= i < ReservedTo(entries, image))
    ensures !Leaking(states[b], events[b]) ==> exists e :: e in entries && HoldsPage(e, i)
  {
    hide Inv, Touchable, Used, GoodMap, ClaimRun, HoldsPage, Leaking, Allowed, Step, Booted, LayOut, InZone,
         HoldsImage;
    ReserveEffect(entries, image, after0, after1);
    BootedInv(entries, image, after0, after1);
    ReturnedPages(states, events, b, i);
    HistoryInv(states, events, 0, b);
    LeakingIff(states[b], events[b], states[b + 1]);
    ReservedBelow(entries, image);
    WordsHold(TotalPages(entries));
    if !Leaking(states[b], events[b]) {
      InZoneBelowWords(states[b], i);
    }
  }

  lemma ReservedBelow(entries: seq<E820>, image: Image)
    requires BootMap(entries, image)
    ensures ReservedTo(entries, image) <= TotalPages(entries)
  {
    var e :| e in entries && HoldsImage(e, entries, image);
    LastFits(entries, image, e);
  }

  /** For the boots that BootedGuard clears no call of any history leaks. */
  lemma BootedHistory(entries: seq<E820>, image: Image, after0: bv64, after1: bv64,
                      states: seq<State>, events: seq<Event>)
    requires BootMap(entries, image)
    requires TotalPages(entries) % 64 != 0 || !LastHeld(entries) || after0 == ALL_ONES
    requires History(states, events) && states[0] == Booted(entries, image, after0, after1)
    ensures NoLeaks(states, events, |events|) && ReturnsAvailable(states, events, |events|)
  {
    hide Inv, Guarded, Booted, BootMap, LastHeld, TotalPages, Step, Allowed, Leaking, InZone;
    BootedInv(entries, image, after0, after1);
    BootedGuard(entries, image, after0, after1);
    GuardedHistory(states, events, |events|);
    AvailableIff(states, events, |events|);
  }

  lemma InZoneBelowWords(st: State, i: int)
    requires Inv(st) && InZone(st, i)
    ensures 0 <= i < 64 * (|st.bits| - 2)
  {}

  /** Every byte of kernel image and metadata lies in a reserved page. */
  lemma MetadataReserved(entries: seq<E820>, image: Image, a: nat)
    requires BootMap(entries, image)
    requires image.kernelEnd + 8 * BitsBytes(TotalPages(entries)) + PAGE_STRUCT_BYTES * TotalPages(entries)
             + ZONE_STRUCT_BYTES * Available(entries) + 4 * PAGE_SIZE <= TWO_47
    requires image.kernelStart <= a < MetadataEnd(entries, image)
    ensures ReservedFrom(image) <= a / PAGE_SIZE < ReservedTo(entries, image)
  {
    hide GoodMap, BitsBytes, Available, TotalPages;
    LayoutOrdered(image.kernelStart, image.kernelEnd, TotalPages(entries), Available(entries));
    LayoutBelow(image.kernelEnd, TotalPages(entries), Available(entries));
    Phy2VirInvertsIff(MetadataEnd(entries, image));
  }
}
