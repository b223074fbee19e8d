/** Where the code breaks its promises after an ordinary boot: the written claim returns a page
    in use, a request is given memory that does not exist, and NULL hides a free page. */
module Counterexamples {
  import opened BitVectors
  import Words
  import opened Bitmap
  import opened Memory
  import opened Construction
  import opened Allocation
  import opened Confinement
  import opened Histories
  import opened Boot

  // ---------- the written claim after boot ----------

  /** 128 MiB of memory from 32 MiB on with a kernel image of 1 MiB at its start: kernel and
      metadata take the pages 8192 to 8858. */
  const EXAMPLE_MAP := [E820(0x200_0000, 0x800_0000, 1)]
  const EXAMPLE_IMAGE := Image(0x200_0000, 0x210_0000)

  lemma ExampleLayout()
    ensures LayOut(0x210_0000, 40960, 1).end == 0x229_B000
  {
    assert BitsBytes(40960) == 5120;
    assert PageAlign(0x210_0000) == 0x210_0000;
    assert PageAlign(0x210_0000 + 8 * 5120) == 0x210_A000;
    assert PageAlign(0x210_A000 + PAGE_STRUCT_BYTES * 40960) == 0x229_A000;
  }

  lemma ExampleMap()
    ensures TotalPages(EXAMPLE_MAP) == 40960 && Available(EXAMPLE_MAP) == 1
    ensures ReservedFrom(EXAMPLE_IMAGE) == 8192 && ReservedTo(EXAMPLE_MAP, EXAMPLE_IMAGE) == 8859
    ensures BootMap(EXAMPLE_MAP, EXAMPLE_IMAGE)
  {
    hide LayOut;
    assert EXAMPLE_MAP[..0] == [];
    ExampleLayout();
    var e := EXAMPLE_MAP[0];
    assert e in EXAMPLE_MAP && HoldsImage(e, EXAMPLE_MAP, EXAMPLE_IMAGE);
  }

  lemma ExampleHeld(i: nat)
    ensures (exists e :: e in EXAMPLE_MAP && HoldsPage(e, i)) <==> 8192 <= i < 40960
  {
    assert EXAMPLE_MAP[0] in EXAMPLE_MAP;
  }

  lemma ExampleZone(after0: bv64, after1: bv64)
    requires BootMap(EXAMPLE_MAP, EXAMPLE_IMAGE)
    ensures var st := Booted(EXAMPLE_MAP, EXAMPLE_IMAGE, after0, after1);
            |st.zones| == 1 && FirstPage(st.zones[0]) == 8192 && EndPage(st.zones[0]) == 40960
  {
    hide Inv, Touchable, ClaimRun, ReservedFrom, ReservedTo, BitmapWords, ToggleRange, SetPages, LayOut, HoldsImage;
    var zoned := Zoned(EXAMPLE_MAP, EXAMPLE_IMAGE, after0, after1);
    BootFits(EXAMPLE_MAP, EXAMPLE_IMAGE, after0, after1);
    assert EXAMPLE_MAP[..0] == [];
    assert zoned.zones[0] == FreshZone(8192, 40960);
    ZonedInv(EXAMPLE_MAP, EXAMPLE_IMAGE, after0, after1);
    BootDefined(EXAMPLE_MAP, EXAMPLE_IMAGE, after0, after1);
    ClaimRunShrinks(zoned, ReservedFrom(EXAMPLE_IMAGE),
                    ReservedTo(EXAMPLE_MAP, EXAMPLE_IMAGE) - ReservedFrom(EXAMPLE_IMAGE), KERNEL_FLAGS);
  }

  /** Right after boot the code as written breaks its contract: the first request for one
      page finds page 8859, the first free one, and claims page 8858, which holds metadata. */
  lemma WrittenClaimExample(after0: bv64, after1: bv64)
    ensures BootMap(EXAMPLE_MAP, EXAMPLE_IMAGE)
    ensures var st := Booted(EXAMPLE_MAP, EXAMPLE_IMAGE, after0, after1);
            Found(st, 0, 0, 1, 0, 8859) && WrittenIndex(FirstPage(st.zones[0]), 8859) == 8858
            && ReservedFrom(EXAMPLE_IMAGE) <= 8858 < ReservedTo(EXAMPLE_MAP, EXAMPLE_IMAGE)
            && 8858 < 64 * |st.bits| && Used(st.bits, 8858)
  {
    hide Inv, Booted, BootMap, HoldsPage, Used, RunTest, ReservedFrom, ReservedTo, TotalPages;
    ExampleMap();
    var st := Booted(EXAMPLE_MAP, EXAMPLE_IMAGE, after0, after1);
    ExampleZone(after0, after1);
    BootedInv(EXAMPLE_MAP, EXAMPLE_IMAGE, after0, after1);
    forall i: nat | i < 40960
      ensures Used(st.bits, i) <==> i < 8859
    {
      ExampleHeld(i);
    }
    FreeInZone(st, 0, 8859);
    RunTestExact(st.bits, 8859, 1);
    forall u: nat | u < 8859
      ensures !Passes(st, u, 1)
    {
      assert Used(st.bits, u);
      if Passes(st, u, 1) {
        RunTestSound(st.bits, u, 1);
      }
    }
  }

  /** A zone that covers a clear page has a free page to offer. */
  lemma FreeInZone(st: State, z: nat, i: nat)
    requires Inv(st) && z < |st.zones| && FirstPage(st.zones[z]) <= i < EndPage(st.zones[z])
    requires i < 64 * |st.bits| && !Used(st.bits, i)
    ensures Eligible(st, z, 1)
  {
    hide Used;
    assert ZoneOk(st, z);
    CountUsedRoom(st.bits, st.zones[z].pagesGroup, st.zones[z].pagesGroup + st.zones[z].pagesLength, i);
  }

  // ---------- filling memory ----------

  /** page_init on every available page below m but page p. */
  lemma {:induction false} FillUpTo(st: State, p: nat, m: nat, flags: bv64)
    returns (states: seq<State>, events: seq<Event>)
    requires Inv(st) && flags != 0 && m <= |st.pages|
    ensures History(states, events) && states[0] == st && forall k :: 0 <= k < |events| ==> events[k].Init?
    ensures Inv(states[|events|]) && Shrinks(st, states[|events|])
    ensures forall i :: InZone(states[|events|], i) <==> InZone(st, i)
    ensures forall i :: 0 <= i < 64 * |st.bits| ==>
              (Used(states[|events|].bits, i) <==> Used(st.bits, i) || (i < m && i != p && InZone(st, i)))
    decreases m
  {
    hide Inv, Used, PageInit, Touchable, InZone;
    if m == 0 {
      states, events := [st], [];
    } else {
      states, events := FillUpTo(st, p, m - 1, flags);
      var mid := states[|events|];
      if InZone(st, m - 1) && m - 1 != p {
        PageInitEffect(mid, m - 1, flags);
        PageInitKeepsInv(mid, m - 1, flags);
        PageInitShrinks(mid, m - 1, flags);
        PageInitZonesOf(mid, m - 1, flags);
        states, events := InitNext(states, events, m - 1, flags);
      }
    }
  }

  /** One more page_init at the end of a history. */
  lemma InitNext(states: seq<State>, events: seq<Event>, page: nat, flags: bv64)
    returns (longer: seq<State>, more: seq<Event>)
    requires History(states, events) && InZone(states[|events|], page) && Touchable(states[|events|], page)
    requires flags != 0
    ensures more == events + [Init(page, flags)]
    ensures longer == states + [PageInit(states[|events|], page, flags)] && History(longer, more)
  {
    hide PageInit, InZone, Touchable, NotFound, Found, ClaimRun;
    more := events + [Init(page, flags)];
    longer := states + [PageInit(states[|events|], page, flags)];
    forall k | 0 <= k < |more|
      ensures Allowed(longer[k], more[k]) && Step(longer[k], more[k], longer[k + 1])
    {
      if k < |events| {
        assert longer[k] == states[k] && longer[k + 1] == states[k + 1] && more[k] == events[k];
      }
    }
  }

  /** Zone z can be filled up to one page p at a word boundary, which a search then misses. */
  lemma FillAllBut(st: State, z: nat, p: nat) returns (states: seq<State>, events: seq<Event>)
    requires Inv(st) && z < |st.zones| && FirstPage(st.zones[z]) <= p < EndPage(st.zones[z])
    requires p % 64 == 0 && p + 64 < |st.pages| && !Used(st.bits, p)
    ensures History(states, events) && states[0] == st && forall k :: 0 <= k < |events| ==> events[k].Init?
    ensures Inv(states[|events|]) && Shrinks(st, states[|events|])
    ensures forall i :: |st.pages| <= i < 64 * |st.bits| ==> (Used(states[|events|].bits, i) <==> Used(st.bits, i))
    ensures Eligible(states[|events|], z, 1) && Offers(states[|events|], z, 1, p)
    ensures forall t: nat :: t < |st.pages| ==> !Passes(states[|events|], t, 1)
  {
    hide Inv, Used, RunTest, InZone, PageInit;
    BitsHold(st);
    states, events := FillUpTo(st, p, |st.pages|, 1);
    var fin := states[|events|];
    FreeInZone(fin, z, p);
    OffersOne(fin, z, p);
    forall t: nat | t < |st.pages|
      ensures !Passes(fin, t, 1)
    {
      if !Used(st.bits, t) { ClearInZone(st, t); }
      if !Used(st.bits, p + 64) { ClearInZone(st, p + 64); }
      BlockedAt(fin, p, t);
    }
  }

  lemma BitsHold(st: State)
    requires Inv(st)
    ensures |st.pages| + 64 <= 64 * |st.bits|
  {}

  lemma OffersOne(st: State, z: nat, p: nat)
    requires z < |st.zones| && FirstPage(st.zones[z]) <= p < EndPage(st.zones[z])
    requires p / 64 + 1 < |st.bits| && !Used(st.bits, p)
    ensures Offers(st, z, 1, p)
  {
    hide Used;
  }

  /** Where page p at a word boundary is the only clear page and page p + 64 is in use,
      nothing passes. */
  lemma BlockedAt(st: State, p: nat, t: nat)
    requires p % 64 == 0 && p + 64 < 64 * |st.bits| && t < 64 * |st.bits|
    requires Used(st.bits, p + 64) && (t != p ==> Used(st.bits, t))
    ensures !Passes(st, t, 1)
  {
    hide Used, RunTest;
    if Passes(st, t, 1) {
      RunTestSound(st.bits, t, 1);
      RunTestBoundary(st.bits, t, 1);
    }
  }

  // ---------- a request that leaks ----------

  /** Whenever a zone reaches the end of a page table with a multiple of 64 pages, holds a free
      page at a word boundary before its last word, and any bit of the word behind the bitmap
      but the first is clear, some calls of page_init lead to a state in which a request for
      one page is given a page that does not exist. */
  lemma LeakReachable(st: State, z: nat, p: nat, i: nat)
    returns (states: seq<State>, events: seq<Event>, t: nat)
    requires Inv(st) && z < |st.zones| && |st.pages| % 64 == 0
    requires EndPage(st.zones[z]) == |st.pages| && FirstPage(st.zones[z]) <= p
    requires p % 64 == 0 && p + 64 < |st.pages| && !Used(st.bits, p)
    requires |st.pages| < i < |st.pages| + 64 && i < 64 * |st.bits| && !Used(st.bits, i)
    ensures History(states, events) && states[0] == st && NoLeaks(states, events, |events|)
    ensures RequestLeaks(states[|events|], z, z, 1)
    ensures Found(states[|events|], z, z, 1, z, t) && t >= |st.pages|
  {
    hide Inv, Used, RunTest, Scanned, Eligible, Shrinks;
    states, events := FillAllBut(st, z, p);
    var fin := states[|events|];
    SameBounds(st, fin, z);
    BehindPasses(fin, z, i);
    t := FirstExists(fin, z, 1, i);
    RequestLeaksIff(fin, z, z, 1, z, t);
  }

  lemma SameBounds(st: State, st': State, z: nat)
    requires Shrinks(st, st') && z < |st.zones|
    ensures z < |st'.zones| && |st'.pages| == |st.pages| && |st'.bits| == |st.bits|
    ensures FirstPage(st'.zones[z]) == FirstPage(st.zones[z]) && EndPage(st'.zones[z]) == EndPage(st.zones[z])
  {}

  lemma BehindPasses(st: State, z: nat, i: nat)
    requires Inv(st) && z < |st.zones| && |st.pages| % 64 == 0 && Eligible(st, z, 1)
    requires EndPage(st.zones[z]) == |st.pages|
    requires |st.pages| < i < |st.pages| + 64 && i < 64 * |st.bits| && !Used(st.bits, i)
    ensures Scanned(FirstPage(st.zones[z]), EndPage(st.zones[z]), i) && Passes(st, i, 1)
  {
    hide Used, RunTest, Scanned, Eligible, ZoneOk, PageOk;
    EligibleZone(st, z);
    BehindScanned(FirstPage(st.zones[z]), |st.pages|, i);
    RunTestExact(st.bits, i, 1);
  }

  // ---------- NULL with a free page ----------

  /** With no leaking zone the same calls lead to a state in which NULL is returned although the
      zone has a free page. */
  lemma NullReachable(st: State, z: nat, p: nat) returns (states: seq<State>, events: seq<Event>)
    requires Inv(st) && Guarded(st) && z < |st.zones| && FirstPage(st.zones[z]) <= p < EndPage(st.zones[z])
    requires p % 64 == 0 && p + 64 < |st.pages| && !Used(st.bits, p)
    ensures History(states, events) && states[0] == st && NoLeaks(states, events, |events|)
    ensures NotFound(states[|events|], z, z, 1)
    ensures Eligible(states[|events|], z, 1) && Offers(states[|events|], z, 1, p)
  {
    hide Inv, Used, RunTest, Scanned, Leaks;
    states, events := FillAllBut(st, z, p);
    var fin := states[|events|];
    ShrinksGuarded(st, fin);
    forall t: nat | Scanned(FirstPage(fin.zones[z]), EndPage(fin.zones[z]), t)
      ensures !Passes(fin, t, 1)
    {
      if Passes(fin, t, 1) && t >= |st.pages| {
        EscapeLeaks(fin, z, t, 1);
      }
    }
  }

  // ---------- both after boot ----------

  lemma ExampleBoot(after0: bv64, after1: bv64)
    ensures BootMap(EXAMPLE_MAP, EXAMPLE_IMAGE)
    ensures var st := Booted(EXAMPLE_MAP, EXAMPLE_IMAGE, after0, after1);
            Inv(st) && |st.pages| == 40960 && |st.zones| == 1 && |st.bits| == 642
            && FirstPage(st.zones[0]) == 8192 && EndPage(st.zones[0]) == 40960 && !Used(st.bits, 8896)
  {
    hide Inv, Booted, BootMap, HoldsPage, Used, ReservedFrom, ReservedTo, TotalPages;
    ExampleMap();
    ExampleZone(after0, after1);
    BootedInv(EXAMPLE_MAP, EXAMPLE_IMAGE, after0, after1);
    ReserveEffect(EXAMPLE_MAP, EXAMPLE_IMAGE, after0, after1);
    ExampleHeld(8896);
  }

  /** From the example boot, whenever memory behind the bitmap has a clear bit among the bits 1
      to 63, calls of page_init lead to a request for one page that is given a page behind the
      end of memory. */
  lemma LeakExample(after0: bv64, after1: bv64, k: nat)
    returns (states: seq<State>, events: seq<Event>, t: nat)
    requires 1 <= k < 64 && !Words.Bit(after0, k)
    ensures BootMap(EXAMPLE_MAP, EXAMPLE_IMAGE)
    ensures History(states, events) && states[0] == Booted(EXAMPLE_MAP, EXAMPLE_IMAGE, after0, after1)
    ensures NoLeaks(states, events, |events|) && RequestLeaks(states[|events|], 0, 0, 1)
    ensures Found(states[|events|], 0, 0, 1, 0, t) && t >= TotalPages(EXAMPLE_MAP)
  {
    hide Inv, Booted, BootMap, Used, Words.Bit, Found, RequestLeaks, History, TotalPages;
    ExampleMap();
    ExampleBoot(after0, after1);
    BootedAfter(EXAMPLE_MAP, EXAMPLE_IMAGE, after0, after1, 40960 + k);
    states, events, t := LeakReachable(Booted(EXAMPLE_MAP, EXAMPLE_IMAGE, after0, after1), 0, 8896, 40960 + k);
  }

  /** From the same boot with all ones behind the bitmap calls of page_init lead to a NULL for a
      request for one page although page 8896 is free. */
  lemma NullExample(after1: bv64) returns (states: seq<State>, events: seq<Event>)
    ensures BootMap(EXAMPLE_MAP, EXAMPLE_IMAGE)
    ensures History(states, events) && states[0] == Booted(EXAMPLE_MAP, EXAMPLE_IMAGE, ALL_ONES, after1)
    ensures NotFound(states[|events|], 0, 0, 1)
    ensures Eligible(states[|events|], 0, 1) && Offers(states[|events|], 0, 1, 8896)
  {
    hide Inv, Booted, BootMap, Used, Guarded, NotFound, Offers, Eligible, History, TotalPages;
    ExampleBoot(ALL_ONES, after1);
    BootedGuard(EXAMPLE_MAP, EXAMPLE_IMAGE, ALL_ONES, after1);
    states, events := NullReachable(Booted(EXAMPLE_MAP, EXAMPLE_IMAGE, ALL_ONES, after1), 0, 8896);
  }
}
