/** Safety over sequences of calls: what alloc_pages, claiming the run it tested, and page_init
    guarantee to each other. */
module Histories {
  import opened Prelude
  import opened Bitmap
  import opened Memory
  import opened Allocation
  import opened Confinement

  /** One call: alloc_pages over zones lo..hi with what it returned, or page_init. */
  datatype Event =
    | Alloc(lo: int, hi: int, n: nat, flags: bv64, run: Option<nat>)
    | Init(page: nat, flags: bv64)

  /** Callers ask for 1 to 64 pages, pass flags, and call page_init on available memory. */
  predicate Allowed(st: State, e: Event) {
    e.flags != 0
    && match e
       case Alloc(_, _, n, _, _) => 1 <= n <= 64
       case Init(page, _) => InZone(st, page)
  }

  /** A claim that leaves the descriptors of the zones may leave any state. */
  ghost predicate Step(st: State, e: Event, st': State)
    requires Allowed(st, e)
  {
    match e
    case Alloc(lo, hi, n, flags, None) =>
      NotFound(st, lo, hi, n) && st' == st
    case Alloc(lo, hi, n, flags, Some(t)) =>
      (exists z :: Found(st, lo, hi, n, z, t))
      && ((forall i :: t <= i < t + n ==> Touchable(st, i)) ==> st' == ClaimRun(st, t, n, flags))
    case Init(page, flags) =>
      Touchable(st, page) && st' == PageInit(st, page, flags)
  }

  /** The call is a request that leaks. */
  ghost predicate Leaking(st: State, e: Event)
    requires Allowed(st, e)
  {
    e.Alloc? && RequestLeaks(st, e.lo, e.hi, e.n)
  }

  /** Page i belongs to the run that e returned. */
  predicate Returned(e: Event, i: int) {
    e.Alloc? && e.run.Some? && e.run.value <= i < e.run.value + e.n
  }

  /** Whatever a call returns was clear. */
  lemma ReturnedClear(st: State, e: Event, st': State, i: int)
    requires Inv(st) && Allowed(st, e) && Step(st, e, st') && Returned(e, i)
    ensures 0 <= i < 64 * |st.bits| && !Used(st.bits, i)
  {
    hide Inv, Used, RunTest, Scanned;
    var z :| Found(st, e.lo, e.hi, e.n, z, e.run.value);
    RunConfined(st, e.run.value, e.n);
  }

  /** A call returns a page outside available memory exactly when it leaks. */
  lemma LeakingIff(st: State, e: Event, st': State)
    requires Inv(st) && Allowed(st, e) && Step(st, e, st')
    ensures Leaking(st, e) <==> exists i :: Returned(e, i) && !InZone(st, i)
  {
    hide Inv, Used, FirstIn, Blocked, Eligible, InZone, ClaimRun, PageInit, Touchable, RequestLeaks;
    if e.Alloc? {
      if e.run.Some? {
        var z :| Found(st, e.lo, e.hi, e.n, z, e.run.value);
        RequestLeaksIff(st, e.lo, e.hi, e.n, z, e.run.value);
        assert forall i :: Returned(e, i) <==> e.run.value <= i < e.run.value + e.n;
      } else if RequestLeaks(st, e.lo, e.hi, e.n) {
        var z, t := LeakIsFound(st, e.lo, e.hi, e.n);
        SearchDetermined(st, e.lo, e.hi, e.n, z, t, z, t);
      }
    }
  }

  /** What one call that does not leak guarantees to all the others. */
  lemma StepSafe(st: State, e: Event, st': State)
    requires Inv(st) && Allowed(st, e) && Step(st, e, st') && !Leaking(st, e)
    ensures Inv(st') && Shrinks(st, st')
    ensures forall i :: InZone(st, i) ==> InZone(st', i)
    ensures forall i :: Returned(e, i) ==>
              InZone(st, i) && 0 <= i < 64 * |st.bits| && !Used(st.bits, i) && Used(st'.bits, i)
    ensures e.Alloc? ==> TotalFree(st'.zones) == TotalFree(st.zones) - if e.run.Some? then e.n else 0
  {
    hide Used, RunTest, PageOk, ZoneOk, TotalFree, ClaimRun, PageInit, Scanned, Passes, RequestLeaks, Blocked;
    match e
    case Alloc(lo, hi, n, flags, None) =>
    case Alloc(lo, hi, n, flags, Some(t)) =>
      var z :| Found(st, lo, hi, n, z, t);
      RequestLeaksIff(st, lo, hi, n, z, t);
      TestedRunContract(st, n, t, flags);
      ClaimRunShrinks(st, t, n, flags);
    case Init(page, flags) =>
      PageInitEffect(st, page, flags);
      PageInitKeepsInv(st, page, flags);
      PageInitShrinks(st, page, flags);
  }

  /** states[k] is the state before events[k]. */
  ghost predicate History(states: seq<State>, events: seq<Event>) {
    |states| == |events| + 1
    && forall k :: 0 <= k < |events| ==>
         Allowed(states[k], events[k]) && Step(states[k], events[k], states[k + 1])
  }

  /** None of the first b calls leaks. */
  ghost predicate NoLeaks(states: seq<State>, events: seq<Event>, b: nat)
    requires History(states, events) && b <= |events|
  {
    forall k :: 0 <= k < b ==> !Leaking(states[k], events[k])
  }

  /** As long as no call leaks, every state of a history satisfies the accounting invariant,
      and a page once used is never free again. */
  lemma {:induction false} HistoryInv(states: seq<State>, events: seq<Event>, a: nat, b: nat)
    requires History(states, events) && a <= b <= |events|
    requires Inv(states[0]) && NoLeaks(states, events, b)
    ensures Inv(states[a]) && Inv(states[b]) && Shrinks(states[a], states[b])
    decreases b
  {
    hide Used, Inv, Step, Allowed, Leaking;
    if b > 0 {
      HistoryInv(states, events, if a < b then a else b - 1, b - 1);
      StepSafe(states[b - 1], events[b - 1], states[b]);
    }
  }

  /** Safety of whole histories: the runs returned by two calls are disjoint when no call
      before the second one leaks. */
  lemma RunsDisjoint(states: seq<State>, events: seq<Event>, a: nat, b: nat, i: int)
    requires History(states, events) && Inv(states[0]) && a < b < |events|
    requires NoLeaks(states, events, b)
    ensures !(Returned(events[a], i) && Returned(events[b], i))
  {
    hide Used, Inv, Step, Allowed, Leaking;
    if Returned(events[a], i) && Returned(events[b], i) {
      HistoryInv(states, events, 0, a);
      StepSafe(states[a], events[a], states[a + 1]);
      HistoryInv(states, events, a + 1, b);
      ReturnedClear(states[b], events[b], states[b + 1], i);
      assert false;
    }
  }

  /** No page in use at the start is ever returned. */
  lemma ReturnedPages(states: seq<State>, events: seq<Event>, b: nat, i: int)
    requires History(states, events) && Inv(states[0]) && b < |events| && Returned(events[b], i)
    requires NoLeaks(states, events, b)
    ensures 0 <= i < 64 * |states[0].bits| && !Used(states[0].bits, i)
  {
    hide Used, Inv, Step, Allowed, Leaking;
    HistoryInv(states, events, 0, b);
    ReturnedClear(states[b], events[b], states[b + 1], i);
  }

  /** Every page the first b calls return is available memory. */
  ghost predicate ReturnsAvailable(states: seq<State>, events: seq<Event>, b: nat)
    requires History(states, events) && b <= |events|
  {
    forall k, i :: 0 <= k < b && Returned(events[k], i) ==> InZone(states[k], i)
  }

  /** The search checks no zone bound, and yet every returned page is available memory: exactly
      in the histories in which no request leaks. */
  lemma {:induction false} AvailableIff(states: seq<State>, events: seq<Event>, b: nat)
    requires History(states, events) && Inv(states[0]) && b <= |events|
    ensures ReturnsAvailable(states, events, b) <==> NoLeaks(states, events, b)
    decreases b
  {
    hide Used, Inv, Step, Allowed, Leaking, InZone;
    if b > 0 {
      AvailableIff(states, events, b - 1);
      if NoLeaks(states, events, b - 1) {
        HistoryInv(states, events, 0, b - 1);
        LeakingIff(states[b - 1], events[b - 1], states[b]);
      }
    }
  }

  /** If no zone leaks at the start, no call of any history does. */
  lemma {:induction false} GuardedHistory(states: seq<State>, events: seq<Event>, b: nat)
    requires History(states, events) && Inv(states[0]) && Guarded(states[0]) && b <= |events|
    ensures NoLeaks(states, events, b) && Inv(states[b]) && Guarded(states[b])
    decreases b
  {
    hide Used, Inv, Guarded, Step, Shrinks, RequestLeaks;
    if b > 0 {
      GuardedHistory(states, events, b - 1);
      var e := events[b - 1];
      if e.Alloc? {
        GuardedRequests(states[b - 1], e.lo, e.hi, e.n);
      }
      StepSafe(states[b - 1], e, states[b]);
      ShrinksGuarded(states[b - 1], states[b]);
    }
  }

  /** The call counts a reference to page i: it returns the page, or is a page_init of it while
      it is free or with a flag that counts sharing, bit 2 or bit 8, on either side. */
  predicate Counts(st: State, e: Event, i: nat)
    requires i < |st.pages| && i < 64 * |st.bits|
  {
    match e
    case Alloc(_, _, _, _, _) => Returned(e, i)
    case Init(page, flags) => page == i && (!Used(st.bits, i) || (st.pages[i].attribute | flags) & 0x104 != 0)
  }

  lemma StepCounts(st: State, e: Event, st': State, i: nat)
    requires Inv(st) && Allowed(st, e) && Step(st, e, st') && !Leaking(st, e) && InZone(st, i)
    ensures i < |st.pages| && i < 64 * |st.bits| && |st'.pages| == |st.pages|
    ensures st'.pages[i].refCount == st.pages[i].refCount + if Counts(st, e, i) then 1 else 0
  {
    hide Used, RunTest, PageOk, ZoneOk, TotalLinks, TotalFree, ClaimRun, PageInit, Scanned, Passes,
         RequestLeaks, Blocked;
    InZoneInBitmap(st, i);
    match e
    case Alloc(lo, hi, n, flags, None) =>
    case Alloc(lo, hi, n, flags, Some(t)) =>
      var z :| Found(st, lo, hi, n, z, t);
      RequestLeaksIff(st, lo, hi, n, z, t);
      TestedRunContract(st, n, t, flags);
      RunConfined(st, t, n);
      ClaimRunRefs(st, t, n, flags);
      if Returned(e, i) { FreeCounts(st, i); }
    case Init(page, flags) =>
      PageInitEffect(st, page, flags);
      PageInitPage(st, page, flags);
  }

  lemma InZoneInBitmap(st: State, i: int)
    requires Inv(st) && InZone(st, i)
    ensures 0 <= i < |st.pages| && i < 64 * |st.bits|
  {}

  /** How many of the first b calls count a reference to page i. */
  ghost function References(states: seq<State>, events: seq<Event>, i: nat, b: nat): nat
    requires |states| == |events| + 1 && b <= |events|
    requires forall k :: 0 <= k < b ==> i < |states[k].pages| && i < 64 * |states[k].bits|
  {
    if b == 0 then 0
    else References(states, events, i, b - 1) + if Counts(states[b - 1], events[b - 1], i) then 1 else 0
  }

  /** Over every history without leaks a page's reference count is the number of calls that
      count. */
  lemma {:induction false} ReferencesCounted(states: seq<State>, events: seq<Event>, i: nat, b: nat)
    requires History(states, events) && Inv(states[0]) && b <= |events| && NoLeaks(states, events, b)
    requires InZone(states[0], i)
    ensures forall k :: 0 <= k <= b ==> i < |states[k].pages| && i < 64 * |states[k].bits|
    ensures InZone(states[b], i)
    ensures states[b].pages[i].refCount == states[0].pages[i].refCount + References(states, events, i, b)
    decreases b
  {
    hide Inv, Step, Allowed, Leaking, InZone, Counts;
    InZoneInBitmap(states[0], i);
    if b > 0 {
      ReferencesCounted(states, events, i, b - 1);
      HistoryInv(states, events, 0, b - 1);
      StepSafe(states[b - 1], events[b - 1], states[b]);
      StepCounts(states[b - 1], events[b - 1], states[b], i);
    }
  }

  /** Pages handed out by a history of allocations alone. */
  function HandedOut(events: seq<Event>): nat {
    if events == [] then 0
    else
      var e := events[|events| - 1];
      HandedOut(events[..|events| - 1]) + if e.Alloc? && e.run.Some? then e.n else 0
  }

  /** Conservation: free pages plus pages handed out stay constant. */
  lemma {:induction false} FreeConserved(states: seq<State>, events: seq<Event>)
    requires History(states, events) && Inv(states[0]) && NoLeaks(states, events, |events|)
    requires forall k :: 0 <= k < |events| ==> events[k].Alloc?
    ensures TotalFree(states[|events|].zones) + HandedOut(events) == TotalFree(states[0].zones)
    decreases |events|
  {
    hide Used, Inv, Step, Allowed, TotalFree, Leaking;
    if events != [] {
      var m := |events| - 1;
      FreeConserved(states[..m + 1], events[..m]);
      HistoryInv(states, events, 0, m);
      StepSafe(states[m], events[m], states[m + 1]);
    }
  }
}
