/** Pages that wait for a checkpoint, and dropped trees' pages that wait for their last reader too. */
module DeferredFree {
  import opened Timestamps
  import opened Options
  import opened Registry

  datatype Kind = OverflowDeferredFree | RetiredTree4k | RetiredTree32k

  datatype Entry = Entry(kind: Kind, page: nat, enqueueFence: nat, readerFence: Ts) {
    predicate Retired() { !kind.OverflowDeferredFree? }
  }

  /** `slots` are the registered views; `None` when no registry is wired up. */
  datatype Event = Push(e: Entry) | Drain(fence: nat) | DrainRetired(fence: nat, slots: Option<map<nat, Ts>>)

  /** When an entry of the drained segment may go. */
  predicate Leaves(e: Entry, event: Event) {
    match event
    case Push(_) => false
    case Drain(fence) => e.enqueueFence < fence
    case DrainRetired(fence, slots) =>
      e.enqueueFence < fence && slots.Some? && forall t :: t in slots.value ==> e.readerFence.Le(slots.value[t])
  }

  /** The entries that leave, or those that stay, in their order. */
  function Select(s: seq<Entry>, event: Event, leaving: bool): seq<Entry> {
    if s == [] then []
    else
      var before, e := Select(s[..|s| - 1], event, leaving), s[|s| - 1];
      if Leaves(e, event) == leaving then before + [e] else before
  }

  class PageLifetimeQueue {
    var overflow: seq<Entry>
    var retired: seq<Entry>

    constructor ()
      ensures overflow == [] && retired == []
    {
      overflow, retired := [], [];
    }

    method PushEntry(e: Entry)
      modifies this
      ensures overflow == if e.Retired() then old(overflow) else old(overflow) + [e]
      ensures retired == if e.Retired() then old(retired) + [e] else old(retired)
    {
      match e.kind
      case OverflowDeferredFree => overflow := overflow + [e];
      case RetiredTree4k => retired := retired + [e];
      case RetiredTree32k => retired := retired + [e];
    }

    method TakeEligible(fence: nat) returns (eligible: seq<Entry>)
      modifies `overflow
      ensures eligible == Select(old(overflow), Drain(fence), true)
      ensures overflow == Select(old(overflow), Drain(fence), false)
    {
      eligible := [];
      var kept: seq<Entry> := [];
      for i := 0 to |overflow|
        invariant overflow == old(overflow)
        invariant eligible == Select(overflow[..i], Drain(fence), true)
        invariant kept == Select(overflow[..i], Drain(fence), false)
      {
        var e := overflow[i];
        assert overflow[..i + 1][..i] == overflow[..i];
        if e.enqueueFence < fence { eligible := eligible + [e]; } else { kept := kept + [e]; }
      }
      assert overflow[..|overflow|] == overflow;
      overflow := kept;
    }

    /** The floor is asked for at most once, and only when some entry passes its checkpoint fence. */
    method TakeEligibleRetired(fence: nat, registry: ReadViewRegistry?) returns (eligible: seq<Entry>)
      requires forall i :: 0 <= i < |retired| ==> retired[i].readerFence.Le(MAX)
      modifies `retired
      ensures var event := DrainRetired(fence, if registry == null then None else Some(registry.slots));
        eligible == Select(old(retired), event, true) && retired == Select(old(retired), event, false)
    {
      eligible := [];
      ghost var event := DrainRetired(fence, if registry == null then None else Some(registry.slots));
      var kept: seq<Entry> := [];
      var asked, floor: Option<Ts> := false, None;
      for i := 0 to |retired|
        invariant retired == old(retired)
        invariant eligible == Select(retired[..i], event, true)
        invariant kept == Select(retired[..i], event, false)
        invariant floor.Some? <==> asked && registry != null
        invariant floor.Some? ==> IsOldest(registry.slots, floor.value)
      {
        var e := retired[i];
        assert retired[..i + 1][..i] == retired[..i];
        var release := e.enqueueFence < fence;
        if release {
          if !asked {
            asked := true;
            if registry != null {
              var oldest := registry.OldestRequired();
              floor := Some(oldest);
            }
          }
          release := floor.Some? && e.readerFence.Le(floor.value);
          if floor.Some? { FloorReleases(e.readerFence, registry.slots, floor.value); }
        }
        if release { eligible := eligible + [e]; } else { kept := kept + [e]; }
      }
      assert retired[..|retired|] == retired;
      retired := kept;
    }
  }

  /** Comparing with the floor is comparing with every registered view. */
  lemma FloorReleases(fence: Ts, slots: map<nat, Ts>, floor: Ts)
    requires IsOldest(slots, floor) && fence.Le(MAX)
    ensures fence.Le(floor) <==> forall t :: t in slots ==> fence.Le(slots[t])
  {
  }

  // ---------------------------------------------------------------------------
  // Whole runs
  // ---------------------------------------------------------------------------

  datatype Queue = Queue(overflow: seq<Entry>, retired: seq<Entry>)

  function After(q: Queue, event: Event): Queue {
    match event
    case Push(e) => if e.Retired() then q.(retired := q.retired + [e]) else q.(overflow := q.overflow + [e])
    case Drain(_) => q.(overflow := Select(q.overflow, event, false))
    case DrainRetired(_, _) => q.(retired := Select(q.retired, event, false))
  }

  function Drained(q: Queue, event: Event): seq<Entry> {
    match event
    case Push(_) => []
    case Drain(_) => Select(q.overflow, event, true)
    case DrainRetired(_, _) => Select(q.retired, event, true)
  }

  /** How often `e` waits in the queue. */
  function Waiting(q: Queue, e: Entry): nat { multiset(q.overflow)[e] + multiset(q.retired)[e] }

  lemma {:induction false} SelectCounts(s: seq<Entry>, event: Event, leaving: bool, e: Entry)
    ensures multiset(Select(s, event, leaving))[e] == if Leaves(e, event) == leaving then multiset(s)[e] else 0
  {
    if s != [] {
      SelectCounts(s[..|s| - 1], event, leaving, e);
      assert s == s[..|s| - 1] + [s[|s| - 1]];
    }
  }

  function PushedBy(event: Event, e: Entry): nat { if event == Push(e) then 1 else 0 }

  /** Every copy of an entry waits in the segment of its kind. */
  predicate InPlace(q: Queue, e: Entry) {
    if e.Retired() then multiset(q.overflow)[e] == 0 else multiset(q.retired)[e] == 0
  }

  /** Which entries an event lets go: of its segment, those past their fences. */
  predicate Due(e: Entry, event: Event) { Leaves(e, event) && (event.DrainRetired? <==> e.Retired()) }

  /** One event neither loses nor invents an entry, and lets all copies go or none. */
  lemma EventConserves(q: Queue, event: Event, e: Entry)
    requires InPlace(q, e)
    ensures InPlace(After(q, event), e)
    ensures Waiting(After(q, event), e) + multiset(Drained(q, event))[e] == Waiting(q, e) + PushedBy(event, e)
    ensures multiset(Drained(q, event))[e] == if Due(e, event) then Waiting(q, e) else 0
  {
    match event {
      case Push(_) =>
      case Drain(_) =>
        SelectCounts(q.overflow, event, true, e);
        SelectCounts(q.overflow, event, false, e);
      case DrainRetired(_, _) =>
        SelectCounts(q.retired, event, true, e);
        SelectCounts(q.retired, event, false, e);
    }
  }

  function QueueAfter(q: Queue, events: seq<Event>): Queue {
    if events == [] then q else After(QueueAfter(q, events[..|events| - 1]), events[|events| - 1])
  }

  function TotalDrained(q: Queue, events: seq<Event>, e: Entry): nat {
    if events == [] then 0
    else
      var before := events[..|events| - 1];
      TotalDrained(q, before, e) + multiset(Drained(QueueAfter(q, before), events[|events| - 1]))[e]
  }

  function TotalPushed(events: seq<Event>, e: Entry): nat {
    if events == [] then 0 else TotalPushed(events[..|events| - 1], e) + PushedBy(events[|events| - 1], e)
  }

  /**
   Over every run an entry is still queued or was drained exactly as often as it was pushed. It
   leaves only under a strictly later checkpoint fence, and a dropped tree's page only
   while no registered view is below its reader fence.
   */
  lemma {:induction false} RunConserves(q: Queue, events: seq<Event>, e: Entry)
    requires InPlace(q, e)
    ensures InPlace(QueueAfter(q, events), e)
    ensures Waiting(QueueAfter(q, events), e) + TotalDrained(q, events, e) == Waiting(q, e) + TotalPushed(events, e)
    ensures TotalDrained(q, events, e) > 0 ==> exists i :: 0 <= i < |events| && Due(e, events[i])
  {
    if events != [] {
      var n := |events| - 1;
      var before := events[..n];
      RunConserves(q, before, e);
      EventConserves(QueueAfter(q, before), events[n], e);
      if TotalDrained(q, before, e) > 0 {
        var i :| 0 <= i < |before| && Due(e, before[i]);
        assert events[i] == before[i];
      }
    }
  }
}
