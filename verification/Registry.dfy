/** The registry of live read views and the reclaim floor it gives. */
module Registry {
  import opened Timestamps

  /** The smallest pinned timestamp, `MAX` when nothing is pinned. */
  ghost predicate IsOldest(slots: map<nat, Ts>, floor: Ts) {
    if slots == map[] then floor == MAX
    else (exists t :: t in slots && slots[t] == floor) && forall t :: t in slots ==> floor.Le(slots[t])
  }

  class ReadViewRegistry {
    var slots: map<nat, Ts>

    constructor ()
      ensures slots == map[]
    {
      slots := map[];
    }

    method Register(txn: nat, readTs: Ts)
      modifies this
      ensures slots == old(slots)[txn := readTs]
    {
      slots := slots[txn := readTs];
    }

    /** Raise a slot from its conservative floor; an absent slot stays absent. */
    method AttachAndRefine(txn: nat, readTs: Ts)
      modifies this
      ensures slots == if txn in old(slots) then old(slots)[txn := readTs] else old(slots)
    {
      if txn in slots { slots := slots[txn := readTs]; }
    }

    method Unregister(txn: nat)
      modifies this
      ensures slots == old(slots) - {txn}
    {
      slots := slots - {txn};
    }

    method OldestRequired() returns (floor: Ts)
      ensures IsOldest(slots, floor)
    {
      if slots == map[] { return MAX; }
      var left := slots.Keys;
      var first :| first in left;
      floor, left := slots[first], left - {first};
      while left != {}
        invariant left <= slots.Keys
        invariant exists t :: t in slots && slots[t] == floor
        invariant forall t :: t in slots && t !in left ==> floor.Le(slots[t])
        decreases |left|
      {
        var t :| t in left;
        left := left - {t};
        if slots[t].Lt(floor) { floor := slots[t]; }
      }
    }
  }
}
