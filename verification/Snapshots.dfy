/** Readers, writers and the reclaimer over the chains of all keys: every run keeps snapshots repeatable. */
module Snapshots {
  import opened Timestamps
  import opened Options
  import opened Registry
  import opened VersionChains

  /** `hist` and `horizon` only record what happened; the program holds the chain. */
  datatype Key = Key(chain: seq<Entry>, hist: seq<Write>, pending: Option<nat>, horizon: Ts)

  /** Registry slots, and the read timestamps of readers that have loaded the published epoch. */
  datatype World = World(
    frontier: Ts, visible: Ts, keys: seq<Key>, slots: map<nat, Ts>, readAt: map<nat, Ts>, nextTxn: nat)

  datatype Step =
    | BeginWrite
    | Install(k: nat, txn: nat, ts: Ts, data: nat)
    | Commit(k: nat)
    | Abort(k: nat)
    | Advance(frontier: Ts)
    | Publish(visible: Ts)
    | Register
    | Load(txn: nat)
    | Refine(txn: nat)
    | Unregister(txn: nat)
    | Reclaim(k: nat, floor: Ts)

  function PendingTs(key: Key): Ts {
    if NewestLive(key.hist).Some? then NewestLive(key.hist).value.0 else MAX
  }

  /**
   Commit timestamps are issued above the frontier, an abort comes before the frontier reaches
   it, and a version is installed only over a settled head. Without any registered reader a
   chain with a live entry is not reclaimed.
   */
  ghost predicate Enabled(w: World, s: Step) {
    match s
    case BeginWrite => true
    case Install(k, txn, ts, _) =>
      && k < |w.keys| && txn < w.nextTxn && txn !in w.slots
      && w.frontier.Lt(ts) && ts.Lt(MAX) && (w.keys[k].hist != [] ==> w.keys[k].hist[0].ts.Lt(ts))
      && var head := LiveHead(w.keys[k].chain); head.Some? ==> head.value.state.Committed?
    case Commit(k) => k < |w.keys| && w.keys[k].pending.Some?
    case Abort(k) => k < |w.keys| && w.keys[k].pending.Some? && w.frontier.Lt(PendingTs(w.keys[k]))
    case Advance(frontier) => w.frontier.Le(frontier) && frontier.Lt(MAX)
    case Publish(visible) => w.visible.Le(visible) && visible.Le(w.frontier)
    case Register => true
    case Load(txn) => txn in w.slots && txn !in w.readAt
    case Refine(txn) => txn in w.slots && txn in w.readAt
    case Unregister(txn) => txn in w.slots
    case Reclaim(k, floor) =>
      && k < |w.keys| && IsOldest(w.slots, floor)
      && (w.slots != map[] || LiveHead(w.keys[k].chain).None?)
  }

  function WithKey(w: World, k: nat, key: Key): World
    requires k < |w.keys|
  {
    w.(keys := w.keys[k := key])
  }

  ghost function Apply(w: World, s: Step): World
    requires Enabled(w, s)
  {
    match s
    case BeginWrite => w.(nextTxn := w.nextTxn + 1)
    case Install(k, txn, ts, data) =>
      var key := w.keys[k];
      WithKey(w, k, key.(chain := InstallOn(key.chain, txn, ts, data), hist := [Write(ts, data, true)] + key.hist,
                         pending := Some(txn)))
    case Commit(k) =>
      var key := w.keys[k];
      WithKey(w, k, key.(chain := FlipCommitted(key.chain, key.pending.value, PendingTs(key)), pending := None))
    case Abort(k) =>
      var key := w.keys[k];
      WithKey(w, k, key.(chain := FlipAborted(key.chain, key.pending.value), hist := Abandon(key.hist), pending := None))
    case Advance(frontier) => w.(frontier := frontier)
    case Publish(visible) => w.(visible := visible)
    case Register => w.(slots := w.slots[w.nextTxn := ZERO], nextTxn := w.nextTxn + 1)
    case Load(txn) => w.(readAt := w.readAt[txn := w.visible])
    case Refine(txn) => w.(slots := w.slots[txn := w.readAt[txn]])
    case Unregister(txn) => w.(slots := w.slots - {txn}, readAt := w.readAt - {txn})
    case Reclaim(k, floor) =>
      var key := w.keys[k];
      WithKey(w, k, key.(chain := Prune(key.chain, floor),
                         horizon := if w.slots == map[] then key.horizon else key.horizon.Max(floor)))
  }

  // ---------------------------------------------------------------------------
  // Invariant
  // ---------------------------------------------------------------------------

  predicate KeyOk(key: Key, visible: Ts) {
    && Couples(key.chain, key.hist, MAX, key.horizon)
    && Descending(key.hist, MAX)
    && OnlyPending(key.chain, key.hist, key.pending)
    && key.horizon.Le(visible)
  }

  ghost predicate ReaderOk(w: World, t: nat)
    requires t in w.slots
  {
    && t < w.nextTxn
    && (if t in w.readAt then w.readAt[t].Le(w.visible) && w.slots[t] in {ZERO, w.readAt[t]} else w.slots[t] == ZERO)
    && forall k :: 0 <= k < |w.keys| ==> w.keys[k].pending != Some(t) && (t in w.readAt ==> w.keys[k].horizon.Le(w.readAt[t]))
  }

  ghost predicate Inv(w: World) {
    && w.visible.Le(w.frontier) && w.frontier.Lt(MAX)
    && w.readAt.Keys <= w.slots.Keys
    && (forall k :: 0 <= k < |w.keys| ==> KeyOk(w.keys[k], w.visible))
    && (forall k :: 0 <= k < |w.keys| && w.keys[k].pending.Some? ==> w.keys[k].pending.value < w.nextTxn)
    && forall t :: t in w.slots ==> ReaderOk(w, t)
  }

  lemma KeyStep(key: Key, visible: Ts, frontier: Ts, txn: nat, ts: Ts, data: nat)
    requires KeyOk(key, visible) && visible.Le(frontier) && frontier.Lt(MAX)
    requires frontier.Lt(ts) && ts.Lt(MAX) && (key.hist != [] ==> key.hist[0].ts.Lt(ts))
    requires LiveHead(key.chain).Some? ==> LiveHead(key.chain).value.state.Committed?
    ensures KeyOk(key.(chain := InstallOn(key.chain, txn, ts, data), hist := [Write(ts, data, true)] + key.hist,
                       pending := Some(txn)), visible)
  {
    SettledHead(key.chain, key.hist, key.horizon, key.pending);
    InstallCouples(key.chain, key.hist, key.horizon, txn, ts, data);
    assert ([Write(ts, data, true)] + key.hist)[1..] == key.hist;
  }

  lemma {:induction false} AbandonDescends(hist: seq<Write>, below: Ts)
    requires Descending(hist, below)
    ensures Descending(Abandon(hist), below)
  {
    if hist != [] && !hist[0].live { AbandonDescends(hist[1..], hist[0].ts); }
  }

  lemma {:induction false} PendingHasWrite(chain: seq<Entry>, hist: seq<Write>, txn: nat)
    requires OnlyPending(chain, hist, Some(txn))
    ensures NewestLive(hist).Some?
    decreases |hist|
  {
    if !hist[0].live { PendingHasWrite(if IsNewestOf(chain, hist[0]) then chain[1..] else chain, hist[1..], txn); }
  }

  lemma FlipStep(key: Key, visible: Ts, frontier: Ts)
    requires KeyOk(key, visible) && visible.Le(frontier) && key.pending.Some?
    ensures KeyOk(key.(chain := FlipCommitted(key.chain, key.pending.value, PendingTs(key)), pending := None), visible)
    ensures frontier.Lt(PendingTs(key)) ==>
      KeyOk(key.(chain := FlipAborted(key.chain, key.pending.value), hist := Abandon(key.hist), pending := None), visible)
  {
    var txn := key.pending.value;
    PendingHasWrite(key.chain, key.hist, txn);
    CommitCouples(key.chain, key.hist, key.horizon, txn, PendingTs(key));
    if frontier.Lt(PendingTs(key)) {
      AbortCouples(key.chain, key.hist, key.horizon, txn);
      AbandonDescends(key.hist, MAX);
    }
  }

  lemma {:induction false} AllDead(chain: seq<Entry>, hist: seq<Write>, horizon: Ts, f: Ts, g: Ts)
    requires Couples(chain, hist, MAX, horizon) && horizon.Lt(MAX) && LiveHead(chain).None?
    ensures Prune(chain, f) == Prune(chain, g)
    decreases |hist|
  {
    if hist != [] { AllDead(if IsNewestOf(chain, hist[0]) then chain[1..] else chain, hist[1..], horizon, f, g); }
  }

  lemma ReclaimStep(key: Key, visible: Ts, floor: Ts, idle: bool)
    requires KeyOk(key, visible) && visible.Lt(MAX)
    requires if idle then LiveHead(key.chain).None? else floor.Le(visible)
    ensures KeyOk(key.(chain := Prune(key.chain, floor), horizon := if idle then key.horizon else key.horizon.Max(floor)), visible)
  {
    if idle {
      AllDead(key.chain, key.hist, key.horizon, floor, key.horizon);
      PruneCouples(key.chain, key.hist, MAX, key.horizon, key.horizon, MAX, key.pending);
    } else {
      PruneCouples(key.chain, key.hist, MAX, key.horizon, floor, MAX, key.pending);
    }
  }

  predicate OnKey(s: Step) { s.Install? || s.Commit? || s.Abort? || s.Reclaim? }

  /** The floor is at or below every loaded read timestamp and the published one. */
  lemma FloorIsSafe(w: World, floor: Ts)
    requires Inv(w) && IsOldest(w.slots, floor) && w.slots != map[]
    ensures floor.Le(w.visible) && forall t :: t in w.readAt ==> floor.Le(w.readAt[t])
  {
    forall t | t in w.readAt ensures floor.Le(w.readAt[t]) {
      assert t in w.slots && ReaderOk(w, t);
    }
    var t :| t in w.slots && w.slots[t] == floor;
    assert ReaderOk(w, t);
  }

  lemma KeyStepInv(w: World, s: Step)
    requires Inv(w) && Enabled(w, s) && OnKey(s)
    ensures KeyOk(Apply(w, s).keys[s.k], w.visible)
    ensures forall t :: t in w.readAt ==> Apply(w, s).keys[s.k].horizon.Le(w.readAt[t])
  {
    var key := w.keys[s.k];
    assert KeyOk(key, w.visible);
    forall t | t in w.readAt ensures key.horizon.Le(w.readAt[t]) { assert ReaderOk(w, t); }
    match s {
      case Install(k, txn, ts, data) => KeyStep(key, w.visible, w.frontier, txn, ts, data);
      case Commit(k) => FlipStep(key, w.visible, w.frontier);
      case Abort(k) => FlipStep(key, w.visible, w.frontier);
      case Reclaim(k, floor) =>
        if w.slots != map[] { FloorIsSafe(w, floor); }
        ReclaimStep(key, w.visible, floor, w.slots == map[]);
    }
  }

  lemma ReadersKept(w: World, s: Step)
    requires Inv(w) && Enabled(w, s) && OnKey(s)
    ensures forall t :: t in w.slots ==> ReaderOk(Apply(w, s), t)
  {
    var v := Apply(w, s);
    KeyStepInv(w, s);
    forall t | t in w.slots ensures ReaderOk(v, t) {
      assert ReaderOk(w, t);
    }
  }

  lemma StepInv(w: World, s: Step)
    requires Inv(w) && Enabled(w, s)
    ensures Inv(Apply(w, s))
  {
    var v := Apply(w, s);
    if OnKey(s) {
      KeyStepInv(w, s);
      ReadersKept(w, s);
    } else {
      forall k | 0 <= k < |w.keys| ensures KeyOk(v.keys[k], v.visible) { assert KeyOk(w.keys[k], w.visible); }
      ViewStep(w, s);
    }
  }

  lemma ViewStep(w: World, s: Step)
    requires Inv(w) && Enabled(w, s) && !OnKey(s)
    ensures forall t :: t in Apply(w, s).slots ==> ReaderOk(Apply(w, s), t)
  {
    var v := Apply(w, s);
    forall t | t in v.slots ensures ReaderOk(v, t) {
      if t in w.slots {
        assert ReaderOk(w, t);
        if s.Load? {
          forall k | 0 <= k < |w.keys| ensures w.keys[k].horizon.Le(w.visible) { assert KeyOk(w.keys[k], w.visible); }
        }
      }
    }
  }

  ghost predicate Run(w: World, steps: seq<Step>, v: World)
    decreases |steps|
  {
    if steps == [] then w == v else Enabled(w, steps[0]) && Run(Apply(w, steps[0]), steps[1..], v)
  }

  /** A database just opened: nothing installed, nobody reading. */
  ghost predicate Init(w: World) {
    && w.visible.Le(w.frontier) && w.frontier.Lt(MAX) && w.slots == map[] && w.readAt == map[]
    && forall k :: 0 <= k < |w.keys| ==> w.keys[k] == Key([], [], None, ZERO)
  }

  lemma {:induction false} RunInv(w: World, steps: seq<Step>, v: World)
    requires Inv(w) && Run(w, steps, v)
    ensures Inv(v) && |v.keys| == |w.keys|
    decreases |steps|
  {
    if steps != [] {
      StepInv(w, steps[0]);
      RunInv(Apply(w, steps[0]), steps[1..], v);
    }
  }

  // ---------------------------------------------------------------------------
  // Main results
  // ---------------------------------------------------------------------------

  /** What the view of `t` finds for key `k`. */
  function Sees(w: World, t: nat, k: nat): Option<(Ts, nat)>
    requires t in w.readAt && k < |w.keys|
  {
    VisibleAt(w.keys[k].chain, Reader(t, w.readAt[t], w.frontier))
  }

  lemma SeesLatest(w: World, t: nat, k: nat)
    requires Inv(w) && t in w.readAt && k < |w.keys|
    ensures Sees(w, t, k) == Latest(w.keys[k].hist, w.readAt[t])
  {
    var key := w.keys[k];
    assert KeyOk(key, w.visible) && ReaderOk(w, t);
    PendingIsOthers(key.chain, key.hist, MAX, key.horizon, key.pending, t);
    ReadsLatest(key.chain, key.hist, MAX, key.horizon, Reader(t, w.readAt[t], w.frontier));
  }

  /**
   In every reachable state every registered view reads, for every key, the newest live write
   at or before its timestamp, out of all writes ever installed.
   */
  lemma SnapshotIsLatestWrite(w: World, steps: seq<Step>, v: World, t: nat, k: nat)
    requires Init(w) && Run(w, steps, v) && t in v.readAt && k < |v.keys|
    ensures Sees(v, t, k) == Latest(v.keys[k].hist, v.readAt[t])
  {
    InitInv(w);
    RunInv(w, steps, v);
    SeesLatest(v, t, k);
  }

  lemma {:induction false} AbandonAbove(hist: seq<Write>, ts: Ts)
    requires NewestLive(hist).Some? ==> ts.Lt(NewestLive(hist).value.0)
    ensures Latest(Abandon(hist), ts) == Latest(hist, ts)
  {
    if hist != [] && !hist[0].live { AbandonAbove(hist[1..], ts); }
  }

  /** Writes at or below the frontier are settled. */
  lemma StepKeepsLatest(w: World, s: Step, k: nat, ts: Ts)
    requires Inv(w) && Enabled(w, s) && k < |w.keys| && ts.Le(w.frontier)
    ensures Latest(Apply(w, s).keys[k].hist, ts) == Latest(w.keys[k].hist, ts) && ts.Le(Apply(w, s).frontier)
  {
    if s.Install? && s.k == k {
      assert Apply(w, s).keys[k].hist[1..] == w.keys[k].hist;
    } else if s.Abort? && s.k == k {
      AbandonAbove(w.keys[k].hist, ts);
    }
  }

  lemma {:induction false} GoneStaysGone(w: World, steps: seq<Step>, v: World, t: nat)
    requires Inv(w) && Run(w, steps, v) && t < w.nextTxn && t !in w.slots
    ensures t !in v.slots
    decreases |steps|
  {
    if steps != [] {
      StepInv(w, steps[0]);
      GoneStaysGone(Apply(w, steps[0]), steps[1..], v, t);
    }
  }

  /** A view that is open at both ends of a run is open after its first step, with the same timestamp. */
  lemma StaysOpen(w: World, steps: seq<Step>, v: World, t: nat)
    requires Inv(w) && Run(w, steps, v) && t in w.readAt && t in v.readAt && steps != []
    ensures var mid := Apply(w, steps[0]); t in mid.readAt && mid.readAt[t] == w.readAt[t]
  {
    var mid := Apply(w, steps[0]);
    assert ReaderOk(w, t);
    if t !in mid.readAt {
      StepInv(w, steps[0]);
      GoneStaysGone(mid, steps[1..], v, t);
      RunInv(mid, steps[1..], v);
    }
  }

  lemma {:induction false} LatestKept(w: World, steps: seq<Step>, v: World, t: nat, k: nat)
    requires Inv(w) && Run(w, steps, v) && t in w.readAt && t in v.readAt && k < |w.keys|
    ensures |v.keys| == |w.keys| && v.readAt[t] == w.readAt[t]
    ensures Latest(v.keys[k].hist, w.readAt[t]) == Latest(w.keys[k].hist, w.readAt[t])
    decreases |steps|
  {
    if steps != [] {
      var mid := Apply(w, steps[0]);
      assert ReaderOk(w, t);
      StepInv(w, steps[0]);
      StepKeepsLatest(w, steps[0], k, w.readAt[t]);
      StaysOpen(w, steps, v, t);
      LatestKept(mid, steps[1..], v, t, k);
    }
  }

  /**
   Repeatable snapshots: whatever is installed, committed, aborted, published and reclaimed
   while a view is open, it finds the same version of every key.
   */
  lemma RepeatableSnapshot(w: World, steps: seq<Step>, v: World, t: nat, k: nat)
    requires Inv(w) && Run(w, steps, v) && t in w.readAt && t in v.readAt && k < |w.keys|
    ensures |v.keys| == |w.keys| && Sees(v, t, k) == Sees(w, t, k)
  {
    RunInv(w, steps, v);
    LatestKept(w, steps, v, t, k);
    SeesLatest(w, t, k);
    SeesLatest(v, t, k);
  }

  lemma InitInv(w: World)
    requires Init(w)
    ensures Inv(w)
  {
  }

  // ---------------------------------------------------------------------------
  // Why the pin comes first and why live chains are not reclaimed without readers
  // ---------------------------------------------------------------------------

  /**
   What a reclaim would do to a reader that is not registered, at any floor: in every reachable state it
   takes the version the reader sees exactly when the reader sees one and a later live write is not above
   the floor. So a timestamp taken before the slot is not safe, and neither is the floor of no slots at all.
   */
  lemma UnregisteredLosesIff(w: World, steps: seq<Step>, v: World, k: nat, floor: Ts, t: nat, ts: Ts)
    requires Init(w) && Run(w, steps, v) && k < |v.keys| && v.keys[k].pending != Some(t)
    requires v.keys[k].horizon.Le(ts) && ts.Le(v.frontier)
    ensures var key, r := v.keys[k], Reader(t, ts, v.frontier);
      && (VisibleAt(Prune(key.chain, floor), r) != VisibleAt(key.chain, r) <==>
            Latest(key.hist, ts).Some? && Replaced(key.hist, ts, floor))
      && (IsOldest(map[], floor) ==> (Replaced(key.hist, ts, floor) <==> LiveAfter(key.hist, ts)))
  {
    InitInv(w);
    RunInv(w, steps, v);
    var key, r := v.keys[k], Reader(t, ts, v.frontier);
    assert KeyOk(key, v.visible);
    PendingIsOthers(key.chain, key.hist, MAX, key.horizon, key.pending, t);
    ReadsLatest(key.chain, key.hist, MAX, key.horizon, r);
    PruneVisibleIff(key.chain, key.hist, MAX, key.horizon, floor, r);
    SeenEndsIff(key.chain, key.hist, MAX, key.horizon, floor, r);
    VisibleIsEntry(key.chain, r);
    VisibleIsEntry(Prune(key.chain, floor), r);
    DescendingBelow(key.hist, MAX);
  }

  predicate LiveAfter(hist: seq<Write>, ts: Ts) {
    exists i :: 0 <= i < |hist| && hist[i].live && ts.Lt(hist[i].ts)
  }
}
