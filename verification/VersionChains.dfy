/** Version chains: what a reader sees, and how installs, flips and reclaims change a chain. */
module VersionChains {
  import opened Timestamps
  import opened Options

  datatype VersionState = Pending(txn: nat) | Committed | Aborted

  /** `data` stands for the payload or the tombstone. Chains run from the newest entry to the oldest. */
  datatype Entry = Entry(start: Ts, stop: Ts, state: VersionState, data: nat) {
    predicate LiveHead() { stop == MAX && !state.Aborted? }
  }

  datatype Reader = Reader(txn: nat, readTs: Ts, frontier: Ts)

  predicate VisibleTo(e: Entry, r: Reader) {
    match e.state
    case Pending(txn) =>
      txn == r.txn || (e.start.Le(r.readTs) && r.readTs.Lt(e.stop) && e.start.Le(r.frontier))
    case Committed => e.start.Le(r.readTs) && r.readTs.Lt(e.stop)
    case Aborted => false
  }

  /** The first visible entry, by its commit timestamp and data. */
  function VisibleAt(chain: seq<Entry>, r: Reader): Option<(Ts, nat)> {
    if chain == [] then None
    else if VisibleTo(chain[0], r) then Some((chain[0].start, chain[0].data))
    else VisibleAt(chain[1..], r)
  }

  // ---------------------------------------------------------------------------
  // Changes to a chain
  // ---------------------------------------------------------------------------

  function LiveHead(chain: seq<Entry>): Option<Entry> {
    if chain == [] then None else if chain[0].LiveHead() then Some(chain[0]) else LiveHead(chain[1..])
  }

  /** End the live head's time at `ts`. */
  function Supersede(chain: seq<Entry>, ts: Ts): seq<Entry> {
    if chain == [] then []
    else if chain[0].LiveHead() then [chain[0].(stop := ts)] + chain[1..]
    else [chain[0]] + Supersede(chain[1..], ts)
  }

  function InstallOn(chain: seq<Entry>, txn: nat, ts: Ts, data: nat): seq<Entry> {
    [Entry(ts, MAX, Pending(txn), data)] + Supersede(chain, ts)
  }

  function FlipCommitted(chain: seq<Entry>, txn: nat, ts: Ts): seq<Entry> {
    if chain == [] then []
    else
      [if chain[0].state == Pending(txn) then chain[0].(start := ts, state := Committed) else chain[0]]
      + FlipCommitted(chain[1..], txn, ts)
  }

  /** The first version ended by the aborted one is live again. */
  function Restore(chain: seq<Entry>, ts: Ts): seq<Entry> {
    if chain == [] then []
    else if !chain[0].state.Aborted? && chain[0].stop == ts then [chain[0].(stop := MAX)] + chain[1..]
    else [chain[0]] + Restore(chain[1..], ts)
  }

  lemma RestoreLength(chain: seq<Entry>, ts: Ts)
    ensures |Restore(chain, ts)| == |chain|
  {
  }

  function FlipAborted(chain: seq<Entry>, txn: nat): seq<Entry>
    decreases |chain|
  {
    if chain == [] then []
    else if chain[0].state == Pending(txn) then
      RestoreLength(chain[1..], chain[0].start);
      [chain[0].(state := Aborted)] + FlipAborted(Restore(chain[1..], chain[0].start), txn)
    else [chain[0]] + FlipAborted(chain[1..], txn)
  }

  predicate Retained(e: Entry, floor: Ts) { !e.state.Aborted? && (e.stop == MAX || floor.Lt(e.stop)) }

  /** Drop aborted entries and those that ended at or below the floor. */
  function Prune(chain: seq<Entry>, floor: Ts): seq<Entry> {
    if chain == [] then []
    else (if Retained(chain[0], floor) then [chain[0]] else []) + Prune(chain[1..], floor)
  }

  // ---------------------------------------------------------------------------
  // Chains against everything ever written
  // ---------------------------------------------------------------------------

  /** A write in the order of commit timestamps, newest first; an aborted one is not `live`. */
  datatype Write = Write(ts: Ts, data: nat, live: bool)

  /** What a snapshot at `ts` means: the newest live write at or before it. */
  function Latest(hist: seq<Write>, ts: Ts): Option<(Ts, nat)> {
    if hist == [] then None
    else if hist[0].live && hist[0].ts.Le(ts) then Some((hist[0].ts, hist[0].data))
    else Latest(hist[1..], ts)
  }

  predicate Descending(hist: seq<Write>, below: Ts) {
    hist == [] || (hist[0].ts.Lt(below) && Descending(hist[1..], hist[0].ts))
  }

  predicate Fits(e: Entry, w: Write, next: Ts) {
    && e.start == w.ts && e.data == w.data
    && (e.state.Aborted? <==> !w.live)
    && (w.live ==> e.stop == next)
  }

  function NextAfter(w: Write, next: Ts): Ts { if w.live then w.ts else next }

  predicate IsNewestOf(chain: seq<Entry>, w: Write) { chain != [] && chain[0].start == w.ts }

  /**
   `chain` holds the writes `hist` except aborted ones and ones that a live write at or below
   `horizon` replaced. Each live entry ends where the next newer live write, `next` for the
   newest, begins.
   */
  predicate Couples(chain: seq<Entry>, hist: seq<Write>, next: Ts, horizon: Ts)
    decreases |hist|
  {
    if hist == [] then chain == []
    else if IsNewestOf(chain, hist[0]) then
      Fits(chain[0], hist[0], next) && Couples(chain[1..], hist[1..], NextAfter(hist[0], next), horizon)
    else
      (hist[0].live ==> next.Le(horizon)) && Couples(chain, hist[1..], NextAfter(hist[0], next), horizon)
  }

  /** Only the newest live write may still be pending, and only for `txn`; `None` allows no pending entry. */
  predicate OnlyPending(chain: seq<Entry>, hist: seq<Write>, pending: Option<nat>)
    decreases |hist|
  {
    if hist == [] then pending.None?
    else
      var rest := if IsNewestOf(chain, hist[0]) then chain[1..] else chain;
      if !hist[0].live then OnlyPending(rest, hist[1..], pending)
      else
        && (IsNewestOf(chain, hist[0]) ==> chain[0].state == (if pending.Some? then Pending(pending.value) else Committed))
        && (pending.Some? ==> IsNewestOf(chain, hist[0]))
        && OnlyPending(rest, hist[1..], None)
  }

  // ---------------------------------------------------------------------------
  // Reading
  // ---------------------------------------------------------------------------

  predicate Foreign(chain: seq<Entry>, txn: nat) {
    forall i :: 0 <= i < |chain| ==> chain[i].state != Pending(txn)
  }

  /** Between the horizon and the frontier, reading the chain gives the newest live write at or before the reader. */
  lemma {:induction false} ReadsLatest(chain: seq<Entry>, hist: seq<Write>, next: Ts, horizon: Ts, r: Reader)
    requires Couples(chain, hist, next, horizon) && Foreign(chain, r.txn)
    requires horizon.Le(r.readTs) && r.readTs.Le(r.frontier) && r.readTs.Lt(next)
    ensures VisibleAt(chain, r) == Latest(hist, r.readTs)
    decreases |hist|
  {
    if hist != [] {
      var w := hist[0];
      if IsNewestOf(chain, w) {
        if !(w.live && w.ts.Le(r.readTs)) {
          ReadsLatest(chain[1..], hist[1..], NextAfter(w, next), horizon, r);
        }
      } else {
        ReadsLatest(chain, hist[1..], NextAfter(w, next), horizon, r);
      }
    }
  }

  function NewestLive(hist: seq<Write>): Option<(Ts, nat)> {
    if hist == [] then None else if hist[0].live then Some((hist[0].ts, hist[0].data)) else NewestLive(hist[1..])
  }

  /** A transaction reads its own pending write. */
  lemma {:induction false} ReadsOwnWrite(chain: seq<Entry>, hist: seq<Write>, next: Ts, horizon: Ts, r: Reader)
    requires Couples(chain, hist, next, horizon) && OnlyPending(chain, hist, Some(r.txn))
    ensures VisibleAt(chain, r) == NewestLive(hist) != None
    decreases |hist|
  {
    if !hist[0].live {
      ReadsOwnWrite(if IsNewestOf(chain, hist[0]) then chain[1..] else chain, hist[1..], next, horizon, r);
    }
  }

  // ---------------------------------------------------------------------------
  // Installing
  // ---------------------------------------------------------------------------

  lemma {:induction false} SupersedeCouples(chain: seq<Entry>, hist: seq<Write>, horizon: Ts, ts: Ts)
    requires Couples(chain, hist, MAX, horizon) && horizon.Lt(MAX)
    ensures Couples(Supersede(chain, ts), hist, ts, horizon)
    decreases |hist|
  {
    if hist != [] {
      var w := hist[0];
      if IsNewestOf(chain, w) {
        if !w.live { SupersedeCouples(chain[1..], hist[1..], horizon, ts); }
      } else {
        SupersedeCouples(chain, hist[1..], horizon, ts);
      }
    }
  }

  lemma {:induction false} SupersedePending(chain: seq<Entry>, hist: seq<Write>, horizon: Ts, ts: Ts)
    requires Couples(chain, hist, MAX, horizon) && horizon.Lt(MAX) && OnlyPending(chain, hist, None)
    ensures OnlyPending(Supersede(chain, ts), hist, None)
    decreases |hist|
  {
    if hist != [] {
      var w := hist[0];
      if IsNewestOf(chain, w) {
        if !w.live { SupersedePending(chain[1..], hist[1..], horizon, ts); }
      } else {
        SupersedePending(chain, hist[1..], horizon, ts);
      }
    }
  }

  /** A new pending version on top of a settled chain. */
  lemma InstallCouples(chain: seq<Entry>, hist: seq<Write>, horizon: Ts, txn: nat, ts: Ts, data: nat)
    requires Couples(chain, hist, MAX, horizon) && OnlyPending(chain, hist, None) && horizon.Lt(MAX)
    ensures var chain', hist' := InstallOn(chain, txn, ts, data), [Write(ts, data, true)] + hist;
      Couples(chain', hist', MAX, horizon) && OnlyPending(chain', hist', Some(txn))
  {
    SupersedeCouples(chain, hist, horizon, ts);
    SupersedePending(chain, hist, horizon, ts);
    var chain' := InstallOn(chain, txn, ts, data);
    assert chain'[1..] == Supersede(chain, ts);
    assert ([Write(ts, data, true)] + hist)[1..] == hist;
  }

  /** Without a foreign pending head, as the conflict check demands, nothing in the chain is pending. */
  lemma {:induction false} SettledHead(chain: seq<Entry>, hist: seq<Write>, horizon: Ts, pending: Option<nat>)
    requires Couples(chain, hist, MAX, horizon) && horizon.Lt(MAX) && OnlyPending(chain, hist, pending)
    requires LiveHead(chain).Some? ==> LiveHead(chain).value.state.Committed?
    ensures pending.None?
    decreases |hist|
  {
    if hist != [] {
      var w := hist[0];
      if IsNewestOf(chain, w) {
        if !w.live { SettledHead(chain[1..], hist[1..], horizon, pending); }
      } else {
        SettledHead(chain, hist[1..], horizon, pending);
      }
    }
  }

  // ---------------------------------------------------------------------------
  // Flipping
  // ---------------------------------------------------------------------------

  lemma {:induction false} PendingIsOthers(
    chain: seq<Entry>, hist: seq<Write>, next: Ts, horizon: Ts, pending: Option<nat>, txn: nat)
    requires Couples(chain, hist, next, horizon) && OnlyPending(chain, hist, pending) && pending != Some(txn)
    ensures Foreign(chain, txn)
    decreases |hist|
  {
    if hist != [] {
      var w := hist[0];
      var rest := if IsNewestOf(chain, w) then chain[1..] else chain;
      PendingIsOthers(rest, hist[1..], NextAfter(w, next), horizon, if w.live then None else pending, txn);
      assert IsNewestOf(chain, w) ==> forall i :: 0 < i < |chain| ==> chain[i] == chain[1..][i - 1];
    }
  }

  lemma {:induction false} FlipIdle(chain: seq<Entry>, txn: nat, ts: Ts)
    requires Foreign(chain, txn)
    ensures FlipAborted(chain, txn) == chain && FlipCommitted(chain, txn, ts) == chain
    decreases |chain|
  {
    if chain != [] { FlipIdle(chain[1..], txn, ts); }
  }

  lemma {:induction false} RestoreForeign(chain: seq<Entry>, ts: Ts, txn: nat)
    requires Foreign(chain, txn)
    ensures Foreign(Restore(chain, ts), txn)
  {
    if chain != [] { RestoreForeign(chain[1..], ts, txn); }
  }

  /** With the version above it gone, the next live one is the newest. */
  lemma {:induction false} RestoreCouples(chain: seq<Entry>, hist: seq<Write>, ts: Ts, horizon: Ts)
    requires Couples(chain, hist, ts, horizon) && horizon.Lt(ts) && OnlyPending(chain, hist, None)
    ensures Couples(Restore(chain, ts), hist, MAX, horizon) && OnlyPending(Restore(chain, ts), hist, None)
    decreases |hist|
  {
    if hist != [] {
      var w := hist[0];
      if IsNewestOf(chain, w) {
        if !w.live { RestoreCouples(chain[1..], hist[1..], ts, horizon); }
      } else {
        RestoreCouples(chain, hist[1..], ts, horizon);
      }
    }
  }

  /** The history in which the newest live write was aborted. */
  function Abandon(hist: seq<Write>): seq<Write> {
    if hist == [] then []
    else if hist[0].live then [hist[0].(live := false)] + hist[1..]
    else [hist[0]] + Abandon(hist[1..])
  }

  lemma {:induction false} AbortCouples(chain: seq<Entry>, hist: seq<Write>, horizon: Ts, txn: nat)
    requires Couples(chain, hist, MAX, horizon) && OnlyPending(chain, hist, Some(txn))
    requires NewestLive(hist).Some? && horizon.Lt(NewestLive(hist).value.0)
    ensures Couples(FlipAborted(chain, txn), Abandon(hist), MAX, horizon)
    ensures OnlyPending(FlipAborted(chain, txn), Abandon(hist), None)
    decreases |hist|
  {
    var w := hist[0];
    if w.live {
      var rest := chain[1..];
      PendingIsOthers(rest, hist[1..], w.ts, horizon, None, txn);
      RestoreCouples(rest, hist[1..], w.ts, horizon);
      RestoreForeign(rest, w.ts, txn);
      FlipIdle(Restore(rest, w.ts), txn, w.ts);
      assert FlipAborted(chain, txn)[1..] == Restore(rest, w.ts);
    } else if IsNewestOf(chain, w) {
      AbortCouples(chain[1..], hist[1..], horizon, txn);
      assert FlipAborted(chain, txn)[1..] == FlipAborted(chain[1..], txn);
    } else {
      AbortCouples(chain, hist[1..], horizon, txn);
      assert Abandon(hist)[1..] == Abandon(hist[1..]);
      AbortKeepsStarts(chain, txn);
    }
  }

  /** Flipping to committed at the timestamp it was installed with. */
  lemma {:induction false} CommitCouples(chain: seq<Entry>, hist: seq<Write>, horizon: Ts, txn: nat, ts: Ts)
    requires Couples(chain, hist, MAX, horizon) && OnlyPending(chain, hist, Some(txn))
    requires NewestLive(hist).Some? && NewestLive(hist).value.0 == ts
    ensures Couples(FlipCommitted(chain, txn, ts), hist, MAX, horizon)
    ensures OnlyPending(FlipCommitted(chain, txn, ts), hist, None)
    decreases |hist|
  {
    var w := hist[0];
    if w.live {
      PendingIsOthers(chain[1..], hist[1..], w.ts, horizon, None, txn);
      FlipIdle(chain[1..], txn, ts);
    } else if IsNewestOf(chain, w) {
      CommitCouples(chain[1..], hist[1..], horizon, txn, ts);
    } else {
      CommitCouples(chain, hist[1..], horizon, txn, ts);
      CommitKeepsStarts(chain, hist[1..], MAX, horizon, txn, ts);
    }
  }

  predicate SameStarts(a: seq<Entry>, b: seq<Entry>) {
    |a| == |b| && forall i :: 0 <= i < |a| ==> a[i].start == b[i].start
  }

  lemma {:induction false} RestoreKeepsStarts(chain: seq<Entry>, ts: Ts)
    ensures SameStarts(Restore(chain, ts), chain)
  {
    if chain != [] { RestoreKeepsStarts(chain[1..], ts); }
  }

  lemma {:induction false} AbortKeepsStarts(chain: seq<Entry>, txn: nat)
    ensures SameStarts(FlipAborted(chain, txn), chain)
    decreases |chain|
  {
    if chain != [] {
      var rest := chain[1..];
      RestoreKeepsStarts(rest, chain[0].start);
      if chain[0].state == Pending(txn) { rest := Restore(rest, chain[0].start); }
      AbortKeepsStarts(rest, txn);
      assert forall i :: 0 < i < |chain| ==> FlipAborted(chain, txn)[i] == FlipAborted(rest, txn)[i - 1];
      assert forall i :: 0 < i < |chain| ==> chain[i] == chain[1..][i - 1];
    }
  }

  lemma {:induction false} CommitKeepsStarts(chain: seq<Entry>, hist: seq<Write>, next: Ts, horizon: Ts, txn: nat, ts: Ts)
    requires Couples(chain, hist, next, horizon) && OnlyPending(chain, hist, Some(txn))
    requires NewestLive(hist).Some? && NewestLive(hist).value.0 == ts
    ensures SameStarts(FlipCommitted(chain, txn, ts), chain)
    decreases |hist|
  {
    var w := hist[0];
    if w.live {
      PendingIsOthers(chain[1..], hist[1..], w.ts, horizon, None, txn);
      FlipIdle(chain[1..], txn, ts);
    } else if IsNewestOf(chain, w) {
      CommitKeepsStarts(chain[1..], hist[1..], next, horizon, txn, ts);
      assert forall i :: 0 < i < |chain| ==> FlipCommitted(chain, txn, ts)[i] == FlipCommitted(chain[1..], txn, ts)[i - 1];
      assert forall i :: 0 < i < |chain| ==> chain[i] == chain[1..][i - 1];
    } else {
      CommitKeepsStarts(chain, hist[1..], next, horizon, txn, ts);
    }
  }

  // ---------------------------------------------------------------------------
  // Reclaiming
  // ---------------------------------------------------------------------------

  predicate AllBelow(chain: seq<Entry>, ts: Ts) {
    forall i :: 0 <= i < |chain| ==> chain[i].start.Lt(ts)
  }

  lemma {:induction false} CoupledBelow(chain: seq<Entry>, hist: seq<Write>, next: Ts, horizon: Ts, ts: Ts)
    requires Couples(chain, hist, next, horizon) && Descending(hist, ts)
    ensures AllBelow(chain, ts)
    decreases |hist|
  {
    if hist != [] {
      var w := hist[0];
      var rest := if IsNewestOf(chain, w) then chain[1..] else chain;
      CoupledBelow(rest, hist[1..], NextAfter(w, next), horizon, w.ts);
      forall i | 0 <= i < |chain| ensures chain[i].start.Lt(ts) {
        if IsNewestOf(chain, w) && i > 0 { assert chain[i] == rest[i - 1]; }
      }
    }
  }

  lemma {:induction false} PruneBelow(chain: seq<Entry>, floor: Ts, ts: Ts)
    requires AllBelow(chain, ts)
    ensures AllBelow(Prune(chain, floor), ts)
  {
    if chain != [] { PruneBelow(chain[1..], floor, ts); }
  }

  lemma {:induction false} PruneCouples(
    chain: seq<Entry>, hist: seq<Write>, next: Ts, horizon: Ts, floor: Ts, below: Ts, pending: Option<nat>)
    requires Couples(chain, hist, next, horizon) && Descending(hist, below) && OnlyPending(chain, hist, pending)
    requires pending.Some? ==> next == MAX
    ensures Couples(Prune(chain, floor), hist, next, horizon.Max(floor))
    ensures OnlyPending(Prune(chain, floor), hist, pending)
    decreases |hist|
  {
    if hist != [] {
      var w := hist[0];
      var more := if w.live then None else pending;
      var rest := if IsNewestOf(chain, w) then chain[1..] else chain;
      PruneCouples(rest, hist[1..], NextAfter(w, next), horizon, floor, w.ts, more);
      CoupledBelow(rest, hist[1..], NextAfter(w, next), horizon, w.ts);
      PruneBelow(rest, floor, w.ts);
      if IsNewestOf(chain, w) && Retained(chain[0], floor) {
        assert Prune(chain, floor)[1..] == Prune(rest, floor);
      } else {
        assert Prune(chain, floor) == Prune(rest, floor);
      }
    }
  }

  /** The entry a reader finds. */
  function VisibleEntry(chain: seq<Entry>, r: Reader): Option<Entry> {
    if chain == [] then None else if VisibleTo(chain[0], r) then Some(chain[0]) else VisibleEntry(chain[1..], r)
  }

  lemma {:induction false} NoneVisibleBelow(chain: seq<Entry>, hist: seq<Write>, next: Ts, horizon: Ts, r: Reader)
    requires Couples(chain, hist, next, horizon) && Descending(hist, next) && Foreign(chain, r.txn) && next.Le(r.readTs)
    ensures VisibleEntry(chain, r).None?
    decreases |hist|
  {
    if hist != [] {
      var w := hist[0];
      var rest := if IsNewestOf(chain, w) then chain[1..] else chain;
      DescendingWeaken(hist[1..], w.ts, NextAfter(w, next));
      NoneVisibleBelow(rest, hist[1..], NextAfter(w, next), horizon, r);
    }
  }

  lemma DescendingWeaken(hist: seq<Write>, a: Ts, b: Ts)
    requires Descending(hist, a) && a.Le(b)
    ensures Descending(hist, b)
  {
  }

  /** A reclaim changes what a reader sees exactly when the entry it sees ended at or below the floor. */
  lemma {:induction false} PruneVisibleIff(chain: seq<Entry>, hist: seq<Write>, next: Ts, horizon: Ts, floor: Ts, r: Reader)
    requires Couples(chain, hist, next, horizon) && Descending(hist, next) && Foreign(chain, r.txn)
    ensures var seen := VisibleEntry(chain, r);
      VisibleEntry(Prune(chain, floor), r) == (if seen.Some? && !Retained(seen.value, floor) then None else seen)
    decreases |hist|
  {
    if hist != [] {
      var w := hist[0];
      var rest := if IsNewestOf(chain, w) then chain[1..] else chain;
      DescendingWeaken(hist[1..], w.ts, NextAfter(w, next));
      PruneVisibleIff(rest, hist[1..], NextAfter(w, next), horizon, floor, r);
      if IsNewestOf(chain, w) {
        if Retained(chain[0], floor) {
          assert Prune(chain, floor)[1..] == Prune(rest, floor);
        } else {
          assert Prune(chain, floor) == Prune(rest, floor);
          if VisibleTo(chain[0], r) { NoneVisibleBelow(rest, hist[1..], NextAfter(w, next), horizon, r); }
        }
      }
    }
  }

  lemma {:induction false} VisibleIsEntry(chain: seq<Entry>, r: Reader)
    ensures var seen := VisibleEntry(chain, r);
      VisibleAt(chain, r) == if seen.Some? then Some((seen.value.start, seen.value.data)) else None
  {
    if chain != [] { VisibleIsEntry(chain[1..], r); }
  }

  /** A live write follows `ts` and is not above the floor. */
  predicate Replaced(hist: seq<Write>, ts: Ts, floor: Ts) {
    exists i :: 0 <= i < |hist| && hist[i].live && ts.Lt(hist[i].ts) && hist[i].ts.Le(floor)
  }

  lemma ReplacedStep(hist: seq<Write>, ts: Ts, floor: Ts)
    requires hist != []
    ensures Replaced(hist, ts, floor) <==>
      (hist[0].live && ts.Lt(hist[0].ts) && hist[0].ts.Le(floor)) || Replaced(hist[1..], ts, floor)
  {
    assert forall i :: 0 < i < |hist| ==> hist[i] == hist[1..][i - 1];
  }

  lemma {:induction false} NoneReplaced(hist: seq<Write>, ts: Ts, floor: Ts, below: Ts)
    requires Descending(hist, below) && below.Le(ts)
    ensures !Replaced(hist, ts, floor)
  {
    if hist != [] {
      ReplacedStep(hist, ts, floor);
      NoneReplaced(hist[1..], ts, floor, hist[0].ts);
    }
  }

  lemma {:induction false} DescendingBelow(hist: seq<Write>, below: Ts)
    requires Descending(hist, below)
    ensures forall i :: 0 <= i < |hist| ==> hist[i].ts.Lt(below)
  {
    if hist != [] {
      DescendingBelow(hist[1..], hist[0].ts);
      assert forall i :: 0 < i < |hist| ==> hist[i] == hist[1..][i - 1];
    }
  }

  /** The entry a reader sees is not retained exactly when a live write at or below the floor follows the reader. */
  lemma {:induction false} SeenEndsIff(chain: seq<Entry>, hist: seq<Write>, next: Ts, horizon: Ts, floor: Ts, r: Reader)
    requires Couples(chain, hist, next, horizon) && Descending(hist, next) && Foreign(chain, r.txn)
    requires horizon.Le(r.readTs) && r.readTs.Le(r.frontier) && r.readTs.Lt(next) && next.Le(MAX)
    ensures var seen := VisibleEntry(chain, r);
      seen.Some? ==> (Retained(seen.value, floor) <==> (next == MAX || floor.Lt(next)) && !Replaced(hist, r.readTs, floor))
    decreases |hist|
  {
    if hist != [] {
      var w := hist[0];
      var rest := if IsNewestOf(chain, w) then chain[1..] else chain;
      ReplacedStep(hist, r.readTs, floor);
      if w.live && w.ts.Le(r.readTs) {
        NoneReplaced(hist[1..], r.readTs, floor, w.ts);
      } else {
        DescendingWeaken(hist[1..], w.ts, NextAfter(w, next));
        SeenEndsIff(rest, hist[1..], NextAfter(w, next), horizon, floor, r);
      }
    }
  }
}
