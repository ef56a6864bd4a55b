/** What every run of the group-commit protocol keeps. */
module GroupCommitRuns {
  import opened Bytes
  import opened LogSlots
  import opened GroupCommit

  // ---------------------------------------------------------------------------
  // Each step keeps the stored bytes and the threads
  // ---------------------------------------------------------------------------

  /** What every step guarantees about the frontiers and the records already issued. */
  ghost predicate Forward(w: World, v: World) {
    && v.first == w.first && v.seeded == w.seeded && v.syncedAtOpen == w.syncedAtOpen
    && |v.pcs| == |w.pcs|
    && w.m.durable <= v.m.durable && w.m.ready <= v.m.ready && w.m.next <= v.m.next
    && (w.m.poisoned ==> v.m.poisoned && v.m.ready == w.m.ready && v.m.next == w.m.next)
    && |w.recs| <= |v.recs|
    && (forall i :: 0 <= i < |w.recs| ==> v.recs[i].start == w.recs[i].start && v.recs[i].bytes == w.recs[i].bytes)
  }

  /** A step of a record owner leaves the threads where they are. */
  lemma ThreadsOwner(w: World, v: World)
    requires Threads(w) && v.pcs == w.pcs && v.stable == w.stable
    requires v.m.durable == w.m.durable && w.m.ready <= v.m.ready
    requires w.m.ready <= |w.cache| <= |v.cache| && Agree(w.cache, v.cache, w.m.ready)
    requires v.m.poisoned || (v.m.poisoned == w.m.poisoned && v.m.syncing == w.m.syncing)
    ensures Threads(v)
  {
    forall k | 0 <= k < |v.pcs| ensures ThreadOk(v, v.pcs[k]) {
      assert ThreadOk(w, w.pcs[k]);
      if w.pcs[k].PastClose() { AgreeBelow(w.cache, v.cache, w.m.ready, w.pcs[k].target); }
    }
  }

  lemma AgreeBelow(a: seq<Byte>, b: seq<Byte>, n: nat, k: nat)
    requires Agree(a, b, n) && k <= n
    ensures Agree(a, b, k)
  {
    assert a[..k] == a[..n][..k] && b[..k] == b[..n][..k];
  }

  /** The ready frontier never runs past the file: the record below it is completely there. */
  lemma ReadyInFile(m: Manager, recs: seq<Rec>, first: nat, cache: seq<Byte>)
    requires Layout(m, recs, first) && first <= |cache|
    requires forall i :: 0 <= i < |recs| ==> Present(cache, recs[i])
    ensures m.ready <= |cache|
  {
    TiledBounds(m.slots, m.ready, m.next);
    var n := |recs|;
    if m.ready < m.next {
      n :| 0 <= n < |recs| && recs[n].start == m.ready;
    }
    var mid := ChainedSplit(recs, first, m.next, n);
    if n > 0 {
      ChainedBounds(recs, first, m.next);
      assert Slotted(m, recs[n - 1]) && Present(cache, recs[n - 1]);
    }
  }

  /** Owner steps that do not touch the file keep it stored. */
  lemma StoredOwner(w: World, v: World)
    requires Inv(w) && v.cache == w.cache && v.stable == w.stable && v.first == w.first
    requires v.seeded == w.seeded && v.syncedAtOpen == w.syncedAtOpen && v.m.durable == w.m.durable
    requires Layout(v.m, v.recs, v.first)
    requires forall i :: 0 <= i < |v.recs| ==> Present(v.cache, v.recs[i])
    ensures Stored(v)
  {
    ReadyInFile(v.m, v.recs, v.first, v.cache);
  }

  /** A locked section of one owner that keeps the layout keeps the invariant. */
  lemma OwnerFrame(w: World, v: World, i: nat)
    requires Inv(w) && i < |w.recs| == |v.recs| && Layout(v.m, v.recs, w.first)
    requires v == w.(m := v.m, recs := w.recs[i := w.recs[i].(phase := v.recs[i].phase)])
    requires v.m.durable == w.m.durable && v.m.next == w.m.next && w.m.ready <= v.m.ready
    requires v.m.poisoned || (v.m.poisoned == w.m.poisoned && v.m.syncing == w.m.syncing)
    requires w.m.poisoned ==> v.m.poisoned && v.m.ready == w.m.ready
    requires Present(w.cache, v.recs[i])
    ensures Inv(v) && Forward(w, v)
  {
    assert Stored(v) by { StoredOwner(w, v); }
    assert Threads(v) by { ThreadsOwner(w, v); }
  }

  lemma OwnerFails(w: World, i: nat, m: Manager)
    requires Inv(w) && i < |w.recs| && !w.recs[i].phase.Done?
    requires m == PoisonSlot(w.m, w.recs[i].Slot()) || (m == w.m && w.m.poisoned && !w.recs[i].phase.Failed?)
    ensures Inv(Owner(w, i, (m, Fatal), Done)) && Forward(w, Owner(w, i, (m, Fatal), Done))
  {
    var v := Owner(w, i, (m, Fatal), Done);
    assert Slotted(w.m, w.recs[i]);
    assert m.slots.Keys == w.m.slots.Keys;
    LayoutMove(w.m, m, w.recs, w.first, i, Failed);
    OwnerFrame(w, v, i);
  }

  /** Under the invariant an owner's own transition fails only on a poisoned manager. */
  lemma OwnerMoves(w: World, i: nat, from: SlotPhase, to: Phase)
    requires Inv(w) && i < |w.recs| && !w.recs[i].phase.Done? && !w.recs[i].phase.Failed?
    requires PhaseOf(w.recs[i].phase) == from && !to.Done? && !to.Failed?
    requires Present(w.cache, w.recs[i].(phase := to))
    ensures var v := Owner(w, i, Transition(w.m, w.recs[i].Slot(), from, PhaseOf(to)), to);
      Inv(v) && Forward(w, v)
  {
    var r := Transition(w.m, w.recs[i].Slot(), from, PhaseOf(to));
    var v := Owner(w, i, r, to);
    assert Slotted(w.m, w.recs[i]);
    if w.m.poisoned {
      OwnerFails(w, i, w.m);
    } else {
      assert r.0.slots.Keys == w.m.slots.Keys;
      LayoutMove(w.m, r.0, w.recs, w.first, i, to);
      OwnerFrame(w, v, i);
    }
  }

  lemma ReserveStep(w: World, bytes: seq<Byte>)
    requires Inv(w) && Enabled(w, ReserveRec(bytes))
    ensures Inv(Apply(w, ReserveRec(bytes))) && Forward(w, Apply(w, ReserveRec(bytes)))
  {
    var v := Apply(w, ReserveRec(bytes));
    LayoutReserve(w.m, w.recs, w.first, bytes);
    assert Stored(v) by { StoredOwner(w, v); }
    assert Threads(v) by { ThreadsOwner(w, v); }
  }

  lemma MarkStep(w: World, i: nat)
    requires Inv(w) && Enabled(w, Mark(i))
    ensures Inv(Apply(w, Mark(i))) && Forward(w, Apply(w, Mark(i)))
  {
    var v := Apply(w, Mark(i));
    if w.m.poisoned {
      OwnerFails(w, i, w.m);
    } else {
      LayoutMark(w.m, w.recs, w.first, i);
      MarkKeeps(w.m, w.recs[i].Slot());
      assert v.recs == w.recs[i := w.recs[i].(phase := Done)] && Present(w.cache, w.recs[i]);
      OwnerFrame(w, v, i);
    }
  }

  lemma MarkKeeps(m: Manager, slot: LogSlot)
    requires MarkWritten(m, slot).1.Ok?
    ensures var n := MarkWritten(m, slot).0;
      n.next == m.next && n.durable == m.durable && n.poisoned == m.poisoned && n.syncing == m.syncing
  {
  }

  /** The bytes of one record are outside every other record's range. */
  lemma CopyElsewhere(w: World, i: nat, n: nat, j: nat)
    requires Chained(w.recs, w.first, w.m.next) && Enabled(w, CopySome(i, n))
    requires j < |w.recs| && i != j && Present(w.cache, w.recs[j])
    ensures Present(Apply(w, CopySome(i, n)).cache, w.recs[j])
  {
    if j < i { ChainedApart(w.recs, w.first, w.m.next, j, i); } else { ChainedApart(w.recs, w.first, w.m.next, i, j); }
  }

  /** Copying touches only bytes at or above the ready frontier. */
  lemma CopyAbove(w: World, i: nat, n: nat)
    requires Enabled(w, CopySome(i, n)) && Slotted(w.m, w.recs[i]) && Present(w.cache, w.recs[i])
    requires w.m.ready <= |w.cache|
    ensures Agree(w.cache, Apply(w, CopySome(i, n)).cache, w.m.ready)
    ensures Present(Apply(w, CopySome(i, n)).cache, Apply(w, CopySome(i, n)).recs[i])
  {
  }

  lemma CopyStored(w: World, i: nat, n: nat)
    requires Inv(w) && Enabled(w, CopySome(i, n))
    ensures Agree(w.cache, Apply(w, CopySome(i, n)).cache, w.m.ready)
    ensures Stored(Apply(w, CopySome(i, n)))
  {
    var v := Apply(w, CopySome(i, n));
    CopyAbove(w, i, n);
    forall j | 0 <= j < |v.recs| ensures Present(v.cache, v.recs[j]) {
      if j != i {
        assert Present(w.cache, w.recs[j]);
        CopyElsewhere(w, i, n, j);
      }
    }
    AgreeBelow(w.cache, v.cache, w.m.ready, w.m.durable);
  }

  lemma CopySomeStep(w: World, i: nat, n: nat)
    requires Inv(w) && Enabled(w, CopySome(i, n))
    ensures Inv(Apply(w, CopySome(i, n))) && Forward(w, Apply(w, CopySome(i, n)))
  {
    var v := Apply(w, CopySome(i, n));
    assert Slotted(w.m, w.recs[i]);
    CopyStored(w, i, n);
    LayoutMove(w.m, w.m, w.recs, w.first, i, v.recs[i].phase);
    ThreadsOwner(w, v);
  }

  // ---------------------------------------------------------------------------
  // Steps of the syncing threads and of the operating system
  // ---------------------------------------------------------------------------

  /** Bytes that are both stable and cached survive any write-back. */
  lemma BetweenAgrees(stable: seq<Byte>, disk: seq<Byte>, cache: seq<Byte>, n: nat)
    requires Between(stable, disk, cache) && Agree(stable, cache, n)
    ensures Agree(disk, cache, n)
  {
    forall a | 0 <= a < n ensures disk[a] == cache[a] {
      assert stable[a] == stable[..n][a] && cache[a] == cache[..n][a];
    }
  }

  lemma WriteBackStep(w: World, disk: seq<Byte>)
    requires Inv(w) && Enabled(w, WriteBack(disk))
    ensures Inv(Apply(w, WriteBack(disk))) && Forward(w, Apply(w, WriteBack(disk)))
  {
    var v := Apply(w, WriteBack(disk));
    if Promised(w) { BetweenAgrees(w.stable, disk, w.cache, w.m.durable); }
    forall k | 0 <= k < |v.pcs| ensures ThreadOk(v, v.pcs[k]) {
      assert ThreadOk(w, w.pcs[k]);
      if w.pcs[k].Synced? { BetweenAgrees(w.stable, disk, w.cache, w.pcs[k].target); }
    }
  }

  /** The election survives one thread's move: leadership is taken only while free and the flag follows it. */
  lemma ElectedMove(m: Manager, n: Manager, pcs: seq<Pc>, k: nat, pc: Pc)
    requires Elected(m, pcs) && k < |pcs|
    requires m.poisoned ==> n.poisoned
    requires pc.PastClose() ==> pcs[k].PastClose() || (!m.poisoned && pcs[k].Leads())
    requires !n.poisoned ==>
      if pc.Leads() == pcs[k].Leads() then n.syncing == m.syncing
      else n.syncing == pc.Leads() && m.syncing == pcs[k].Leads()
    ensures Elected(n, pcs[k := pc])
  {
    var moved := pcs[k := pc];
    if !n.poisoned {
      if pc.Leads() { assert moved[k].Leads(); }
      if pcs[k].Leads() { assert SomeLeader(pcs); }
      if SomeLeader(moved) && !pc.Leads() {
        var j :| 0 <= j < |moved| && moved[j].Leads();
        assert pcs[j].Leads();
      }
      if SomeLeader(pcs) && !pcs[k].Leads() {
        var j :| 0 <= j < |pcs| && pcs[j].Leads();
        assert moved[j].Leads();
      }
    }
  }

  /** The layout does not depend on the durable frontier or on the sync flag. */
  lemma LayoutSame(m: Manager, n: Manager, recs: seq<Rec>, first: nat)
    requires Layout(m, recs, first)
    requires n == m.(durable := n.durable, syncing := n.syncing, poisoned := n.poisoned) && (m.poisoned ==> n.poisoned)
    ensures Layout(n, recs, first)
  {
    forall i | 0 <= i < |recs| ensures Slotted(n, recs[i]) { assert Slotted(m, recs[i]); }
  }

  /** What a thread step may change: its own counter, the flag, and `durable` up to its own target. */
  lemma ThreadMoves(w: World, v: World, k: nat)
    requires Inv(w) && k < |w.pcs| == |v.pcs| && v == w.(m := v.m, pcs := w.pcs[k := v.pcs[k]])
    requires v.m == w.m.(durable := v.m.durable, syncing := v.m.syncing)
    requires w.m.durable <= v.m.durable <= w.m.ready && Elected(v.m, v.pcs) && ThreadOk(v, v.pcs[k])
    requires w.m.durable < v.m.durable ==> w.pcs[k].PastClose() && Agree(w.stable, w.cache, v.m.durable)
    ensures Inv(v) && Forward(w, v)
  {
    LayoutSame(w.m, v.m, w.recs, w.first);
    forall j | 0 <= j < |v.pcs| ensures ThreadOk(v, v.pcs[j]) {
      assert ThreadOk(w, w.pcs[j]);
    }
  }

  /** A single step of `ensure_sync` keeps the thread's own claim and raises `durable` only to what it synced. */
  lemma ProceedThread(w: World, k: nat)
    requires k < |w.pcs| && ThreadOk(w, w.pcs[k]) && w.m.durable <= w.m.ready <= |w.cache|
    ensures var v := ProceedFrom(w, k);
      && |v.pcs| == |w.pcs| && v == w.(m := v.m, pcs := w.pcs[k := v.pcs[k]])
      && v.m == w.m.(durable := v.m.durable, syncing := v.m.syncing)
      && ThreadOk(v, v.pcs[k])
      && w.m.durable <= v.m.durable <= w.m.ready
      && (w.m.durable < v.m.durable ==> w.pcs[k].PastClose() && Agree(w.stable, w.cache, v.m.durable))
  {
  }

  /** A single step of `ensure_sync` takes or returns the flag only as leader. */
  lemma ProceedElected(w: World, k: nat)
    requires k < |w.pcs| && ThreadOk(w, w.pcs[k]) && Elected(w.m, w.pcs)
    ensures Elected(ProceedFrom(w, k).m, ProceedFrom(w, k).pcs)
  {
    var v := ProceedFrom(w, k);
    assert w.pcs[k].Leads() ==> SomeLeader(w.pcs);
    if v.pcs != w.pcs { ElectedMove(w.m, v.m, w.pcs, k, v.pcs[k]); }
  }

  lemma ProceedStep(w: World, k: nat)
    requires Inv(w) && Enabled(w, Proceed(k))
    ensures Inv(Apply(w, Proceed(k))) && Forward(w, Apply(w, Proceed(k)))
  {
    assert ThreadOk(w, w.pcs[k]);
    ProceedThread(w, k);
    ProceedElected(w, k);
    ThreadMoves(w, ProceedFrom(w, k), k);
  }

  lemma SyncStep(w: World, k: nat, disk: seq<Byte>)
    requires Inv(w) && Enabled(w, SyncOk(k, disk))
    ensures Inv(Apply(w, SyncOk(k, disk))) && Forward(w, Apply(w, SyncOk(k, disk)))
  {
    var v := Apply(w, SyncOk(k, disk));
    var pc := w.pcs[k];
    assert ThreadOk(w, pc);
    ElectedMove(w.m, v.m, w.pcs, k, v.pcs[k]);
    if Promised(w) { BetweenAgrees(w.stable, disk, w.cache, w.m.durable); }
    forall a | 0 <= a < pc.target ensures disk[a] == w.cache[a] {
      assert pc.snap[a] == pc.snap[..pc.target][a] && w.cache[a] == w.cache[..pc.target][a];
    }
    forall j | 0 <= j < |v.pcs| ensures ThreadOk(v, v.pcs[j]) {
      assert ThreadOk(w, w.pcs[j]);
    }
  }

  lemma SyncFailStep(w: World, k: nat)
    requires Inv(w) && Enabled(w, SyncFail(k))
    ensures Inv(Apply(w, SyncFail(k))) && Forward(w, Apply(w, SyncFail(k)))
  {
    var v := Apply(w, SyncFail(k));
    ElectedMove(w.m, v.m, w.pcs, k, v.pcs[k]);
    forall j | 0 <= j < |v.pcs| ensures ThreadOk(v, v.pcs[j]) {
      assert ThreadOk(w, w.pcs[j]);
    }
  }

  // ---------------------------------------------------------------------------
  // Whole runs
  // ---------------------------------------------------------------------------

  lemma BeginWriteStep(w: World, i: nat)
    requires Inv(w) && Enabled(w, BeginWrite(i))
    ensures Inv(Apply(w, BeginWrite(i))) && Forward(w, Apply(w, BeginWrite(i)))
  {
    OwnerMoves(w, i, SlotPhase.Reserved, Copying(0));
  }

  lemma FinishWriteStep(w: World, i: nat)
    requires Inv(w) && Enabled(w, FinishWrite(i))
    ensures Inv(Apply(w, FinishWrite(i))) && Forward(w, Apply(w, FinishWrite(i)))
  {
    assert Present(w.cache, w.recs[i]);
    OwnerMoves(w, i, Writing, Complete);
  }

  lemma CallStep(w: World, k: nat, t: nat)
    requires Inv(w) && Enabled(w, Call(k, t))
    ensures Inv(Apply(w, Call(k, t))) && Forward(w, Apply(w, Call(k, t)))
  {
    ElectedMove(w.m, w.m, w.pcs, k, WaitReady(t));
    ThreadMoves(w, MoveTo(w, k, WaitReady(t)), k);
  }

  lemma StepInv(w: World, s: Step)
    requires Inv(w) && Enabled(w, s)
    ensures Inv(Apply(w, s)) && Forward(w, Apply(w, s))
  {
    match s
    case ReserveRec(bytes) => ReserveStep(w, bytes);
    case BeginWrite(i) => BeginWriteStep(w, i);
    case CopySome(i, n) => CopySomeStep(w, i, n);
    case FinishWrite(i) => FinishWriteStep(w, i);
    case Mark(i) => MarkStep(w, i);
    case Abandon(i) => OwnerFails(w, i, PoisonSlot(w.m, w.recs[i].Slot()));
    case WriteBack(disk) => WriteBackStep(w, disk);
    case Call(k, t) => CallStep(w, k, t);
    case Proceed(k) => ProceedStep(w, k);
    case SyncOk(k, disk) => SyncStep(w, k, disk);
    case SyncFail(k) => SyncFailStep(w, k);
  }

  /** `steps` is a possible interleaving that leads from `w` to `v`. */
  ghost predicate Run(w: World, steps: seq<Step>, v: World)
    decreases |steps|
  {
    if steps == [] then v == w
    else Enabled(w, steps[0]) && Run(Apply(w, steps[0]), steps[1..], v)
  }

  /** Along any run the frontiers only move forward and a poison freezes `ready` for good. */
  lemma {:induction false} RunInv(w: World, steps: seq<Step>, v: World)
    requires Inv(w) && Run(w, steps, v)
    ensures Inv(v) && Forward(w, v)
    decreases |steps|
  {
    if steps != [] {
      var next := Apply(w, steps[0]);
      StepInv(w, steps[0]);
      RunInv(next, steps[1..], v);
      ForwardTrans(w, next, v);
    }
  }

  lemma ForwardTrans(a: World, b: World, c: World)
    requires Forward(a, b) && Forward(b, c)
    ensures Forward(a, c)
  {
  }

  /**
   Whatever the interleaving, the slots tile `[ready, next)`, the slot at `ready` is not
   written yet, and if no owner is left unfinished the frontier has caught up.
   */
  lemma ReadyCatchesUp(w: World, steps: seq<Step>, v: World)
    requires Init(w) && Run(w, steps, v)
    ensures Tiled(v.m.slots, v.m.ready, v.m.next)
    ensures v.m.ready in v.m.slots ==> v.m.slots[v.m.ready].phase != Written
    ensures (forall i :: 0 <= i < |v.recs| ==> v.recs[i].phase.Done?) ==> v.m.ready == v.m.next && v.m.slots == map[]
  {
    InitInv(w);
    RunInv(w, steps, v);
    TiledBounds(v.m.slots, v.m.ready, v.m.next);
  }

  /** A slot still in phase `Reserved` always has an owner who has not resolved it, unless that owner failed. */
  lemma ReservedHasOwner(w: World, steps: seq<Step>, v: World, lsn: nat) returns (i: nat)
    requires Init(w) && Run(w, steps, v)
    requires lsn in v.m.slots && v.m.slots[lsn].phase == SlotPhase.Reserved
    ensures i < |v.recs| && v.recs[i].start == lsn && v.recs[i].End() == v.m.slots[lsn].end
    ensures v.recs[i].phase == Unresolved || (v.recs[i].phase == Failed && v.m.poisoned)
  {
    InitInv(w);
    RunInv(w, steps, v);
    TiledBounds(v.m.slots, v.m.ready, v.m.next);
    var j :| 0 <= j < |v.recs| && v.recs[j].start == lsn;
    assert Slotted(v.m, v.recs[j]);
    i := j;
  }

  /** No two threads are ever between closing their sync target and publishing it. */
  lemma OneThreadSyncs(w: World, steps: seq<Step>, v: World, j: nat, k: nat)
    requires Init(w) && Run(w, steps, v) && j < |v.pcs| && k < |v.pcs|
    requires v.pcs[j].PastClose() && v.pcs[k].PastClose()
    ensures j == k
  {
    InitInv(w);
    RunInv(w, steps, v);
  }

  /**
   Once `ensure_sync(t)` has returned Ok, every byte below `t` survives every later power
   cut, whatever runs in between: an fsync since open, or one before it, covered them.
   */
  lemma SyncedSurvives(w: World, before: seq<Step>, u: World, k: nat, after: seq<Step>, v: World, disk: seq<Byte>)
    requires Init(w) && Run(w, before, u) && Run(u, after, v)
    requires k < |u.pcs| && u.pcs[k].Returned? && u.pcs[k].ok
    requires w.seeded < u.pcs[k].t || w.syncedAtOpen
    requires Between(v.stable, disk, v.cache)
    ensures Agree(disk, v.cache, u.pcs[k].t)
  {
    InitInv(w);
    RunInv(w, before, u);
    RunInv(u, after, v);
    assert ThreadOk(u, u.pcs[k]);
    BetweenAgrees(v.stable, disk, v.cache, v.m.durable);
    AgreeBelow(disk, v.cache, v.m.durable, u.pcs[k].t);
  }

  /** Right after open `ensure_sync` of the resume LSN returns Ok without an fsync of its own. */
  lemma SeedReturnsAtOnce(w: World, k: nat) returns (v: World)
    requires Init(w) && k < |w.pcs|
    ensures Run(w, [Call(k, w.seeded), Proceed(k), Proceed(k)], v)
    ensures |v.pcs| == |w.pcs| && v.pcs[k] == Returned(w.seeded, true)
    ensures v.stable == w.stable && v.cache == w.cache
  {
    var u := MoveTo(w, k, WaitReady(w.seeded));
    var x := MoveTo(u, k, Check(w.seeded));
    v := MoveTo(x, k, Returned(w.seeded, true));
    OneMore(x, Proceed(k), [], v);
    OneMore(u, Proceed(k), [Proceed(k)], v);
    OneMore(w, Call(k, w.seeded), [Proceed(k), Proceed(k)], v);
    assert [Call(k, w.seeded)] + [Proceed(k), Proceed(k)] == [Call(k, w.seeded), Proceed(k), Proceed(k)];
    assert [Proceed(k)] + [Proceed(k)] == [Proceed(k), Proceed(k)] && [Proceed(k)] + [] == [Proceed(k)];
  }

  /** If thread `k` has returned Ok, what it asked for is on `disk`. */
  ghost predicate Honoured(v: World, k: nat, disk: seq<Byte>)
    requires k < |v.pcs|
  {
    v.pcs[k].Returned? && v.pcs[k].ok ==> Agree(disk, v.cache, v.pcs[k].t)
  }

  /** In no run does an Ok come back for bytes that a power cut can take. */
  ghost predicate Durable(w: World) {
    forall steps, v: World, k: nat, disk ::
      Run(w, steps, v) && k < |v.pcs| && Between(v.stable, disk, v.cache) ==> Honoured(v, k, disk)
  }

  /** The bytes on the medium at open decide: all that the protocol promises holds exactly when none was missing. */
  lemma DurableIff(w: World)
    requires Init(w) && w.pcs != []
    ensures Durable(w) <==> w.stable == w.cache
  {
    if w.stable == w.cache {
      forall steps, v: World, k: nat, disk | Run(w, steps, v) && k < |v.pcs| && Between(v.stable, disk, v.cache)
        ensures Honoured(v, k, disk)
      {
        SyncedRun(w, steps, v);
        var x := AsSynced(v);
        if v.pcs[k].Returned? && v.pcs[k].ok { SyncedSurvives(AsSynced(w), steps, x, k, [], x, disk); }
      }
    } else {
      var v := SeedReturnsAtOnce(w, 0);
      assert !Agree(w.stable, w.cache, w.seeded) && Between(v.stable, v.stable, v.cache);
      assert !Honoured(v, 0, v.stable);
    }
  }

  function AsSynced(w: World): World { w.(syncedAtOpen := true) }

  /** No step looks at what was synced at open. */
  lemma {:induction false} SyncedRun(w: World, steps: seq<Step>, v: World)
    requires Run(w, steps, v)
    ensures Run(AsSynced(w), steps, AsSynced(v))
    decreases |steps|
  {
    if steps != [] {
      assert Apply(AsSynced(w), steps[0]) == AsSynced(Apply(w, steps[0]));
      SyncedRun(Apply(w, steps[0]), steps[1..], v);
    }
  }

  lemma OneMore(w: World, s: Step, rest: seq<Step>, v: World)
    requires Enabled(w, s) && Run(Apply(w, s), rest, v)
    ensures Run(w, [s] + rest, v)
  {
    assert ([s] + rest)[1..] == rest;
  }
}
