/**
 The commit protocol around the log manager as a state machine. Writers own reserved
 records and copy them into the journal in any order and in pieces; any number of
 threads run `ensure_sync`; the operating system writes cached bytes back whenever it
 likes. Each step is one mutex section, one atomic access or one I/O call.
 */
module GroupCommit {
  import opened Bytes
  import opened LogSlots

  /** Where a reserved record's owner stands. `Failed` owners have returned an error. */
  datatype Phase = Unresolved | Copying(done: nat) | Complete | Done | Failed

  datatype Rec = Rec(start: nat, bytes: seq<Byte>, phase: Phase) {
    function End(): nat { start + |bytes| }
    function Slot(): LogSlot { LogSlot(start, End(), |bytes|) }
  }

  /** Program counter of a thread inside `ensure_sync(t)`. */
  datatype Pc =
    | Idle
    | WaitReady(t: nat)
    | Check(t: nat)
    | CheckPoison(t: nat)
    | TryLead(t: nat)
    | Waiting(t: nat)
    | Leading(t: nat)
    | LeadFailed(t: nat)
    | Closed(t: nat, target: nat)
    | Syncing(t: nat, target: nat, snap: seq<Byte>)
    | Synced(t: nat, target: nat)
    | Published(t: nat)
    | Returned(t: nat, ok: bool)
  {
    /** The thread won the election and has not yet given the flag back. */
    predicate Leads() { Leading? || LeadFailed? || Closed? || Syncing? || Synced? || Published? }

    /** The thread fixed its sync target and has not yet published it. */
    predicate PastClose() { Closed? || Syncing? || Synced? }
  }

  /**
   `first` is where records start in the file, `seeded` the LSN the manager was seeded
   with, and `syncedAtOpen` whether everything below it was on stable storage then.
   `cache` is the file as readers see it, `stable` what survives a power cut for sure.
   */
  datatype World = World(
    first: nat, seeded: nat, syncedAtOpen: bool,
    m: Manager, recs: seq<Rec>, pcs: seq<Pc>,
    cache: seq<Byte>, stable: seq<Byte>)

  /** `disk` may be found after a power cut: each byte is its stable or its cached value. */
  ghost predicate Between(stable: seq<Byte>, disk: seq<Byte>, cache: seq<Byte>) {
    && |stable| <= |disk| <= |cache|
    && forall a :: 0 <= a < |disk| ==> disk[a] == At(stable, a) || disk[a] == cache[a]
  }

  datatype Step =
    | ReserveRec(bytes: seq<Byte>)
    | BeginWrite(i: nat)
    | CopySome(i: nat, n: nat)
    | FinishWrite(i: nat)
    | Mark(i: nat)
    | Abandon(i: nat)
    | WriteBack(disk: seq<Byte>)
    | Call(k: nat, target: nat)
    | Proceed(k: nat)
    | SyncOk(k: nat, disk: seq<Byte>)
    | SyncFail(k: nat)

  /** The step can happen now; blocked waits are steps that cannot. */
  ghost predicate Enabled(w: World, s: Step) {
    match s
    case ReserveRec(bytes) => Reserve(w.m, |bytes|).1.Ok?
    case BeginWrite(i) => i < |w.recs| && w.recs[i].phase == Unresolved
    case CopySome(i, n) =>
      i < |w.recs| && w.recs[i].phase.Copying? && 0 < n <= |w.recs[i].bytes| - w.recs[i].phase.done
    case FinishWrite(i) => i < |w.recs| && w.recs[i].phase == Copying(|w.recs[i].bytes|)
    case Mark(i) => i < |w.recs| && w.recs[i].phase == Complete
    case Abandon(i) => i < |w.recs| && (w.recs[i].phase.Unresolved? || w.recs[i].phase.Copying?)
    case WriteBack(disk) => Between(w.stable, disk, w.cache)
    case Call(k, t) => k < |w.pcs| && (w.pcs[k].Idle? || w.pcs[k].Returned?)
    case Proceed(k) => k < |w.pcs| && Runnable(w, w.pcs[k])
    case SyncOk(k, disk) =>
      && k < |w.pcs| && w.pcs[k].Syncing?
      && |w.pcs[k].snap| <= |disk|
      && Between(w.stable, disk, w.cache)
      && forall a :: 0 <= a < |w.pcs[k].snap| ==> disk[a] == w.pcs[k].snap[a] || disk[a] == w.cache[a]
    case SyncFail(k) => k < |w.pcs| && w.pcs[k].Syncing?
  }

  predicate Runnable(w: World, pc: Pc) {
    match pc
    case WaitReady(t) => w.m.poisoned || t <= w.m.ready
    case Waiting(t) => t <= w.m.durable || !w.m.syncing || w.m.poisoned
    case Idle => false
    case Returned(_, _) => false
    case Syncing(_, _, _) => false
    case _ => true
  }

  /** One owner's locked section: its outcome moves the owner on or fails it. */
  function Owner(w: World, i: nat, r: (Manager, Outcome<()>), to: Phase): World
    requires i < |w.recs|
  {
    w.(m := r.0, recs := w.recs[i := w.recs[i].(phase := if r.1.Ok? then to else Failed)])
  }

  function MoveTo(w: World, k: nat, pc: Pc): World
    requires k < |w.pcs|
  {
    w.(pcs := w.pcs[k := pc])
  }

  function Min(a: nat, b: nat): nat { if a <= b then a else b }

  /** One step of `ensure_sync` between two interleaving points. */
  function ProceedFrom(w: World, k: nat): World
    requires k < |w.pcs|
  {
    match w.pcs[k]
    case WaitReady(t) => MoveTo(w, k, if w.m.poisoned then Returned(t, false) else Check(t))
    case Check(t) => MoveTo(w, k, if t <= w.m.durable then Returned(t, true) else CheckPoison(t))
    case CheckPoison(t) => MoveTo(w, k, if w.m.poisoned then Returned(t, false) else TryLead(t))
    case TryLead(t) =>
      if w.m.syncing then MoveTo(w, k, Waiting(t))
      else MoveTo(w, k, Leading(t)).(m := w.m.(syncing := true))
    case Waiting(t) =>
      MoveTo(w, k, if w.m.durable < t && w.m.syncing && w.m.poisoned then Returned(t, false) else Check(t))
    case Leading(t) => MoveTo(w, k, if w.m.poisoned then LeadFailed(t) else Closed(t, w.m.ready))
    case LeadFailed(t) => MoveTo(w, k, Returned(t, false)).(m := w.m.(syncing := false))
    case Closed(t, target) => MoveTo(w, k, Syncing(t, target, w.cache))
    case Synced(t, target) => MoveTo(w, k, Published(t)).(m := w.m.(durable := Min(target, w.m.ready)))
    case Published(t) => MoveTo(w, k, Check(t)).(m := w.m.(syncing := false))
    case _ => w
  }

  function Apply(w: World, s: Step): World
    requires Enabled(w, s)
  {
    match s
    case ReserveRec(bytes) =>
      w.(m := Reserve(w.m, |bytes|).0, recs := w.recs + [Rec(w.m.next, bytes, Unresolved)])
    case BeginWrite(i) => Owner(w, i, Transition(w.m, w.recs[i].Slot(), Reserved, Writing), Copying(0))
    case CopySome(i, n) =>
      var r := w.recs[i];
      var at := r.phase.done;
      w.(cache := WriteAt(w.cache, r.start + at, r.bytes[at..at + n]),
         recs := w.recs[i := r.(phase := Copying(at + n))])
    case FinishWrite(i) => Owner(w, i, Transition(w.m, w.recs[i].Slot(), Writing, WriteComplete), Complete)
    case Mark(i) => Owner(w, i, MarkWritten(w.m, w.recs[i].Slot()), Done)
    case Abandon(i) => Owner(w, i, (PoisonSlot(w.m, w.recs[i].Slot()), Fatal), Done)
    case WriteBack(disk) => w.(stable := disk)
    case Call(k, t) => MoveTo(w, k, WaitReady(t))
    case Proceed(k) => ProceedFrom(w, k)
    case SyncOk(k, disk) => MoveTo(w, k, Synced(w.pcs[k].t, w.pcs[k].target)).(stable := disk)
    case SyncFail(k) => MoveTo(w, k, Returned(w.pcs[k].t, false)).(m := Poison(w.m))
  }

  // ---------------------------------------------------------------------------
  // Invariant
  // ---------------------------------------------------------------------------

  /** The records lie one after the other from `from` to `to`. */
  ghost predicate Chained(recs: seq<Rec>, from: nat, to: nat) {
    if recs == [] then from == to
    else recs[0].start == from && 0 < |recs[0].bytes| && Chained(recs[1..], recs[0].End(), to)
  }

  ghost predicate HasStart(recs: seq<Rec>, lsn: nat) {
    exists i :: 0 <= i < |recs| && recs[i].start == lsn
  }

  function PhaseOf(p: Phase): SlotPhase
    requires !p.Failed?
  {
    match p
    case Unresolved => SlotPhase.Reserved
    case Copying(_) => Writing
    case Complete => WriteComplete
    case Done => Written
  }

  /** A record below the ready frontier is done; any other has its slot, in its owner's phase. */
  ghost predicate Slotted(m: Manager, r: Rec) {
    && (r.start < m.ready ==> r.phase.Done?)
    && (r.phase.Failed? ==> m.poisoned)
    && (m.ready <= r.start ==>
          && r.start in m.slots
          && m.slots[r.start].end == r.End()
          && (r.phase.Failed? || m.slots[r.start].phase == PhaseOf(r.phase)))
  }

  /** The slot map agrees with the records, whatever the byte ranges. */
  ghost predicate Matched(m: Manager, recs: seq<Rec>) {
    && (forall i :: 0 <= i < |recs| ==> Slotted(m, recs[i]))
    && (forall k :: k in m.slots ==> HasStart(recs, k))
  }

  ghost predicate Layout(m: Manager, recs: seq<Rec>, first: nat) {
    && first <= m.ready
    && Tiled(m.slots, m.ready, m.next)
    && (m.ready in m.slots ==> m.slots[m.ready].phase != Written)
    && Chained(recs, first, m.next)
    && Matched(m, recs)
  }

  /** How much of a record its owner has put into the file. */
  function Copied(r: Rec): nat {
    match r.phase
    case Copying(n) => n
    case Complete => |r.bytes|
    case Done => |r.bytes|
    case _ => 0
  }

  ghost predicate Present(cache: seq<Byte>, r: Rec) {
    && Copied(r) <= |r.bytes|
    && (Copied(r) == 0 || r.start + Copied(r) <= |cache|)
    && forall a :: 0 <= a < Copied(r) ==> cache[r.start + a] == r.bytes[a]
  }

  ghost predicate Agree(a: seq<Byte>, b: seq<Byte>, n: nat) {
    n <= |a| && n <= |b| && a[..n] == b[..n]
  }

  /** Something was fsynced since open, or nothing needed to be. */
  predicate Promised(w: World) {
    w.seeded < w.m.durable || w.syncedAtOpen
  }

  ghost predicate Stored(w: World) {
    && w.m.ready <= |w.cache|
    && |w.stable| <= |w.cache|
    && (forall i :: 0 <= i < |w.recs| ==> Present(w.cache, w.recs[i]))
    && (Promised(w) ==> Agree(w.stable, w.cache, w.m.durable))
  }

  ghost predicate ThreadOk(w: World, pc: Pc) {
    match pc
    case Closed(_, target) => w.m.durable <= target <= w.m.ready
    case Syncing(_, target, snap) =>
      w.m.durable <= target <= w.m.ready && |snap| <= |w.cache| && Agree(snap, w.cache, target)
    case Synced(_, target) => w.m.durable <= target <= w.m.ready && Agree(w.stable, w.cache, target)
    case LeadFailed(_) => w.m.poisoned
    case Returned(t, ok) => ok ==> t <= w.m.durable
    case _ => true
  }

  ghost predicate OneSyncer(pcs: seq<Pc>) {
    forall j, k :: 0 <= j < |pcs| && 0 <= k < |pcs| && pcs[j].PastClose() && pcs[k].PastClose() ==> j == k
  }

  ghost predicate OneLeader(pcs: seq<Pc>) {
    forall j, k :: 0 <= j < |pcs| && 0 <= k < |pcs| && pcs[j].Leads() && pcs[k].Leads() ==> j == k
  }

  ghost predicate SomeLeader(pcs: seq<Pc>) {
    exists k :: 0 <= k < |pcs| && pcs[k].Leads()
  }

  /** At most one thread is past its target close; until a poison the flag marks the one leader. */
  ghost predicate Elected(m: Manager, pcs: seq<Pc>) {
    && OneSyncer(pcs)
    && (!m.poisoned ==> OneLeader(pcs) && (m.syncing <==> SomeLeader(pcs)))
  }

  ghost predicate Threads(w: World) {
    && (forall k :: 0 <= k < |w.pcs| ==> ThreadOk(w, w.pcs[k]))
    && Elected(w.m, w.pcs)
  }

  ghost predicate Inv(w: World) {
    && w.first <= w.seeded <= w.m.durable <= w.m.ready
    && Layout(w.m, w.recs, w.first)
    && Stored(w)
    && Threads(w)
  }

  /** A freshly opened journal: the accepted records of earlier lifetimes are in the file. */
  ghost predicate Init(w: World) {
    && w.first <= w.seeded
    && w.m == Fresh(w.seeded)
    && Chained(w.recs, w.first, w.seeded)
    && (forall i :: 0 <= i < |w.recs| ==> w.recs[i].phase.Done? && Present(w.cache, w.recs[i]))
    && (forall k :: 0 <= k < |w.pcs| ==> w.pcs[k].Idle?)
    && |w.cache| == w.seeded && |w.stable| <= w.seeded
    && (w.syncedAtOpen ==> w.stable == w.cache)
  }

  lemma InitInv(w: World)
    requires Init(w)
    ensures Inv(w)
  {
    ChainedBounds(w.recs, w.first, w.seeded);
  }

  // ---------------------------------------------------------------------------
  // Chains of records
  // ---------------------------------------------------------------------------

  lemma {:induction false} ChainedBounds(recs: seq<Rec>, from: nat, to: nat)
    requires Chained(recs, from, to)
    ensures from <= to
    ensures forall i :: 0 <= i < |recs| ==> from <= recs[i].start < recs[i].End() <= to
  {
    if recs != [] {
      ChainedBounds(recs[1..], recs[0].End(), to);
      forall i | 0 <= i < |recs| ensures from <= recs[i].start < recs[i].End() <= to {
        assert i > 0 ==> recs[i] == recs[1..][i - 1];
      }
    }
  }

  /** Splitting a chain at any record gives two chains that meet there. */
  lemma {:induction false} ChainedSplit(recs: seq<Rec>, from: nat, to: nat, n: nat) returns (mid: nat)
    requires Chained(recs, from, to) && n <= |recs|
    ensures Chained(recs[..n], from, mid) && Chained(recs[n..], mid, to)
    ensures n < |recs| ==> mid == recs[n].start
    ensures n == |recs| ==> mid == to
    ensures n > 0 ==> mid == recs[n - 1].End()
    ensures n == 0 ==> mid == from
  {
    if n == 0 {
      mid := from;
      assert recs[0..] == recs;
    } else {
      mid := ChainedSplit(recs[1..], recs[0].End(), to, n - 1);
      assert recs[1..][..n - 1] == recs[..n][1..] && recs[1..][n - 1..] == recs[n..];
      if n > 1 { assert recs[1..][n - 2] == recs[n - 1]; }
    }
  }

  lemma {:induction false} ChainedJoin(a: seq<Rec>, b: seq<Rec>, from: nat, mid: nat, to: nat)
    requires Chained(a, from, mid) && Chained(b, mid, to)
    ensures Chained(a + b, from, to)
  {
    if a == [] {
      assert a + b == b;
    } else {
      ChainedJoin(a[1..], b, a[0].End(), mid, to);
      assert (a + b)[1..] == a[1..] + b;
    }
  }

  /** Different records occupy disjoint ranges. */
  lemma ChainedApart(recs: seq<Rec>, from: nat, to: nat, i: nat, j: nat)
    requires Chained(recs, from, to) && i < j < |recs|
    ensures recs[i].End() <= recs[j].start
  {
    var mid := ChainedSplit(recs, from, to, i + 1);
    ChainedBounds(recs[i + 1..], mid, to);
    assert recs[j] == recs[i + 1..][j - i - 1];
  }

  lemma {:induction false} ChainedPhase(recs: seq<Rec>, from: nat, to: nat, i: nat, p: Phase)
    requires Chained(recs, from, to) && i < |recs|
    ensures Chained(recs[i := recs[i].(phase := p)], from, to)
  {
    var moved := recs[i := recs[i].(phase := p)];
    if i == 0 {
      assert moved[1..] == recs[1..];
    } else {
      ChainedPhase(recs[1..], recs[0].End(), to, i - 1, p);
      assert moved[1..] == recs[1..][i - 1 := recs[i].(phase := p)];
    }
  }

  lemma StartsPhase(recs: seq<Rec>, i: nat, p: Phase, lsn: nat)
    requires i < |recs| && HasStart(recs, lsn)
    ensures HasStart(recs[i := recs[i].(phase := p)], lsn)
  {
    var j :| 0 <= j < |recs| && recs[j].start == lsn;
    assert recs[i := recs[i].(phase := p)][j].start == lsn;
  }

  // ---------------------------------------------------------------------------
  // Each step keeps the layout
  // ---------------------------------------------------------------------------

  /** One owner changes phase and its slot follows; every other record is untouched. */
  lemma LayoutMove(m: Manager, n: Manager, recs: seq<Rec>, first: nat, i: nat, p: Phase)
    requires Layout(m, recs, first) && i < |recs| && !recs[i].phase.Done? && !p.Done?
    requires n.next == m.next && n.ready == m.ready && (m.poisoned ==> n.poisoned)
    requires n.slots.Keys == m.slots.Keys
    requires forall k :: k in m.slots && k != recs[i].start ==> n.slots[k] == m.slots[k]
    requires Slotted(n, recs[i].(phase := p))
    requires recs[i].start in n.slots ==> n.slots[recs[i].start].phase != Written
    ensures Layout(n, recs[i := recs[i].(phase := p)], first)
  {
    var moved := recs[i := recs[i].(phase := p)];
    TiledSameRanges(m.slots, n.slots, m.ready, m.next);
    ChainedPhase(recs, first, m.next, i, p);
    forall j | 0 <= j < |moved| ensures Slotted(n, moved[j]) {
      if j != i {
        assert Slotted(m, recs[j]);
        OtherStart(recs, first, m.next, i, j);
      }
    }
    forall k | k in n.slots ensures HasStart(moved, k) { StartsPhase(recs, i, p, k); }
  }

  lemma OtherStart(recs: seq<Rec>, from: nat, to: nat, i: nat, j: nat)
    requires Chained(recs, from, to) && i < |recs| && j < |recs| && i != j
    ensures recs[i].start != recs[j].start
  {
    ChainedBounds(recs, from, to);
    if i < j { ChainedApart(recs, from, to, i, j); } else { ChainedApart(recs, from, to, j, i); }
  }

  lemma MatchedReserve(m: Manager, recs: seq<Rec>, added: Rec)
    requires Matched(m, recs) && added.phase == Unresolved && m.ready <= added.start
    requires forall i :: 0 <= i < |recs| ==> recs[i].start < added.start
    ensures Matched(m.(next := added.End(), slots := m.slots[added.start := SlotState(SlotPhase.Reserved, added.End())]), recs + [added])
  {
    var n := m.(next := added.End(), slots := m.slots[added.start := SlotState(SlotPhase.Reserved, added.End())]);
    var longer := recs + [added];
    forall j | 0 <= j < |longer| ensures Slotted(n, longer[j]) {
      if j < |recs| { assert longer[j] == recs[j] && Slotted(m, recs[j]); }
    }
    forall k | k in n.slots ensures HasStart(longer, k) {
      if k == added.start {
        assert longer[|recs|].start == k;
      } else {
        var j :| 0 <= j < |recs| && recs[j].start == k;
        assert longer[j].start == k;
      }
    }
  }

  lemma LayoutReserve(m: Manager, recs: seq<Rec>, first: nat, bytes: seq<Byte>)
    requires Layout(m, recs, first) && Reserve(m, |bytes|).1.Ok?
    ensures Layout(Reserve(m, |bytes|).0, recs + [Rec(m.next, bytes, Unresolved)], first)
  {
    var added := Rec(m.next, bytes, Unresolved);
    TiledBounds(m.slots, m.ready, m.next);
    TiledExtend(m.slots, m.ready, m.next, SlotState(SlotPhase.Reserved, added.End()));
    ChainedBounds(recs, first, m.next);
    MatchedReserve(m, recs, added);
    assert Chained([added], m.next, added.End());
    assert Chained(recs + [added], first, added.End()) by {
      ChainedJoin(recs, [added], first, m.next, added.End());
    }
    var n := Reserve(m, |bytes|).0;
    assert Matched(n, recs + [added]);
    assert Tiled(n.slots, n.ready, n.next);
  }

  lemma MatchedMark(m: Manager, n: Manager, recs: seq<Rec>, first: nat, i: nat)
    requires Matched(m, recs) && Chained(recs, first, m.next)
    requires i < |recs| && recs[i].phase == Complete && !m.poisoned && m.ready <= n.ready
    requires var marked := m.slots[recs[i].start := SlotState(Written, recs[i].End())];
      && (forall k :: k in n.slots ==> k in marked && n.slots[k] == marked[k] && n.ready <= k)
      && (forall k :: k in marked && k !in n.slots ==> k < n.ready && marked[k].phase == Written)
    ensures Matched(n, recs[i := recs[i].(phase := Done)])
  {
    var moved := recs[i := recs[i].(phase := Done)];
    var marked := m.slots[recs[i].start := SlotState(Written, recs[i].End())];
    forall j | 0 <= j < |moved| ensures Slotted(n, moved[j]) {
      assert Slotted(m, recs[i]) && Slotted(m, recs[j]);
      assert m.ready <= recs[j].start ==> recs[j].start in marked;
      if j != i { OtherStart(recs, first, m.next, i, j); }
    }
    forall k | k in n.slots ensures HasStart(moved, k) {
      assert Slotted(m, recs[i]);
      StartsPhase(recs, i, Done, k);
    }
  }

  /** Accepting a written record moves the frontier over exactly the done records. */
  lemma LayoutMark(m: Manager, recs: seq<Rec>, first: nat, i: nat)
    requires Layout(m, recs, first) && i < |recs| && recs[i].phase == Complete && !m.poisoned
    ensures MarkWritten(m, recs[i].Slot()).1.Ok?
    ensures m.ready <= MarkWritten(m, recs[i].Slot()).0.ready
    ensures Layout(MarkWritten(m, recs[i].Slot()).0, recs[i := recs[i].(phase := Done)], first)
  {
    var r := recs[i];
    assert Slotted(m, r);
    var marked := m.slots[r.start := SlotState(Written, r.End())];
    var n := MarkWritten(m, r.Slot()).0;
    TiledSameRanges(m.slots, marked, m.ready, m.next);
    AdvanceTiled(marked, m.ready, m.next);
    TiledBounds(n.slots, n.ready, n.next);
    ChainedPhase(recs, first, m.next, i, Done);
    MatchedMark(m, n, recs, first, i);
  }
}
