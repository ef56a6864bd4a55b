/** Overflow-page reference counts, and the handshake between snapshot construction and forced expiry. */
module Pins {
  import opened Bytes

  /**
   Building a snapshot in atomic steps. `built` are the handles cloned so far; `poisoned` is
   what the re-check saw. A finished empty snapshot is the same as `Outside`.
   */
  datatype Progress =
    | Outside
    | Checked
    | Cloning(built: multiset<nat>)
    | Rechecked(poisoned: bool, built: multiset<nat>)
    | Dropping(built: multiset<nat>)
    | Holding(built: multiset<nat>)

  datatype Reader = Reader(view: nat, at: Progress)

  datatype View = View(poisoned: bool, pins: nat)

  /**
   `shared` are the handles in version chains and transactions; `zeroed` are pages whose count
   reached zero and that are still to be put into the free queue.
   */
  datatype World = World(
    count: map<nat, nat>, shared: multiset<nat>, zeroed: multiset<nat>, queue: multiset<nat>,
    views: seq<View>, readers: seq<Reader>)

  datatype Step =
    | NewOwned(page: nat) | CloneShared(page: nat) | DropShared(page: nat) | Enqueue(page: nat) | Drain(page: nat)
    | PreCheck(r: nat) | Pin(r: nat) | CloneOne(r: nat, page: nat) | Recheck(r: nat) | Unpin(r: nat)
    | Release(r: nat) | DropOne(r: nat, page: nat) | Finish(r: nat)
    | Poison(v: nat) | ExpireReturns(v: nat)

  function Count(w: World, page: nat): nat { if page in w.count then w.count[page] else 0 }

  predicate Queued(w: World, page: nat) { page in w.zeroed || page in w.queue }

  predicate ReaderAt(w: World, r: nat) { r < |w.readers| && w.readers[r].view < |w.views| }

  /** A page is handed out again only after it left the queue; a clone borrows a live handle. */
  predicate Enabled(w: World, s: Step) {
    match s
    case NewOwned(page) => Count(w, page) == 0 && !Queued(w, page)
    case CloneShared(page) => page in w.shared && Count(w, page) < U32_MAX
    case DropShared(page) => page in w.shared
    case Enqueue(page) => page in w.zeroed
    case Drain(page) => page in w.queue
    case PreCheck(r) => ReaderAt(w, r) && w.readers[r].at.Outside?
    case Pin(r) => ReaderAt(w, r) && w.readers[r].at.Checked?
    case CloneOne(r, page) => ReaderAt(w, r) && w.readers[r].at.Cloning? && page in w.shared && Count(w, page) < U32_MAX
    case Recheck(r) => ReaderAt(w, r) && w.readers[r].at.Cloning?
    case Unpin(r) => ReaderAt(w, r) && w.readers[r].at.Rechecked? && w.views[w.readers[r].view].pins > 0
    case Release(r) => ReaderAt(w, r) && w.readers[r].at.Holding?
    case DropOne(r, page) => ReaderAt(w, r) && w.readers[r].at.Dropping? && page in w.readers[r].at.built
    case Finish(r) => ReaderAt(w, r) && w.readers[r].at == Dropping(multiset{})
    case Poison(v) => v < |w.views|
    case ExpireReturns(v) => v < |w.views| && w.views[v].poisoned && w.views[v].pins == 0
  }

  function Increment(w: World, page: nat): World { w.(count := w.count[page := Count(w, page) + 1]) }

  /** Decrement, and remember a page that reached zero. */
  function Decrement(w: World, page: nat): World {
    var post := if Count(w, page) > 0 then Count(w, page) - 1 else 0;
    w.(count := w.count[page := post], zeroed := if post == 0 then w.zeroed + multiset{page} else w.zeroed)
  }

  predicate OfReader(s: Step) {
    s.PreCheck? || s.Pin? || s.CloneOne? || s.Recheck? || s.Unpin? || s.Release? || s.DropOne? || s.Finish?
  }

  /** Where a reader's step takes it. */
  function Next(w: World, s: Step): Progress
    requires Enabled(w, s) && OfReader(s)
  {
    var poisoned, at := w.views[w.readers[s.r].view].poisoned, w.readers[s.r].at;
    match s
    case PreCheck(_) => if poisoned then Outside else Checked
    case Pin(_) => Cloning(multiset{})
    case CloneOne(_, page) => Cloning(at.built + multiset{page})
    case Recheck(_) => Rechecked(poisoned, at.built)
    case Unpin(_) => if at.poisoned then Dropping(at.built) else Holding(at.built)
    case Release(_) => Dropping(at.built)
    case DropOne(_, page) => Dropping(at.built - multiset{page})
    case Finish(_) => Outside
  }

  /** What a step does to everything but the readers. */
  function Effect(w: World, s: Step): World
    requires Enabled(w, s)
  {
    match s
    case NewOwned(page) => Increment(w, page).(shared := w.shared + multiset{page})
    case CloneShared(page) => Increment(w, page).(shared := w.shared + multiset{page})
    case DropShared(page) => Decrement(w, page).(shared := w.shared - multiset{page})
    case Enqueue(page) => w.(zeroed := w.zeroed - multiset{page}, queue := w.queue + multiset{page})
    case Drain(page) => w.(queue := w.queue - multiset{page})
    case Pin(r) => w.(views := Pinned(w.views, w.readers[r].view, 1))
    case CloneOne(_, page) => Increment(w, page)
    case Unpin(r) => w.(views := Pinned(w.views, w.readers[r].view, -1))
    case DropOne(_, page) => Decrement(w, page)
    case Poison(v) => w.(views := w.views[v := w.views[v].(poisoned := true)])
    case _ => w
  }

  function Apply(w: World, s: Step): World
    requires Enabled(w, s)
  {
    var x := Effect(w, s);
    if OfReader(s) then x.(readers := w.readers[s.r := Reader(w.readers[s.r].view, Next(w, s))]) else x
  }

  function Pinned(views: seq<View>, v: nat, delta: int): seq<View>
    requires v < |views| && views[v].pins + delta >= 0
  {
    views[v := views[v].(pins := views[v].pins + delta)]
  }

  // ---------------------------------------------------------------------------
  // Counting handles
  // ---------------------------------------------------------------------------

  function Built(at: Progress): multiset<nat> {
    match at
    case Outside => multiset{}
    case Checked => multiset{}
    case Cloning(b) => b
    case Rechecked(_, b) => b
    case Dropping(b) => b
    case Holding(b) => b
  }

  function BuiltOf(rs: seq<Reader>, page: nat): nat {
    if rs == [] then 0 else BuiltOf(rs[..|rs| - 1], page) + Built(rs[|rs| - 1].at)[page]
  }

  /** Every handle to the page in existence, half-built clones included. */
  function Handles(w: World, page: nat): nat { w.shared[page] + BuiltOf(w.readers, page) }

  lemma {:induction false} BuiltOfUpdate(rs: seq<Reader>, r: nat, x: Reader, page: nat)
    requires r < |rs|
    ensures BuiltOf(rs[r := x], page) - Built(x.at)[page] == BuiltOf(rs, page) - Built(rs[r].at)[page] >= 0
  {
    var n := |rs| - 1;
    if r == n {
      assert rs[r := x][..n] == rs[..n];
    } else {
      assert rs[r := x][..n] == rs[..n][r := x];
      BuiltOfUpdate(rs[..n], r, x, page);
    }
  }

  predicate InFlight(at: Progress) { at.Cloning? || at.Rechecked? }

  function PinsOf(rs: seq<Reader>, v: nat): nat {
    if rs == [] then 0
    else PinsOf(rs[..|rs| - 1], v) + if rs[|rs| - 1].view == v && InFlight(rs[|rs| - 1].at) then 1 else 0
  }

  lemma {:induction false} PinsOfUpdate(rs: seq<Reader>, r: nat, x: Reader, v: nat)
    requires r < |rs| && x.view == rs[r].view
    ensures PinsOf(rs[r := x], v) - (if x.view == v && InFlight(x.at) then 1 else 0)
         == PinsOf(rs, v) - (if x.view == v && InFlight(rs[r].at) then 1 else 0)
  {
    var n := |rs| - 1;
    if r == n {
      assert rs[r := x][..n] == rs[..n];
    } else {
      assert rs[r := x][..n] == rs[..n][r := x];
      PinsOfUpdate(rs[..n], r, x, v);
    }
  }

  ghost predicate CountsOk(w: World) {
    forall page :: Count(w, page) == Handles(w, page)
  }

  function Waiting(w: World, page: nat): nat { w.zeroed[page] + w.queue[page] }

  /** A waiting page waits once and has no handle. */
  ghost predicate QueueOk(w: World) {
    forall page :: Waiting(w, page) <= 1 && (Waiting(w, page) > 0 ==> Count(w, page) == 0)
  }

  ghost predicate PinsOk(w: World) {
    forall v :: 0 <= v < |w.views| ==> w.views[v].pins == PinsOf(w.readers, v)
  }

  ghost predicate Inv(w: World) { CountsOk(w) && QueueOk(w) && PinsOk(w) }

  /** How many handles to the page a step makes. */
  function Made(s: Step, page: nat): int {
    match s
    case NewOwned(p) => if p == page then 1 else 0
    case CloneShared(p) => if p == page then 1 else 0
    case CloneOne(_, p) => if p == page then 1 else 0
    case DropShared(p) => if p == page then -1 else 0
    case DropOne(_, p) => if p == page then -1 else 0
    case _ => 0
  }

  lemma HandlesStep(w: World, s: Step, page: nat)
    requires Enabled(w, s)
    ensures Handles(Apply(w, s), page) == Handles(w, page) + Made(s, page)
  {
    if OfReader(s) {
      BuiltStep(w, s, page);
      ReadersLeaveShared(w, s);
      BuiltOfUpdate(w.readers, s.r, Reader(w.readers[s.r].view, Next(w, s)), page);
    }
  }

  lemma BuiltStep(w: World, s: Step, page: nat)
    requires Enabled(w, s) && OfReader(s)
    ensures Built(Next(w, s))[page] == Built(w.readers[s.r].at)[page] + Made(s, page)
  {
    var at := w.readers[s.r].at;
    if s.CloneOne? {
      OneMore(at.built, s.page, page);
    } else if s.DropOne? {
      OneLess(at.built, s.page, page);
    } else {
      NoneMade(w, s, page);
    }
  }

  lemma OneMore(b: multiset<nat>, p: nat, page: nat)
    ensures (b + multiset{p})[page] == b[page] + if p == page then 1 else 0
  {
  }

  lemma OneLess(b: multiset<nat>, p: nat, page: nat)
    requires p in b
    ensures (b - multiset{p})[page] == b[page] - if p == page then 1 else 0
  {
  }

  lemma NoneMade(w: World, s: Step, page: nat)
    requires Enabled(w, s) && OfReader(s) && !s.CloneOne? && !s.DropOne?
    ensures Made(s, page) == 0 && Built(Next(w, s)) == Built(w.readers[s.r].at)
  {
  }

  lemma ReadersLeaveShared(w: World, s: Step)
    requires Enabled(w, s) && OfReader(s)
    ensures Apply(w, s).shared == w.shared
  {
  }

  lemma CountStep(w: World, s: Step, page: nat)
    requires CountsOk(w) && Enabled(w, s)
    ensures Count(Apply(w, s), page) == Count(w, page) + Made(s, page)
  {
    assert Count(w, page) == Handles(w, page);
    HandlesStep(w, s, page);
    if s.DropOne? && s.page == page { BuiltOfUpdate(w.readers, s.r, w.readers[s.r], page); }
  }

  /** A page starts to wait exactly when its last handle goes. */
  lemma WaitingStep(w: World, s: Step, page: nat)
    requires CountsOk(w) && Enabled(w, s) && !s.Drain?
    ensures Waiting(Apply(w, s), page) == Waiting(w, page) + if Made(s, page) < 0 && Count(w, page) == 1 then 1 else 0
  {
    CountStep(w, s, page);
  }

  lemma QueueStep(w: World, s: Step)
    requires CountsOk(w) && QueueOk(w) && Enabled(w, s)
    ensures QueueOk(Apply(w, s))
  {
    var x := Apply(w, s);
    forall page ensures Waiting(x, page) <= 1 && (Waiting(x, page) > 0 ==> Count(x, page) == 0) {
      assert Waiting(w, page) <= 1 && (Waiting(w, page) > 0 ==> Count(w, page) == 0);
      CountStep(w, s, page);
      if !s.Drain? { WaitingStep(w, s, page); }
      if Made(s, page) != 0 { MadeFromLive(w, s, page); }
    }
  }

  /** Clones and drops need a handle; a new owner needs a page that does not wait. */
  lemma MadeFromLive(w: World, s: Step, page: nat)
    requires CountsOk(w) && Enabled(w, s) && Made(s, page) != 0
    ensures if s.NewOwned? then Waiting(w, page) == 0 else Count(w, page) > 0
  {
    assert Count(w, page) == Handles(w, page);
    if s.DropOne? { BuiltOfUpdate(w.readers, s.r, w.readers[s.r], page); }
  }

  lemma PinsStep(w: World, s: Step)
    requires PinsOk(w) && Enabled(w, s)
    ensures PinsOk(Apply(w, s))
  {
    var x := Apply(w, s);
    forall v | 0 <= v < |x.views| ensures x.views[v].pins == PinsOf(x.readers, v) {
      if OfReader(s) { PinsOfUpdate(w.readers, s.r, x.readers[s.r], v); }
    }
  }

  lemma StepInv(w: World, s: Step)
    requires Inv(w) && Enabled(w, s)
    ensures Inv(Apply(w, s))
  {
    var x := Apply(w, s);
    forall page ensures Count(x, page) == Handles(x, page) {
      assert Count(w, page) == Handles(w, page);
      HandlesStep(w, s, page);
      CountStep(w, s, page);
    }
    QueueStep(w, s);
    PinsStep(w, s);
  }

  predicate Run(w: World, steps: seq<Step>, x: World)
    decreases |steps|
  {
    if steps == [] then w == x else Enabled(w, steps[0]) && Run(Apply(w, steps[0]), steps[1..], x)
  }

  predicate Init(w: World) {
    && w.count == map[] && w.shared == multiset{} && w.zeroed == multiset{} && w.queue == multiset{}
    && (forall v :: 0 <= v < |w.views| ==> w.views[v] == View(false, 0))
    && forall r :: 0 <= r < |w.readers| ==> w.readers[r].at.Outside?
  }

  lemma {:induction false} NoneBuilt(rs: seq<Reader>, v: nat)
    requires forall r :: 0 <= r < |rs| ==> rs[r].at.Outside?
    ensures BuiltOf(rs, v) == 0 && PinsOf(rs, v) == 0
  {
    if rs != [] { NoneBuilt(rs[..|rs| - 1], v); }
  }

  lemma InitInv(w: World)
    requires Init(w)
    ensures Inv(w)
  {
    forall v: nat ensures PinsOf(w.readers, v) == 0 == BuiltOf(w.readers, v) { NoneBuilt(w.readers, v); }
  }

  lemma {:induction false} RunInv(w: World, steps: seq<Step>, x: World)
    requires Inv(w) && Run(w, steps, x)
    ensures Inv(x)
    decreases |steps|
  {
    if steps != [] {
      StepInv(w, steps[0]);
      RunInv(Apply(w, steps[0]), steps[1..], x);
    }
  }

  // ---------------------------------------------------------------------------
  // Main results
  // ---------------------------------------------------------------------------

  /**
   In every interleaving a page's count is the number of handles to it, a page waiting to be
   freed has none and waits once, and so no page with a handle is ever freed or freed twice.
   */
  lemma CountsAreHandles(w: World, steps: seq<Step>, x: World, page: nat)
    requires Init(w) && Run(w, steps, x)
    ensures Count(x, page) == Handles(x, page)
    ensures Waiting(x, page) <= 1 && (Waiting(x, page) > 0 ==> Handles(x, page) == 0)
  {
    InitInv(w);
    RunInv(w, steps, x);
  }

  /** A page starts to wait for the free queue exactly by the step that drops its last handle. */
  lemma WaitsAtZero(w: World, s: Step, page: nat)
    requires Inv(w) && Enabled(w, s)
    ensures var x := Apply(w, s);
      Waiting(x, page) > Waiting(w, page) <==> Handles(w, page) > 0 && Handles(x, page) == 0
  {
    assert Count(w, page) == Handles(w, page);
    HandlesStep(w, s, page);
    if !s.Drain? { WaitingStep(w, s, page); }
    if Made(s, page) != 0 { MadeFromLive(w, s, page); }
  }

  /** No clone, finished or half-built, brings a page back from zero: only a new owner does. */
  lemma {:induction false} ZeroStaysZero(w: World, steps: seq<Step>, x: World, page: nat)
    requires Inv(w) && Run(w, steps, x) && Count(w, page) == 0
    requires forall i :: 0 <= i < |steps| ==> steps[i] != NewOwned(page)
    ensures Count(x, page) == 0
    decreases |steps|
  {
    if steps != [] {
      StepInv(w, steps[0]);
      CountStep(w, steps[0], page);
      if Made(steps[0], page) != 0 { MadeFromLive(w, steps[0], page); }
      forall i | 0 <= i < |steps[1..]| ensures steps[1..][i] != NewOwned(page) { assert steps[1..][i] == steps[i + 1]; }
      ZeroStaysZero(Apply(w, steps[0]), steps[1..], x, page);
    }
  }

  /** When forced expiry returns, no construction of that view is between its pin and its unpin. */
  lemma ExpiryDrainsPins(w: World, v: nat, r: nat)
    requires Inv(w) && Enabled(w, ExpireReturns(v)) && r < |w.readers| && w.readers[r].view == v
    ensures !InFlight(w.readers[r].at)
  {
    PinsOfUpdate(w.readers, r, Reader(v, Outside), v);
  }

  /** Poisoned, and not yet past the re-check. */
  predicate Doomed(w: World, r: nat) {
    && ReaderAt(w, r) && w.views[w.readers[r].view].poisoned
    && match w.readers[r].at
       case Rechecked(poisoned, _) => poisoned
       case Holding(_) => false
       case _ => true
  }

  lemma DoomedStep(w: World, s: Step, r: nat)
    requires Doomed(w, r) && Enabled(w, s)
    ensures Doomed(Apply(w, s), r)
  {
  }

  /**
   Any construction whose re-check follows the poison store, even one that pinned after forced
   expiry had returned, never becomes a snapshot: it ends with nothing, and outside of the
   construction every page's count is that of the handles that others have.
   */
  lemma {:induction false} PoisonedSnapshotIsEmpty(w: World, steps: seq<Step>, x: World, r: nat)
    requires Doomed(w, r) && Run(w, steps, x)
    ensures Doomed(x, r) && !x.readers[r].at.Holding?
    ensures Inv(w) && x.readers[r].at.Outside? ==>
      forall page :: Count(x, page) == x.shared[page] + BuiltOf(Others(x.readers, r), page)
    decreases |steps|
  {
    if steps != [] {
      DoomedStep(w, steps[0], r);
      if Inv(w) { StepInv(w, steps[0]); }
      PoisonedSnapshotIsEmpty(Apply(w, steps[0]), steps[1..], x, r);
    } else if Inv(w) && x.readers[r].at.Outside? {
      forall page ensures Count(x, page) == x.shared[page] + BuiltOf(Others(x.readers, r), page) {
        assert Count(x, page) == Handles(x, page);
        BuiltOfOthers(x.readers, r, page);
      }
    }
  }

  function Others(rs: seq<Reader>, r: nat): seq<Reader>
    requires r < |rs|
  {
    rs[..r] + rs[r + 1..]
  }

  lemma {:induction false} BuiltOfOthers(rs: seq<Reader>, r: nat, page: nat)
    requires r < |rs|
    ensures BuiltOf(rs, page) == BuiltOf(Others(rs, r), page) + Built(rs[r].at)[page]
  {
    var n := |rs| - 1;
    if r == n {
      assert Others(rs, r) == rs[..n];
    } else {
      assert rs[..n][..r] == rs[..r] && Others(rs, r)[..n - 1] == Others(rs[..n], r);
      assert Others(rs, r)[n - 1] == rs[n];
      BuiltOfOthers(rs[..n], r, page);
    }
  }

  lemma FirstStep(w: World, s: Step, rest: seq<Step>, x: World)
    requires Enabled(w, s) && Run(Apply(w, s), rest, x)
    ensures Run(w, [s] + rest, x)
  {
    assert ([s] + rest)[1..] == rest;
  }

  /** Before the poison: a page is there and the reader has passed its first check. */
  lemma CheckedFirst(w: World, r: nat, page: nat) returns (x: World)
    requires Init(w) && ReaderAt(w, r)
    ensures Enabled(w, NewOwned(page)) && Enabled(Apply(w, NewOwned(page)), PreCheck(r))
    ensures x == Apply(Apply(w, NewOwned(page)), PreCheck(r))
    ensures ReaderAt(x, r) && x.readers[r] == Reader(w.readers[r].view, Checked) && x.views == w.views
    ensures page in x.shared && Count(x, page) == 1
  {
    x := Apply(Apply(w, NewOwned(page)), PreCheck(r));
  }

  lemma PinsAndClones(w: World, r: nat, page: nat) returns (x: World)
    requires ReaderAt(w, r) && w.readers[r].at.Checked? && page in w.shared && Count(w, page) < U32_MAX
    ensures Run(w, [Pin(r), CloneOne(r, page)], x) && |x.readers| == |w.readers| && |x.views| == |w.views|
    ensures var v := w.readers[r].view;
      x.readers[r] == Reader(v, Cloning(multiset{page})) && x.views[v] == w.views[v].(pins := w.views[v].pins + 1)
  {
    var mid := Apply(w, Pin(r));
    x := Apply(mid, CloneOne(r, page));
    assert multiset{} + multiset{page} == multiset{page};
    FirstStep(mid, CloneOne(r, page), [], x);
    FirstStep(w, Pin(r), [CloneOne(r, page)], x);
    assert [CloneOne(r, page)] + [] == [CloneOne(r, page)] && [Pin(r)] + [CloneOne(r, page)] == [Pin(r), CloneOne(r, page)];
  }

  /** After the check: the view is poisoned, forced expiry returns, and the reader pins and clones all the same. */
  lemma ClonesAfterExpiry(w: World, r: nat, page: nat) returns (x: World)
    requires ReaderAt(w, r) && w.readers[r].at.Checked? && w.views[w.readers[r].view] == View(false, 0)
    requires page in w.shared && Count(w, page) < U32_MAX
    ensures var v := w.readers[r].view;
      && Run(w, [Poison(v), ExpireReturns(v), Pin(r), CloneOne(r, page)], x)
      && |x.readers| == |w.readers| && |x.views| == |w.views|
      && x.readers[r] == Reader(v, Cloning(multiset{page})) && x.views[v] == View(true, 1)
  {
    var v := w.readers[r].view;
    var mid := Apply(w, Poison(v));
    x := PinsAndClones(mid, r, page);
    var rest := [Pin(r), CloneOne(r, page)];
    FirstStep(mid, ExpireReturns(v), rest, x);
    FirstStep(w, Poison(v), [ExpireReturns(v)] + rest, x);
    assert [Poison(v)] + ([ExpireReturns(v)] + rest) == [Poison(v), ExpireReturns(v), Pin(r), CloneOne(r, page)];
  }

  /**
   The first check alone is not enough: from every initial state there is a run in which a construction
   that passed it pins and clones after forced expiry has returned.
   */
  lemma PreCheckIsNotEnough(w: World, r: nat, page: nat) returns (x: World)
    requires Init(w) && ReaderAt(w, r)
    ensures var v := w.readers[r].view;
      && Run(w, [NewOwned(page), PreCheck(r), Poison(v), ExpireReturns(v), Pin(r), CloneOne(r, page)], x)
      && |x.readers| == |w.readers| && |x.views| == |w.views|
      && x.readers[r] == Reader(v, Cloning(multiset{page})) && x.views[v] == View(true, 1)
  {
    var v := w.readers[r].view;
    var a := Apply(w, NewOwned(page));
    var b := CheckedFirst(w, r, page);
    x := ClonesAfterExpiry(b, r, page);
    var rest := [Poison(v), ExpireReturns(v), Pin(r), CloneOne(r, page)];
    FirstStep(a, PreCheck(r), rest, x);
    FirstStep(w, NewOwned(page), [PreCheck(r)] + rest, x);
    assert [NewOwned(page)] + ([PreCheck(r)] + rest)
        == [NewOwned(page), PreCheck(r), Poison(v), ExpireReturns(v), Pin(r), CloneOne(r, page)];
  }
}
