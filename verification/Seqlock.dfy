/** A 96-bit timestamp behind a version counter: one writer, any number of readers. */
module Seqlock {
  import opened Timestamps

  /** The version counter is 64 bits wide; `version` counts its increments. */
  const VERSIONS: nat := 0x1_0000_0000_0000_0000

  datatype Writer = Resting | Bumped(value: Ts) | HalfStored(value: Ts) | Stored(value: Ts)

  /** A reader between its atomic steps; `since` is the version at which its load began. */
  datatype Reader =
    | Outside
    | Retrying(since: nat)
    | HasVersion(since: nat, s1: nat)
    | HasMs(since: nat, s1: nat, ms: nat)
    | HasBoth(since: nat, s1: nat, ms: nat, logical: nat)
    | Loaded(since: nat, s1: nat, s2: nat, result: Ts)

  /** `history` lists every value the cell has held. */
  datatype World = World(version: nat, ms: nat, logical: nat, writer: Writer, readers: seq<Reader>, history: seq<Ts>)

  datatype Step =
    | BeginStore(value: Ts) | StoreMs | StoreLogical | EndStore
    | BeginLoad(r: nat) | ReadVersion(r: nat) | ReadMs(r: nat) | ReadLogical(r: nat) | Recheck(r: nat)

  predicate Enabled(w: World, s: Step) {
    match s
    case BeginStore(_) => w.writer.Resting?
    case StoreMs => w.writer.Bumped?
    case StoreLogical => w.writer.HalfStored?
    case EndStore => w.writer.Stored?
    case BeginLoad(r) => r < |w.readers| && (w.readers[r].Outside? || w.readers[r].Loaded?)
    case ReadVersion(r) => r < |w.readers| && w.readers[r].Retrying?
    case ReadMs(r) => r < |w.readers| && w.readers[r].HasVersion?
    case ReadLogical(r) => r < |w.readers| && w.readers[r].HasMs?
    case Recheck(r) => r < |w.readers| && w.readers[r].HasBoth?
  }

  function With(w: World, r: nat, reader: Reader): World
    requires r < |w.readers|
  {
    w.(readers := w.readers[r := reader])
  }

  function Apply(w: World, s: Step): World
    requires Enabled(w, s)
  {
    match s
    case BeginStore(value) => w.(version := w.version + 1, writer := Bumped(value))
    case StoreMs => w.(ms := w.writer.value.ms, writer := HalfStored(w.writer.value))
    case StoreLogical => w.(logical := w.writer.value.logical, writer := Stored(w.writer.value))
    case EndStore => w.(version := w.version + 1, writer := Resting, history := w.history + [w.writer.value])
    case BeginLoad(r) => With(w, r, Retrying(w.version))
    case ReadVersion(r) =>
      if w.version % VERSIONS % 2 != 0 then w else With(w, r, HasVersion(w.readers[r].since, w.version))
    case ReadMs(r) => With(w, r, HasMs(w.readers[r].since, w.readers[r].s1, w.ms))
    case ReadLogical(r) => With(w, r, HasBoth(w.readers[r].since, w.readers[r].s1, w.readers[r].ms, w.logical))
    case Recheck(r) =>
      var reader := w.readers[r];
      if w.version % VERSIONS == reader.s1 % VERSIONS
      then With(w, r, Loaded(reader.since, reader.s1, w.version, Ts(reader.ms, reader.logical)))
      else With(w, r, Retrying(reader.since))
  }

  predicate WriterOk(w: World) {
    && w.history != []
    && var last := w.history[|w.history| - 1];
       match w.writer
       case Resting => w.version == 2 * (|w.history| - 1) && Ts(w.ms, w.logical) == last
       case Bumped(_) => w.version == 2 * (|w.history| - 1) + 1 && Ts(w.ms, w.logical) == last
       case HalfStored(v) => w.version == 2 * (|w.history| - 1) + 1 && w.ms == v.ms
       case Stored(v) => w.version == 2 * (|w.history| - 1) + 1 && Ts(w.ms, w.logical) == v
  }

  predicate ReaderOk(w: World, r: Reader)
    requires w.history != []
  {
    var last := w.history[|w.history| - 1];
    match r
    case Outside => true
    case Retrying(since) => since <= w.version
    case HasVersion(since, s1) => since <= s1 <= w.version && s1 % 2 == 0
    case HasMs(since, s1, ms) => since <= s1 <= w.version && s1 % 2 == 0 && (s1 == w.version ==> ms == last.ms)
    case HasBoth(since, s1, ms, logical) =>
      since <= s1 <= w.version && s1 % 2 == 0 && (s1 == w.version ==> Ts(ms, logical) == last)
    case Loaded(since, s1, s2, result) =>
      && since <= s1 <= s2 <= w.version && s1 % 2 == 0 && s1 / 2 < |w.history|
      && (s2 - s1) % VERSIONS == 0
      && (s1 == s2 ==> result == w.history[s1 / 2])
  }

  predicate Inv(w: World) {
    WriterOk(w) && forall r :: 0 <= r < |w.readers| ==> ReaderOk(w, w.readers[r])
  }

  /** A store in progress leaves readers of older versions alone. */
  lemma StoreStep(w: World, s: Step, r: Reader)
    requires WriterOk(w) && Enabled(w, s) && OfWriter(s)
    requires ReaderOk(w, r)
    ensures WriterOk(Apply(w, s)) && ReaderOk(Apply(w, s), r)
  {
  }

  predicate OfWriter(s: Step) { s.BeginStore? || s.StoreMs? || s.StoreLogical? || s.EndStore? }

  /** The reader that moves stays consistent with the cell; what it reads at an even version is current. */
  lemma LoadStep(w: World, s: Step)
    requires Inv(w) && Enabled(w, s) && !OfWriter(s)
    ensures ReaderOk(w, Apply(w, s).readers[s.r])
  {
    assert ReaderOk(w, w.readers[s.r]);
    if s.Recheck? { RecheckStep(w, w.readers[s.r]); }
  }

  lemma RecheckStep(w: World, r: Reader)
    requires WriterOk(w) && r.HasBoth? && ReaderOk(w, r)
    ensures w.version % VERSIONS == r.s1 % VERSIONS ==> ReaderOk(w, Loaded(r.since, r.s1, w.version, Ts(r.ms, r.logical)))
  {
    if w.version % VERSIONS == r.s1 % VERSIONS {
      assert (w.version - r.s1) % VERSIONS == 0;
      assert r.s1 / 2 <= w.version / 2 < |w.history|;
    }
  }

  /** Readers only depend on the version and the history. */
  lemma SameCell(w: World, v: World, r: Reader)
    requires w.version == v.version && w.history == v.history && w.history != []
    ensures ReaderOk(w, r) <==> ReaderOk(v, r)
  {
  }

  lemma StepInv(w: World, s: Step)
    requires Inv(w) && Enabled(w, s)
    ensures Inv(Apply(w, s)) && w.history <= Apply(w, s).history
  {
    var v := Apply(w, s);
    if OfWriter(s) {
      StoreStep(w, s, Outside);
      forall r | 0 <= r < |v.readers| ensures ReaderOk(v, v.readers[r]) { StoreStep(w, s, w.readers[r]); }
    } else {
      LoadStep(w, s);
      forall r | 0 <= r < |v.readers| ensures ReaderOk(v, v.readers[r]) {
        assert ReaderOk(w, w.readers[r]);
        SameCell(w, v, v.readers[r]);
      }
    }
  }

  predicate Run(w: World, steps: seq<Step>, v: World)
    decreases |steps|
  {
    if steps == [] then w == v else Enabled(w, steps[0]) && Run(Apply(w, steps[0]), steps[1..], v)
  }

  predicate Init(w: World, initial: Ts) {
    && w.version == 0 && Ts(w.ms, w.logical) == initial && w.writer.Resting? && w.history == [initial]
    && forall r :: 0 <= r < |w.readers| ==> w.readers[r].Outside?
  }

  lemma {:induction false} RunInv(w: World, steps: seq<Step>, v: World)
    requires Inv(w) && Run(w, steps, v)
    ensures Inv(v) && w.history <= v.history
    decreases |steps|
  {
    if steps != [] {
      StepInv(w, steps[0]);
      RunInv(Apply(w, steps[0]), steps[1..], v);
    }
  }

  /**
   A finished load returned one whole stored value, the one that was current at its version
   read and still at its re-check, unless the counter wrapped around in between: at
   least 2^63 stores within the one load.
   */
  lemma LoadIsAtomic(w: World, initial: Ts, steps: seq<Step>, v: World, r: nat)
    requires Init(w, initial) && Run(w, steps, v) && r < |v.readers| && v.readers[r].Loaded?
    ensures var l := v.readers[r];
      && l.since <= l.s1 <= l.s2 <= v.version && l.s1 / 2 < |v.history|
      && (l.result == v.history[l.s1 / 2] || l.s2 - l.s1 >= VERSIONS)
  {
    RunInv(w, steps, v);
    assert ReaderOk(v, v.readers[r]);
  }
}
