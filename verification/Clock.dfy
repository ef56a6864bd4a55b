/** The commit clock and its floor after recovery. */
module Clock {
  import opened Bytes
  import opened Timestamps
  import opened JournalScan
  import opened Options
  import opened RecoverySpec
  import opened RecoveryCut

  /** The least greater timestamp; only the largest has none. */
  function Successor(t: Ts): (r: Option<Ts>)
    ensures t.Valid() ==> (r.None? <==> t == MAX)
    ensures r.Some? ==> t.Lt(r.value) && forall u: Ts :: u.Valid() && t.Lt(u) ==> r.value.Le(u)
  {
    if t.logical < U32_MAX then Some(Ts(t.ms, t.logical + 1))
    else if t.ms < U64_MAX then Some(Ts(t.ms + 1, 0))
    else None
  }

  /**
   The clock after one commit at wall time `wall`: the least timestamp above `t` that is not behind the
   wall clock. `None` when that would need a millisecond that has not come yet.
   */
  function Tick(t: Ts, wall: nat): (r: Option<Ts>)
    ensures r.Some? ==> t.Lt(r.value) && wall <= r.value.ms
    ensures r.Some? ==> forall u: Ts :: t.Lt(u) && wall <= u.ms ==> r.value.Le(u)
    ensures r.None? ==> wall <= t.ms && forall u: Ts :: u.Valid() && t.Lt(u) ==> t.ms < u.ms
  {
    if t.ms < wall then Some(Ts(wall, 0))
    else if t.logical == U32_MAX then None
    else Some(Ts(t.ms, t.logical + 1))
  }

  class TimestampOracle {
    var hlc: Ts

    constructor ()
      ensures hlc == ZERO
    {
      hlc := ZERO;
    }

    method Commit(wall: nat) returns (r: Option<Ts>)
      modifies this
      ensures r == Tick(old(hlc), wall)
      ensures hlc == if r.Some? then r.value else old(hlc)
    {
      if wall > hlc.ms {
        hlc := Ts(wall, 0);
      } else if hlc.logical == U32_MAX {
        return None;
      } else {
        hlc := Ts(hlc.ms, hlc.logical + 1);
      }
      return Some(hlc);
    }

    method SetMin(min: Ts)
      modifies this
      ensures hlc == old(hlc).Max(min)
    {
      if hlc.Lt(min) { hlc := min; }
    }
  }

  datatype Event = Committing(wall: nat) | Flooring(min: Ts)

  /** The timestamps issued by a run of the oracle. */
  function Issued(t: Ts, events: seq<Event>): seq<Ts>
    decreases |events|
  {
    if events == [] then []
    else match events[0]
      case Flooring(min) => Issued(t.Max(min), events[1..])
      case Committing(wall) =>
        match Tick(t, wall)
        case None => Issued(t, events[1..])
        case Some(u) => [u] + Issued(u, events[1..])
  }

  /** Whatever the wall clock does, issued timestamps strictly increase and exceed the starting point. */
  lemma {:induction false} IssuedIncrease(t: Ts, events: seq<Event>)
    ensures forall i :: 0 <= i < |Issued(t, events)| ==> t.Lt(Issued(t, events)[i])
    ensures forall i, j :: 0 <= i < j < |Issued(t, events)| ==> Issued(t, events)[i].Lt(Issued(t, events)[j])
    decreases |events|
  {
    if events != [] {
      match events[0]
      case Flooring(min) =>
        IssuedIncrease(t.Max(min), events[1..]);
      case Committing(wall) =>
        match Tick(t, wall) {
          case None => IssuedIncrease(t, events[1..]);
          case Some(u) => IssuedIncrease(u, events[1..]);
        }
    }
  }

  /** The oracle that opening the database starts with; `None` when no timestamp is left above the recovered one. */
  function Floored(newest: Option<Ts>): Option<Ts> {
    if newest.None? then Some(ZERO)
    else match Successor(newest.value)
      case None => None
      case Some(next) => Some(ZERO.Max(next))
  }

  /**
   After recovery every timestamp the oracle ever issues exceeds each replayed commit's, each
   boundary's and the header's.
   */
  lemma ClockAfterRecovery(h: FileHeader, rs: seq<LogRecord>, boundaryTs: Option<Ts>, events: seq<Event>)
    requires IsMaxBoundaryTs(rs, |rs|, boundaryTs)
    requires var cs := Commits(rs, h.appliedLsn); Floored(NewestAfter(StartTs(h, boundaryTs), cs, |cs|)).Some?
    ensures var cs := Commits(rs, h.appliedLsn);
      var floor := Floored(NewestAfter(StartTs(h, boundaryTs), cs, |cs|)).value;
      forall i :: 0 <= i < |Issued(floor, events)| ==>
        && (forall r: LogRecord :: r in rs && IsCommit(r) && Above(r, h.appliedLsn) ==> r.commitTs.Lt(Issued(floor, events)[i]))
        && (forall r: LogRecord :: r in rs && IsBoundary(r) ==> BoundaryTs(r).Lt(Issued(floor, events)[i]))
        && h.lastCheckpointTs.Lt(Issued(floor, events)[i])
  {
    var cs := Commits(rs, h.appliedLsn);
    var newest := NewestAfter(StartTs(h, boundaryTs), cs, |cs|);
    var floor := Floored(newest).value;
    RecoveredTsCovers(h, rs, boundaryTs);
    IssuedIncrease(floor, events);
    assert OrZero(newest).Le(floor);
  }
}
