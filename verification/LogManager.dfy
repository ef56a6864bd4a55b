/**
 The in-memory half of the byte-LSN log manager. Every section that the source runs
 under the slots mutex is one function on the `Manager` value; the class `LogManager`
 performs the same sections in place and is proved equal to them.
 */
module LogSlots {
  import opened Bytes

  datatype SlotPhase = Reserved | Writing | WriteComplete | Written | Poisoned

  /** One entry of the slot map, keyed by the slot's start LSN. */
  datatype SlotState = SlotState(phase: SlotPhase, end: nat)

  /** The byte range handed to one writer. */
  datatype LogSlot = LogSlot(start: nat, end: nat, len: nat)

  datatype Manager = Manager(
    next: nat, ready: nat, durable: nat,
    slots: map<nat, SlotState>, poisoned: bool, syncing: bool)

  /** `Fatal` is the poisoned-engine error, `Internal` every other error. */
  datatype Outcome<T> = Ok(value: T) | Fatal | Internal

  function Fresh(lsn: nat): Manager {
    Manager(lsn, lsn, lsn, map[], false, false)
  }

  /** The slots, seen as byte ranges, cover `[ready, next)` exactly once and in order. */
  ghost predicate Tiled(slots: map<nat, SlotState>, ready: nat, next: nat)
    decreases |slots|
  {
    if slots == map[] then ready == next
    else ready in slots && ready < slots[ready].end && Tiled(slots - {ready}, slots[ready].end, next)
  }

  function Reserve(m: Manager, len: nat): (r: (Manager, Outcome<LogSlot>)) {
    if len == 0 then (m, Internal)
    else if m.poisoned then (m, Fatal)
    else if m.next + len > U64_MAX then (m, Internal)
    else
      var end := m.next + len;
      var inserted := m.(slots := m.slots[m.next := SlotState(Reserved, end)]);
      if m.next in m.slots then (inserted, Internal)
      else (inserted.(next := end), Ok(LogSlot(m.next, end, len)))
  }

  /** Poisoning keeps every frontier and releases the sync flag. */
  function Poison(m: Manager): (r: Manager) {
    m.(poisoned := true, syncing := false)
  }

  function PoisonSlot(m: Manager, slot: LogSlot): (r: Manager) {
    Poison(m).(slots := m.slots[slot.start := SlotState(Poisoned, slot.end)])
  }

  /** The slot map still holds `slot` under its own end LSN. */
  predicate Holds(m: Manager, slot: LogSlot) {
    slot.start in m.slots && m.slots[slot.start].end == slot.end
  }

  /** Move `slot` from phase `from` to phase `to`, with the source's three error branches. */
  function Transition(m: Manager, slot: LogSlot, from: SlotPhase, to: SlotPhase): (r: (Manager, Outcome<()>)) {
    if m.poisoned then (m, Fatal)
    else if !Holds(m, slot) then (m, Internal)
    else if m.slots[slot.start].phase != from then (PoisonSlot(m, slot), Fatal)
    else (m.(slots := m.slots[slot.start := SlotState(to, slot.end)]), Ok(()))
  }

  /** Consume consecutive `Written` slots from `ready` on. */
  function Advance(slots: map<nat, SlotState>, ready: nat): (r: (map<nat, SlotState>, nat))
    ensures r.1 in r.0 ==> r.0[r.1].phase != Written
    decreases |slots|
  {
    if ready in slots && slots[ready].phase == Written
    then Shrinks(slots, ready); Advance(slots - {ready}, slots[ready].end)
    else (slots, ready)
  }

  lemma Shrinks(slots: map<nat, SlotState>, k: nat)
    requires k in slots
    ensures |slots - {k}| < |slots|
  {
    assert (slots - {k}).Keys == slots.Keys - {k};
    assert |slots - {k}| == |(slots - {k}).Keys|;
  }

  function MarkWritten(m: Manager, slot: LogSlot): (r: (Manager, Outcome<()>)) {
    var (marked, outcome) := Transition(m, slot, WriteComplete, Written);
    if !outcome.Ok? then (marked, outcome)
    else
      var (slots, ready) := Advance(marked.slots, marked.ready);
      (marked.(slots := slots, ready := ready), outcome)
  }

  // ---------------------------------------------------------------------------
  // Tiling lemmas
  // ---------------------------------------------------------------------------

  /** Tiled slots start at or after `ready`, end at or before `next`, and never overlap. */
  lemma {:induction false} TiledBounds(slots: map<nat, SlotState>, ready: nat, next: nat)
    requires Tiled(slots, ready, next)
    ensures ready <= next
    ensures forall k :: k in slots ==> ready <= k < slots[k].end <= next
    ensures forall j, k :: j in slots && k in slots && j < k ==> slots[j].end <= k
    ensures ready < next ==> ready in slots
    decreases |slots|
  {
    if slots != map[] {
      Shrinks(slots, ready);
      var rest := slots - {ready};
      TiledBounds(rest, slots[ready].end, next);
      forall k | k in slots ensures ready <= k < slots[k].end <= next {
        assert k == ready || (k in rest && rest[k] == slots[k]);
      }
      forall j, k | j in slots && k in slots && j < k ensures slots[j].end <= k {
        assert k in rest && (j == ready || j in rest);
      }
    }
  }

  /** Tiling looks only at the byte ranges, not at the phases. */
  lemma {:induction false} TiledSameRanges(a: map<nat, SlotState>, b: map<nat, SlotState>, ready: nat, next: nat)
    requires Tiled(a, ready, next)
    requires a.Keys == b.Keys && forall k :: k in a ==> a[k].end == b[k].end
    ensures Tiled(b, ready, next)
    decreases |a|
  {
    if a == map[] {
      assert b.Keys == {};
      assert b == map[];
    } else {
      assert ready in b;
      Shrinks(a, ready);
      assert (a - {ready}).Keys == (b - {ready}).Keys;
      TiledSameRanges(a - {ready}, b - {ready}, a[ready].end, next);
    }
  }

  /** Reserving at `next` extends the tiling. */
  lemma {:induction false} TiledExtend(slots: map<nat, SlotState>, ready: nat, next: nat, s: SlotState)
    requires Tiled(slots, ready, next) && next < s.end
    ensures next !in slots
    ensures Tiled(slots[next := s], ready, s.end)
    decreases |slots|
  {
    var ext := slots[next := s];
    TiledBounds(slots, ready, next);
    if slots == map[] {
      assert ext - {ready} == map[];
    } else {
      Shrinks(slots, ready);
      TiledExtend(slots - {ready}, slots[ready].end, next, s);
      assert ext - {ready} == (slots - {ready})[next := s];
    }
  }

  /** `Advance` keeps the tiling, consumes only `Written` slots and all slots below the new frontier. */
  lemma {:induction false} AdvanceTiled(slots: map<nat, SlotState>, ready: nat, next: nat)
    requires Tiled(slots, ready, next)
    ensures var (rest, to) := Advance(slots, ready);
      && ready <= to <= next
      && Tiled(rest, to, next)
      && (forall k :: k in rest ==> k in slots && rest[k] == slots[k])
      && (forall k :: k in slots && k !in rest ==> k < to && slots[k].phase == Written)
      && (forall k :: k in slots && to <= k ==> k in rest)
    decreases |slots|
  {
    TiledBounds(slots, ready, next);
    if ready in slots && slots[ready].phase == Written {
      Shrinks(slots, ready);
      var end := slots[ready].end;
      AdvanceTiled(slots - {ready}, end, next);
      var (rest, to) := Advance(slots - {ready}, end);
      assert Advance(slots, ready) == (rest, to);
    }
  }

  // ---------------------------------------------------------------------------
  // The object that the writers share
  // ---------------------------------------------------------------------------

  /** One reply of the underlying positioned writer: an error, or a byte count. */
  datatype IoReply = IoError | Wrote(n: nat)

  class LogManager {
    var nextLsn: nat
    var readyLsn: nat
    var durableLsn: nat
    var slots: map<nat, SlotState>
    var poisoned: bool
    var syncInProgress: bool
    var file: seq<Byte>

    function View(): Manager
      reads this
    {
      Manager(nextLsn, readyLsn, durableLsn, slots, poisoned, syncInProgress)
    }

    constructor (file: seq<Byte>, initialLsn: nat)
      ensures View() == Fresh(initialLsn) && this.file == file
    {
      nextLsn, readyLsn, durableLsn := initialLsn, initialLsn, initialLsn;
      slots, poisoned, syncInProgress := map[], false, false;
      this.file := file;
    }

    method ReserveSlot(len: nat) returns (r: Outcome<LogSlot>)
      modifies this
      ensures (View(), r) == Reserve(old(View()), len) && file == old(file)
      ensures r.Ok? ==> r.value.start == old(nextLsn) && r.value.end == nextLsn
    {
      if len == 0 { return Internal; }
      if poisoned { return Fatal; }
      var start := nextLsn;
      if start + len > U64_MAX { return Internal; }
      var duplicate := start in slots;
      slots := slots[start := SlotState(Reserved, start + len)];
      if duplicate { return Internal; }
      nextLsn := start + len;
      return Ok(LogSlot(start, start + len, len));
    }

    method PoisonWith(slot: LogSlot)
      modifies this
      ensures View() == PoisonSlot(old(View()), slot) && file == old(file)
    {
      poisoned := true;
      slots := slots[slot.start := SlotState(Poisoned, slot.end)];
      syncInProgress := false;
    }

    method Move(slot: LogSlot, from: SlotPhase, to: SlotPhase) returns (r: Outcome<()>)
      modifies this
      ensures (View(), r) == Transition(old(View()), slot, from, to) && file == old(file)
    {
      if poisoned { return Fatal; }
      if slot.start !in slots || slots[slot.start].end != slot.end { return Internal; }
      if slots[slot.start].phase != from {
        PoisonWith(slot);
        return Fatal;
      }
      slots := slots[slot.start := SlotState(to, slot.end)];
      return Ok(());
    }

    /**
     The retry loop over short positioned writes. Success means that all of `data` is in
     the file; a failure leaves some prefix of it behind and never reports success.
     */
    method WriteAllAt(off: nat, data: seq<Byte>, replies: seq<IoReply>) returns (ok: bool)
      modifies this`file
      ensures ok ==> file == WriteAt(old(file), off, data)
      ensures !ok ==> exists k :: 0 <= k < |data| && file == WriteAt(old(file), off, data[..k])
    {
      var done, turn := 0, 0;
      assert data[..0] == [];
      while done < |data|
        invariant 0 <= done <= |data| && 0 <= turn <= |replies|
        invariant file == WriteAt(old(file), off, data[..done])
        decreases |data| - done
      {
        // A writer that stops replying counts as a failed one.
        if turn == |replies| || replies[turn].IoError? || replies[turn].n == 0 { return false; }
        var n := if replies[turn].n <= |data| - done then replies[turn].n else |data| - done;
        WriteAtJoins(old(file), off, data[..done], data[done..done + n]);
        assert data[..done] + data[done..done + n] == data[..done + n];
        file := WriteAt(file, off + done, data[done..done + n]);
        done, turn := done + n, turn + 1;
      }
      assert data[..done] == data;
      return true;
    }

    /** Write a record into its slot, without making it ready. */
    method WriteReserved(slot: LogSlot, bytes: seq<Byte>, replies: seq<IoReply>) returns (r: Outcome<()>)
      modifies this
      ensures r.Ok? ==>
        && |bytes| == slot.len
        && file == WriteAt(old(file), slot.start, bytes)
        && Transition(old(View()), slot, Reserved, Writing).1.Ok?
        && (View(), r) == Transition(Transition(old(View()), slot, Reserved, Writing).0, slot, Writing, WriteComplete)
      ensures readyLsn == old(readyLsn) && nextLsn == old(nextLsn) && durableLsn == old(durableLsn)
      ensures |bytes| != slot.len ==> r == Fatal && View() == PoisonSlot(old(View()), slot) && file == old(file)
      ensures r == Internal ==> View() == old(View()) && file == old(file)
      ensures r == Fatal ==> poisoned
    {
      if |bytes| != slot.len {
        PoisonWith(slot);
        return Fatal;
      }
      r := Move(slot, Reserved, Writing);
      if !r.Ok? { return; }
      var written := WriteAllAt(slot.start, bytes, replies);
      if !written {
        PoisonWith(slot);
        return Fatal;
      }
      r := Move(slot, Writing, WriteComplete);
    }

    /** Accept a completely written slot and advance the contiguous ready frontier. */
    method MarkSlotWritten(slot: LogSlot) returns (r: Outcome<()>)
      modifies this
      ensures (View(), r) == MarkWritten(old(View()), slot) && file == old(file)
    {
      r := Move(slot, WriteComplete, Written);
      if !r.Ok? { return; }
      ghost var marked := View();
      var ready := readyLsn;
      while ready in slots && slots[ready].phase == Written
        invariant View() == marked.(slots := slots) && file == old(file)
        invariant Advance(marked.slots, marked.ready) == Advance(slots, ready)
        decreases |slots|
      {
        Shrinks(slots, ready);
        var end := slots[ready].end;
        slots := slots - {ready};
        ready := end;
      }
      readyLsn := ready;
    }
  }
}
