/** The passes of recovery as they run over an accepted log, updating the main file. */
module Recovery {
  import opened Bytes
  import opened Timestamps
  import opened JournalScan
  import opened Options
  import opened MainFile
  import opened RecoverySpec

  datatype Index = Index(
    maxBatch: Option<nat>, batchIds: map<nat, nat>, highestTs: Option<Ts>, latest: Option<FileHeader>)

  datatype Partition = Partition(pending: map<nat, seq<PageImage>>, orphan: Option<nat>)

  ghost predicate IndexOk(index: Index, rs: seq<LogRecord>, n: nat, frontier: nat)
    requires n <= |rs|
  {
    && IsMaxBatch(rs, n, index.maxBatch)
    && index.batchIds == BatchIds(rs, n)
    && IsMaxBoundaryTs(rs, n, index.highestTs)
    && index.latest == LatestHeader(rs, n, frontier)
  }

  /** Pass 2. */
  method CollectBoundaries(rs: seq<LogRecord>, frontier: nat) returns (r: Option<Index>)
    ensures r.Some? <==> BoundariesOk(rs)
    ensures r.Some? ==> IndexOk(r.value, rs, |rs|, frontier)
  {
    var index := Index(None, map[], None, None);
    for i := 0 to |rs|
      invariant IndexOk(index, rs, i, frontier)
      invariant BoundariesOk(rs[..i])
    {
      var record := rs[i];
      assert rs[..i + 1] == rs[..i] + [record];
      if record.payload.CheckpointBoundary? {
        if record.payload.boundary.None? { return None; }
        var b := record.payload.boundary.value;
        var ts := b.header.lastCheckpointTs;
        if index.highestTs.Some? && ts.Lt(index.highestTs.value) { return None; }
        index := Index(
          Some(if index.maxBatch.Some? then Larger(index.maxBatch.value, b.batchId) else b.batchId),
          index.batchIds[record.start := b.batchId],
          Newest(index.highestTs, ts),
          if frontier < record.end then Some(b.header) else index.latest);
      }
    }
    assert rs[..|rs|] == rs;
    return Some(index);
  }

  ghost predicate PendingOk(pending: map<nat, seq<PageImage>>, rs: seq<LogRecord>, n: nat, frontier: nat, known: set<nat>)
    requires n <= |rs|
  {
    && (forall b :: b in pending <==> b in known && FramesOf(rs, n, frontier, b) != [])
    && forall b :: b in pending ==> pending[b] == FramesOf(rs, n, frontier, b)
  }

  /** Pass 3. */
  method PartitionFrames(rs: seq<LogRecord>, known: set<nat>, frontier: nat) returns (r: Option<Partition>)
    requires forall b :: b in known <==> HasBoundary(rs, |rs|, b)
    ensures r.Some? <==> FramesOk(rs, frontier)
    ensures r.Some? ==> PendingOk(r.value.pending, rs, |rs|, frontier, known)
    ensures r.Some? ==> r.value.orphan == FirstOrphan(rs, |rs|, frontier)
  {
    var pending: map<nat, seq<PageImage>> := map[];
    var orphan: Option<nat> := None;
    for i := 0 to |rs|
      invariant FramesOk(rs[..i], frontier)
      invariant PendingOk(pending, rs, i, frontier, known)
      invariant orphan == FirstOrphan(rs, i, frontier)
    {
      var record := rs[i];
      assert rs[..i + 1] == rs[..i] + [record];
      if frontier < record.end && record.payload.CheckpointPageFrame? {
        if record.payload.frame.None? { return None; }
        var frame := record.payload.frame.value;
        if frame.batchId !in known {
          orphan := Some(if orphan.Some? && orphan.value < record.start then orphan.value else record.start);
        } else {
          var pages := if frame.batchId in pending then pending[frame.batchId] else [];
          pending := pending[frame.batchId := pages + [frame.image]];
        }
      }
    }
    assert rs[..|rs|] == rs;
    return Some(Partition(pending, orphan));
  }

  /** Accumulates the effects of the apply, drain and finalize passes. */
  class ScanState {
    var image: seq<Byte>
    var header: FileHeader
    var frames: seq<(nat, Ts)>
    var newestTs: Option<Ts>
    var maxSeq: Option<nat>
    var maxKept: nat

    constructor (main: seq<Byte>, mainHeader: FileHeader, boundaryTs: Option<Ts>)
      ensures image == main && header == mainHeader && frames == [] && maxSeq == None
      ensures newestTs == StartTs(mainHeader, boundaryTs) && maxKept == JOURNAL_HEADER_SIZE
    {
      image, header, frames, maxSeq := main, mainHeader, [], None;
      maxKept := JOURNAL_HEADER_SIZE;
      newestTs := StartTs(mainHeader, boundaryTs);
    }

    method NoteKept(end: nat)
      modifies `maxKept
      ensures maxKept == Larger(old(maxKept), end)
    {
      if maxKept < end { maxKept := end; }
    }

    method WritePages(pages: seq<PageImage>)
      modifies `image
      ensures image == WriteAll(old(image), pages)
    {
      for i := 0 to |pages|
        invariant image == WriteAll(old(image), pages[..i])
      {
        assert pages[..i + 1][..i] == pages[..i];
        image := WritePage(image, pages[i]);
      }
      assert pages[..|pages|] == pages;
    }

    /** Write a catalog's pages and its header, raised to the working header. */
    method ApplyCatalog(pages: seq<PageImage>, catalog: FileHeader, enc: HeaderCodec)
      modifies `image, `header
      ensures header == Raised(catalog, old(header))
      ensures image == WriteAll(old(image), pages + [HeaderPage(header, enc)])
    {
      WritePages(pages);
      header := Raised(catalog, header);
      WriteAllAppend(old(image), pages, [HeaderPage(header, enc)]);
      WriteOne(image, HeaderPage(header, enc));
      image := WritePage(image, HeaderPage(header, enc));
    }

    /** Keep a logical frame unless its commit timestamp has been seen. */
    method AddFrame(record: LogRecord)
      modifies `frames
      ensures frames == if exists i :: 0 <= i < |old(frames)| && old(frames)[i].1 == record.commitTs then old(frames)
        else old(frames) + [(record.start, record.commitTs)]
    {
      if forall i :: 0 <= i < |frames| ==> frames[i].1 != record.commitTs {
        frames := frames + [(record.start, record.commitTs)];
      }
    }

    /** What holds after the first `n` commits were applied to the state that `was` describes. */
    ghost predicate Applied(was: Before, cs: seq<LogRecord>, n: nat, enc: HeaderCodec)
      requires n <= |cs|
      reads this
    {
      && image == WriteAll(was.image, CatalogWrites(was.header, cs, n, enc))
      && header == HeaderAfter(was.header, cs, n)
      && frames == FramesAfter(cs, n)
      && newestTs == NewestAfter(was.newestTs, cs, n)
      && maxSeq == MaxSeqAfter(cs, n)
      && maxKept == KeptAfter(was.maxKept, cs, n)
    }

    /** Replay the commit `cs[i]`; an undecodable catalog is an error. */
    method ApplyOne(ghost was: Before, cs: seq<LogRecord>, i: nat, enc: HeaderCodec) returns (ok: bool)
      requires i < |cs| && IsCommit(cs[i]) && Applied(was, cs, i, enc)
      modifies this
      ensures ok <==> (cs[i].payload.CatalogCommit? ==> IsCatalog(cs[i]))
      ensures ok ==> Applied(was, cs, i + 1, enc)
    {
      var record := cs[i];
      newestTs := Newest(newestTs, record.commitTs);
      maxSeq := Some(if maxSeq.Some? then Larger(maxSeq.value, record.publishSeq) else record.publishSeq);
      NoteKept(record.end);
      if record.payload.CrudCommit? {
        AddFrame(record);
      } else {
        if record.payload.catalog.None? { return false; }
        var catalog := record.payload.catalog.value;
        ghost var before := CatalogWrites(was.header, cs, i, enc);
        ghost var more := catalog.0 + [HeaderPage(Raised(catalog.1, header), enc)];
        WriteAllAppend(was.image, before, more);
        assert before + more == CatalogWrites(was.header, cs, i + 1, enc);
        ApplyCatalog(catalog.0, catalog.1, enc);
      }
      return true;
    }

    /** Pass 4. */
    method ApplyCommits(rs: seq<LogRecord>, frontier: nat, enc: HeaderCodec) returns (ok: bool)
      requires frames == [] && maxSeq == None
      modifies this
      ensures ok <==> CommitsOk(Commits(rs, frontier))
      ensures ok ==> Applied(old(Before(image, header, newestTs, maxKept)), Commits(rs, frontier), |Commits(rs, frontier)|, enc)
    {
      ghost var was := Before(image, header, newestTs, maxKept);
      var cs := Commits(rs, frontier);
      CommitsAreCommits(rs, frontier);
      var seen: set<nat> := {};
      for i := 0 to |cs|
        invariant Applied(was, cs, i, enc)
        invariant Seen(seen, cs, i)
        invariant forall k :: 0 <= k < i ==> CommitOk(cs, k)
      {
        if cs[i].publishSeq in seen { assert !CommitOk(cs, i); return false; }
        seen := seen + {cs[i].publishSeq};
        var one := ApplyOne(was, cs, i, enc);
        if !one { assert !CommitOk(cs, i); return false; }
      }
      return true;
    }

    /** Pass 5. */
    method DrainBatches(rs: seq<LogRecord>, ids: map<nat, nat>, frontier: nat, partition: map<nat, seq<PageImage>>)
      requires BoundariesOk(rs) && IdsFit(ids, rs) && StillPending(partition, rs, 0, frontier)
      modifies `image, `maxKept
      ensures image == WriteAll(old(image), DrainWrites(rs, |rs|, frontier))
      ensures maxKept == KeptDrained(old(maxKept), rs, |rs|, frontier)
    {
      var pending := partition;
      ghost var main := image;
      for i := 0 to |rs|
        invariant image == WriteAll(main, DrainWrites(rs, i, frontier))
        invariant maxKept == KeptDrained(old(maxKept), rs, i, frontier)
        invariant StillPending(pending, rs, i, frontier)
      {
        if frontier < rs[i].end && rs[i].payload.CheckpointBoundary? {
          assert IsBoundary(rs[i]) && Drains(rs[i], frontier);
          var batch := ids[rs[i].start];
          NoteKept(rs[i].end);
          PendingStep(pending, rs, i, frontier);
          pending := DrainOne(pending, batch, main, DrainWrites(rs, i, frontier));
        } else {
          StillPendingStep(pending, rs, i, frontier);
        }
      }
    }

    /** Write out a batch's pages, if any are pending, and forget them. */
    method DrainOne(pending: map<nat, seq<PageImage>>, batch: nat, ghost main: seq<Byte>, ghost before: seq<PageImage>)
      returns (rest: map<nat, seq<PageImage>>)
      requires image == WriteAll(main, before)
      modifies `image
      ensures image == WriteAll(main, before + (if batch in pending then pending[batch] else []))
      ensures rest == Without(pending, batch)
    {
      rest := Without(pending, batch);
      if batch in pending {
        WriteAllAppend(main, before, pending[batch]);
        WritePages(pending[batch]);
      } else {
        assert before + [] == before;
      }
    }

    /** Pass 6. */
    method FinalizeHeader(rs: seq<LogRecord>, latest: Option<FileHeader>, enc: HeaderCodec) returns (truncatable: bool)
      modifies `image, `header
      ensures truncatable <==> latest.Some? && forall i :: 0 <= i < |rs| ==> !rs[i].payload.CrudCommit?
      ensures latest.None? ==> image == old(image) && header == old(header)
      ensures latest.Some? ==> image == WritePage(old(image), HeaderPage(header, enc))
      ensures latest.Some? ==> header == Raised(latest.value, old(header)).(
             appliedLsn := if truncatable then JOURNAL_HEADER_SIZE else Larger(latest.value.appliedLsn, old(header).appliedLsn))
    {
      truncatable := latest.Some? && forall i :: 0 <= i < |rs| ==> !rs[i].payload.CrudCommit?;
      if latest.Some? {
        var h := latest.value;
        h := h.(lastCheckpointTs := h.lastCheckpointTs.Max(header.lastCheckpointTs));
        if truncatable {
          h := h.(appliedLsn := JOURNAL_HEADER_SIZE);
        } else {
          h := h.(appliedLsn := Larger(h.appliedLsn, header.appliedLsn));
        }
        image, header := WritePage(image, HeaderPage(h, enc)), h;
      }
    }
  }

  ghost predicate Seen(seen: set<nat>, cs: seq<LogRecord>, n: nat)
    requires n <= |cs|
  {
    forall s :: s in seen <==> exists k :: 0 <= k < n && cs[k].publishSeq == s
  }

  /** The index finds each boundary's batch by the boundary's start. */
  predicate IdsFit(ids: map<nat, nat>, rs: seq<LogRecord>) {
    forall i :: 0 <= i < |rs| && IsBoundary(rs[i]) ==> rs[i].start in ids && ids[rs[i].start] == BatchOf(rs[i])
  }

  /** The batch has a boundary and frames, and no boundary among the first `n` records has drained it. */
  predicate Undrained(rs: seq<LogRecord>, n: nat, frontier: nat, batch: nat)
    requires n <= |rs|
  {
    && HasBoundary(rs, |rs|, batch)
    && FramesOf(rs, |rs|, frontier, batch) != []
    && !HasDrained(rs, n, frontier, batch)
  }

  ghost predicate StillPending(pending: map<nat, seq<PageImage>>, rs: seq<LogRecord>, n: nat, frontier: nat)
    requires n <= |rs|
  {
    && (forall b :: b in pending <==> Undrained(rs, n, frontier, b))
    && forall b :: b in pending ==> pending[b] == FramesOf(rs, |rs|, frontier, b)
  }

  function Without(pending: map<nat, seq<PageImage>>, batch: nat): map<nat, seq<PageImage>> {
    map b | b in pending && b != batch :: pending[b]
  }

  lemma PendingStep(pending: map<nat, seq<PageImage>>, rs: seq<LogRecord>, i: nat, frontier: nat)
    requires i < |rs| && Drains(rs[i], frontier) && StillPending(pending, rs, i, frontier)
    ensures StillPending(Without(pending, BatchOf(rs[i])), rs, i + 1, frontier)
    ensures var batch := BatchOf(rs[i]);
      DrainWrites(rs, i + 1, frontier) == DrainWrites(rs, i, frontier) + (if batch in pending then pending[batch] else [])
  {
    DrainStep(rs, i, frontier);
  }

  lemma StillPendingStep(pending: map<nat, seq<PageImage>>, rs: seq<LogRecord>, i: nat, frontier: nat)
    requires i < |rs| && !Drains(rs[i], frontier) && StillPending(pending, rs, i, frontier)
    ensures StillPending(pending, rs, i + 1, frontier) && DrainWrites(rs, i + 1, frontier) == DrainWrites(rs, i, frontier)
  {
    DrainStep(rs, i, frontier);
  }

  /** A boundary above the frontier takes its own batch out of the pending ones and no other. */
  lemma DrainStep(rs: seq<LogRecord>, i: nat, frontier: nat)
    requires i < |rs|
    ensures !Drains(rs[i], frontier) ==>
      && DrainWrites(rs, i + 1, frontier) == DrainWrites(rs, i, frontier)
      && forall b :: Undrained(rs, i + 1, frontier, b) <==> Undrained(rs, i, frontier, b)
    ensures Drains(rs[i], frontier) ==>
      && DrainWrites(rs, i + 1, frontier) == DrainWrites(rs, i, frontier)
           + (if Undrained(rs, i, frontier, BatchOf(rs[i])) then FramesOf(rs, |rs|, frontier, BatchOf(rs[i])) else [])
      && forall b :: Undrained(rs, i + 1, frontier, b) <==> Undrained(rs, i, frontier, b) && b != BatchOf(rs[i])
  {
    forall b ensures HasDrained(rs, i + 1, frontier, b) <==>
      HasDrained(rs, i, frontier, b) || (Drains(rs[i], frontier) && BatchOf(rs[i]) == b)
    {
    }
    if Drains(rs[i], frontier) {
      assert HasBoundary(rs, |rs|, BatchOf(rs[i]));
    }
  }

  /** The fields that the apply pass starts from. */
  datatype Before = Before(image: seq<Byte>, header: FileHeader, newestTs: Option<Ts>, maxKept: nat)

  /** `synced`: the journal was fsynced, which happens on its reset and on the cut of a tail only. */
  datatype Outcome =
    | Recovered(image: seq<Byte>, journal: seq<Byte>, resume: nat, header: FileHeader, frames: seq<(nat, Ts)>,
                newestTs: Option<Ts>, maxSeq: Option<nat>, nextBatch: nat, synced: bool)
    | CorruptDatabase

  /** `r` is what recovery owes for the accepted records `rs`. */
  ghost predicate Owed(
    r: Outcome, journal: seq<Byte>, main: seq<Byte>, h: FileHeader, rs: seq<LogRecord>, cursor: nat,
    empty: seq<Byte>, enc: HeaderCodec)
  {
    var frontier := h.appliedLsn;
    var cs := Commits(rs, frontier);
    && r.Recovered?
    && r.image == WriteAll(main, RecoveryWrites(h, rs, enc))
    && r.header == FinalHeader(h, rs)
    && r.resume == Resume(rs, cursor, frontier)
    && r.journal == JournalLeft(journal, rs, cursor, frontier, empty)
    && r.synced == (Truncatable(rs, frontier) || r.resume < |journal|)
    && r.frames == FramesAfter(cs, |cs|)
    && r.maxSeq == MaxSeqAfter(cs, |cs|)
    && (exists t :: IsMaxBoundaryTs(rs, |rs|, t) && r.newestTs == NewestAfter(StartTs(h, t), cs, |cs|))
    && (exists m :: IsMaxBatch(rs, |rs|, m) && r.nextBatch == NextBatch(m))
  }

  function CutTo(journal: seq<Byte>, end: nat): seq<Byte> {
    if end < |journal| then journal[..end] else journal
  }

  /** The journal that recovery leaves; `empty` is the header of a reset one. */
  function JournalLeft(journal: seq<Byte>, rs: seq<LogRecord>, cursor: nat, frontier: nat, empty: seq<Byte>): seq<Byte> {
    if Truncatable(rs, frontier) then empty else CutTo(journal, Resume(rs, cursor, frontier))
  }

  datatype Replayed =
    | Replayed(image: seq<Byte>, header: FileHeader, frames: seq<(nat, Ts)>, newestTs: Option<Ts>, maxSeq: Option<nat>,
               kept: nat, truncatable: bool)
    | Unreadable

  /** Passes 4 to 6 over an index and a partition. */
  method Replay(
    rs: seq<LogRecord>, main: seq<Byte>, h: FileHeader, index: Index, pending: map<nat, seq<PageImage>>, enc: HeaderCodec)
    returns (r: Replayed)
    requires BoundariesOk(rs) && IdsFit(index.batchIds, rs)
    requires index.latest == LatestHeader(rs, |rs|, h.appliedLsn) && StillPending(pending, rs, 0, h.appliedLsn)
    ensures r.Replayed? <==> CommitsOk(Commits(rs, h.appliedLsn))
    ensures r.Replayed? ==> r.image == WriteAll(main, RecoveryWrites(h, rs, enc)) && r.header == FinalHeader(h, rs)
    ensures r.Replayed? ==> r.kept == KeptEnd(rs, h.appliedLsn) && r.truncatable == Truncatable(rs, h.appliedLsn)
    ensures var cs := Commits(rs, h.appliedLsn); r.Replayed? ==>
      && r.frames == FramesAfter(cs, |cs|) && r.maxSeq == MaxSeqAfter(cs, |cs|)
      && r.newestTs == NewestAfter(StartTs(h, index.highestTs), cs, |cs|)
  {
    var state := new ScanState(main, h, index.highestTs);
    var ok := state.ApplyCommits(rs, h.appliedLsn, enc);
    if !ok { return Unreadable; }
    state.DrainBatches(rs, index.batchIds, h.appliedLsn, pending);
    var truncatable := state.FinalizeHeader(rs, index.latest, enc);
    ImageInOrder(main, h, rs, enc);
    return Replayed(state.image, state.header, state.frames, state.newestTs, state.maxSeq, state.maxKept, truncatable);
  }

  /** All six passes, and the reset or the cut of the journal. `empty` is an empty journal's header. */
  method RecoverJournal(
    journal: seq<Byte>, main: seq<Byte>, h: FileHeader, empty: seq<Byte>, decode: Decoder, enc: HeaderCodec)
    returns (r: Outcome)
    ensures var scan := Scan(journal, JOURNAL_HEADER_SIZE, decode);
      if scan.Accepted? && LogOk(h, scan.records)
      then Owed(r, journal, main, h, scan.records, scan.cursor, empty, enc)
      else r == CorruptDatabase
  {
    var scan := ReadAcceptedRecords(journal, decode);
    if scan.Corrupted? { return CorruptDatabase; }
    var rs, frontier := scan.records, h.appliedLsn;
    ScanLaid(journal, JOURNAL_HEADER_SIZE, decode);
    BatchIdsFit(rs, |rs|, JOURNAL_HEADER_SIZE, scan.cursor);
    var found := CollectBoundaries(rs, frontier);
    if found.None? { return CorruptDatabase; }
    var index := found.value;
    var split := PartitionFrames(rs, index.batchIds.Values, frontier);
    if split.None? { return CorruptDatabase; }
    assert StillPending(split.value.pending, rs, 0, frontier);
    var done := Replay(rs, main, h, index, split.value.pending, enc);
    if done.Unreadable? { return CorruptDatabase; }
    var orphan := split.value.orphan;
    var end := if orphan.None? then scan.cursor
      else Larger(if orphan.value < scan.cursor then orphan.value else scan.cursor, done.kept);
    var resume := if done.truncatable then JOURNAL_HEADER_SIZE else end;
    var left := if done.truncatable then empty else CutTo(journal, resume);
    r := Recovered(done.image, left, resume, done.header, done.frames, done.newestTs, done.maxSeq, NextBatch(index.maxBatch),
                   done.truncatable || resume < |journal|);
  }

  /** The three groups of writes, one pass after the other. */
  lemma ImageInOrder(main: seq<Byte>, h: FileHeader, rs: seq<LogRecord>, enc: HeaderCodec)
    ensures var cs := Commits(rs, h.appliedLsn);
      var drained := WriteAll(WriteAll(main, CatalogWrites(h, cs, |cs|, enc)), DrainWrites(rs, |rs|, h.appliedLsn));
      WriteAll(main, RecoveryWrites(h, rs, enc))
        == if LatestHeader(rs, |rs|, h.appliedLsn).Some? then WritePage(drained, HeaderPage(FinalHeader(h, rs), enc)) else drained
  {
    var cs := Commits(rs, h.appliedLsn);
    var catalogs, frames := CatalogWrites(h, cs, |cs|, enc), DrainWrites(rs, |rs|, h.appliedLsn);
    WriteAllAppend(main, catalogs, frames);
    var last := [HeaderPage(FinalHeader(h, rs), enc)];
    WriteAllAppend(main, catalogs + frames, last);
    WriteOne(WriteAll(main, catalogs + frames), last[0]);
    assert catalogs + frames + [] == catalogs + frames;
  }
}
