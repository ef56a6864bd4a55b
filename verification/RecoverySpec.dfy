/** What recovery makes of an accepted log: which records count, in which order, and what they write. */
module RecoverySpec {
  import opened Bytes
  import opened Timestamps
  import opened JournalScan
  import opened Options
  import opened Sorting

  type HeaderCodec = FileHeader -> seq<Byte>

  predicate IsCommit(r: LogRecord) { r.payload.CrudCommit? || r.payload.CatalogCommit? }

  predicate IsCatalog(r: LogRecord) { r.payload.CatalogCommit? && r.payload.catalog.Some? }

  predicate IsBoundary(r: LogRecord) { r.payload.CheckpointBoundary? && r.payload.boundary.Some? }

  predicate IsFrame(r: LogRecord) { r.payload.CheckpointPageFrame? && r.payload.frame.Some? }

  function BatchOf(r: LogRecord): nat
    requires IsBoundary(r)
  {
    r.payload.boundary.value.batchId
  }

  function BoundaryHeader(r: LogRecord): FileHeader
    requires IsBoundary(r)
  {
    r.payload.boundary.value.header
  }

  function BoundaryTs(r: LogRecord): Ts
    requires IsBoundary(r)
  {
    BoundaryHeader(r).lastCheckpointTs
  }

  function CatalogHeader(r: LogRecord): FileHeader
    requires IsCatalog(r)
  {
    r.payload.catalog.value.1
  }

  /** Not yet reflected in the main file. */
  predicate Above(r: LogRecord, frontier: nat) { frontier < r.end }

  // ---------------------------------------------------------------------------
  // Accepted logs
  // ---------------------------------------------------------------------------

  /** Where the first `i` records end. */
  function EndOf(rs: seq<LogRecord>, i: nat, from: nat): nat
    requires i <= |rs|
  {
    if i == 0 then from else rs[i - 1].end
  }

  /** Valid records side by side, from `from` to `to`. */
  predicate Laid(rs: seq<LogRecord>, from: nat, to: nat) {
    && EndOf(rs, |rs|, from) == to
    && (forall i :: 0 <= i < |rs| ==> rs[i].start < rs[i].end && Classify(rs[i]).Keep?)
    && forall i {:trigger EndOf(rs, i, from)} :: 0 <= i < |rs| ==> rs[i].start == EndOf(rs, i, from)
  }

  /** What a scan accepts lies side by side up to its cursor. */
  lemma {:induction false} ScanLaid(file: seq<Byte>, from: nat, decode: Decoder)
    requires Scan(file, from, decode).Accepted?
    ensures var s := Scan(file, from, decode); Laid(s.records, from, s.cursor)
    decreases |file| - from
  {
    var s := Scan(file, from, decode);
    if from < |file| && ReadAt(file, from, decode).Got? {
      var r := ReadAt(file, from, decode).record;
      ScanLaid(file, r.end, decode);
      var rest := Scan(file, r.end, decode).records;
      assert s.records == [r] + rest;
      forall i | 0 < i <= |s.records| ensures EndOf(s.records, i, from) == EndOf(rest, i - 1, r.end) {
        if i > 1 { assert s.records[i - 1] == rest[i - 2]; }
      }
      forall i | 0 < i < |s.records|
        ensures s.records[i].start == EndOf(s.records, i, from) < s.records[i].end && Classify(s.records[i]).Keep?
      {
        assert s.records[i] == rest[i - 1] && rest[i - 1].start == EndOf(rest, i - 1, r.end);
      }
    }
  }

  lemma {:induction false} LaidOrder(rs: seq<LogRecord>, from: nat, to: nat, i: nat, j: nat)
    requires Laid(rs, from, to) && i <= j <= |rs|
    ensures EndOf(rs, i, from) <= EndOf(rs, j, from)
    decreases j
  {
    if i < j {
      LaidOrder(rs, from, to, i, j - 1);
      assert rs[j - 1].start < rs[j - 1].end;
    }
  }

  lemma LaidApart(rs: seq<LogRecord>, from: nat, to: nat, i: nat, j: nat)
    requires Laid(rs, from, to) && i < j < |rs|
    ensures rs[i].start < rs[i].end <= rs[j].start
  {
    LaidOrder(rs, from, to, i + 1, j);
  }

  // ---------------------------------------------------------------------------
  // Checkpoint boundaries
  // ---------------------------------------------------------------------------

  /** Every boundary decodes, and checkpoint timestamps never go back. */
  predicate BoundariesOk(rs: seq<LogRecord>) {
    && (forall i :: 0 <= i < |rs| && rs[i].payload.CheckpointBoundary? ==> IsBoundary(rs[i]))
    && (forall i, j :: 0 <= i < j < |rs| && IsBoundary(rs[i]) && IsBoundary(rs[j]) ==>
          BoundaryTs(rs[i]).Le(BoundaryTs(rs[j])))
  }

  predicate HasBoundary(rs: seq<LogRecord>, n: nat, batch: nat)
    requires n <= |rs|
  {
    exists i :: 0 <= i < n && IsBoundary(rs[i]) && BatchOf(rs[i]) == batch
  }

  /** Batch id by start of the boundary. */
  function BatchIds(rs: seq<LogRecord>, n: nat): map<nat, nat>
    requires n <= |rs|
  {
    if n == 0 then map[]
    else
      var before := BatchIds(rs, n - 1);
      if IsBoundary(rs[n - 1]) then before[rs[n - 1].start := BatchOf(rs[n - 1])] else before
  }

  lemma {:induction false} BatchIdsFit(rs: seq<LogRecord>, n: nat, from: nat, to: nat)
    requires Laid(rs, from, to) && n <= |rs|
    ensures forall i :: 0 <= i < n && IsBoundary(rs[i]) ==>
      rs[i].start in BatchIds(rs, n) && BatchIds(rs, n)[rs[i].start] == BatchOf(rs[i])
    ensures forall b :: b in BatchIds(rs, n).Values <==> HasBoundary(rs, n, b)
  {
    if n > 0 {
      BatchIdsFit(rs, n - 1, from, to);
      var before, after := BatchIds(rs, n - 1), BatchIds(rs, n);
      forall i | 0 <= i < n - 1 ensures rs[i].start < rs[n - 1].start { LaidApart(rs, from, to, i, n - 1); }
      assert IsBoundary(rs[n - 1]) ==> rs[n - 1].start !in before by {
        BatchIdsBelow(rs, n - 1, from, to);
      }
      forall b ensures b in after.Values <==> HasBoundary(rs, n, b) {
        ValuesAfter(rs, n, b);
      }
    }
  }

  lemma {:induction false} BatchIdsBelow(rs: seq<LogRecord>, n: nat, from: nat, to: nat)
    requires Laid(rs, from, to) && n <= |rs|
    ensures forall s :: s in BatchIds(rs, n) ==> s < EndOf(rs, n, from)
  {
    if n > 0 { BatchIdsBelow(rs, n - 1, from, to); }
  }

  lemma ValuesAfter(rs: seq<LogRecord>, n: nat, b: nat)
    requires 0 < n <= |rs|
    requires b in BatchIds(rs, n - 1).Values <==> HasBoundary(rs, n - 1, b)
    requires IsBoundary(rs[n - 1]) ==> rs[n - 1].start !in BatchIds(rs, n - 1)
    ensures b in BatchIds(rs, n).Values <==> HasBoundary(rs, n, b)
  {
    var before, after := BatchIds(rs, n - 1), BatchIds(rs, n);
    if IsBoundary(rs[n - 1]) {
      assert after[rs[n - 1].start] == BatchOf(rs[n - 1]);
      assert after.Keys == before.Keys + {rs[n - 1].start};
      forall s | s in before ensures after[s] == before[s] {}
    }
  }

  function LatestHeader(rs: seq<LogRecord>, n: nat, frontier: nat): Option<FileHeader>
    requires n <= |rs|
  {
    if n == 0 then None
    else if IsBoundary(rs[n - 1]) && Above(rs[n - 1], frontier) then Some(BoundaryHeader(rs[n - 1]))
    else LatestHeader(rs, n - 1, frontier)
  }

  /** `m` is the largest boundary batch id, `None` without boundaries. */
  predicate IsMaxBatch(rs: seq<LogRecord>, n: nat, m: Option<nat>)
    requires n <= |rs|
  {
    && (m.Some? ==> HasBoundary(rs, n, m.value))
    && forall i :: 0 <= i < n && IsBoundary(rs[i]) ==> m.Some? && BatchOf(rs[i]) <= m.value
  }

  /** `t` is the largest boundary timestamp, `None` without boundaries. */
  predicate IsMaxBoundaryTs(rs: seq<LogRecord>, n: nat, t: Option<Ts>)
    requires n <= |rs|
  {
    && (t.Some? ==> exists i :: 0 <= i < n && IsBoundary(rs[i]) && BoundaryTs(rs[i]) == t.value)
    && forall i :: 0 <= i < n && IsBoundary(rs[i]) ==> t.Some? && BoundaryTs(rs[i]).Le(t.value)
  }

  // ---------------------------------------------------------------------------
  // Page frames
  // ---------------------------------------------------------------------------

  predicate FramesOk(rs: seq<LogRecord>, frontier: nat) {
    forall i :: 0 <= i < |rs| && Above(rs[i], frontier) && rs[i].payload.CheckpointPageFrame? ==> IsFrame(rs[i])
  }

  predicate IsFrameOf(r: LogRecord, frontier: nat, batch: nat) {
    IsFrame(r) && Above(r, frontier) && r.payload.frame.value.batchId == batch
  }

  /** The page images of one batch, in log order. */
  function FramesOf(rs: seq<LogRecord>, n: nat, frontier: nat, batch: nat): seq<PageImage>
    requires n <= |rs|
  {
    if n == 0 then []
    else
      var before := FramesOf(rs, n - 1, frontier, batch);
      if IsFrameOf(rs[n - 1], frontier, batch) then before + [rs[n - 1].payload.frame.value.image] else before
  }

  /** A frame whose batch never reached a boundary. */
  predicate IsOrphan(rs: seq<LogRecord>, i: nat, frontier: nat)
    requires i < |rs|
  {
    IsFrame(rs[i]) && Above(rs[i], frontier) && !HasBoundary(rs, |rs|, rs[i].payload.frame.value.batchId)
  }

  /** `at` is the lowest start of an orphan, `None` without orphans. */
  predicate IsFirstOrphan(rs: seq<LogRecord>, n: nat, frontier: nat, at: Option<nat>)
    requires n <= |rs|
  {
    && (at.Some? ==> exists i :: 0 <= i < n && IsOrphan(rs, i, frontier) && rs[i].start == at.value)
    && forall i :: 0 <= i < n && IsOrphan(rs, i, frontier) ==> at.Some? && at.value <= rs[i].start
  }

  function FirstOrphan(rs: seq<LogRecord>, n: nat, frontier: nat): (r: Option<nat>)
    requires n <= |rs|
    ensures IsFirstOrphan(rs, n, frontier, r)
  {
    if n == 0 then None
    else
      var before := FirstOrphan(rs, n - 1, frontier);
      if !IsOrphan(rs, n - 1, frontier) then before
      else Some(if before.Some? && before.value < rs[n - 1].start then before.value else rs[n - 1].start)
  }

  predicate Drains(r: LogRecord, frontier: nat) { IsBoundary(r) && Above(r, frontier) }

  predicate HasDrained(rs: seq<LogRecord>, n: nat, frontier: nat, batch: nat)
    requires n <= |rs|
  {
    exists i :: 0 <= i < n && Drains(rs[i], frontier) && BatchOf(rs[i]) == batch
  }

  /** The frames of completed batches, batch by batch in the order of their first boundaries. */
  function DrainWrites(rs: seq<LogRecord>, n: nat, frontier: nat): seq<PageImage>
    requires n <= |rs|
  {
    if n == 0 then []
    else
      var before := DrainWrites(rs, n - 1, frontier);
      if Drains(rs[n - 1], frontier) && !HasDrained(rs, n - 1, frontier, BatchOf(rs[n - 1])) then
        before + FramesOf(rs, |rs|, frontier, BatchOf(rs[n - 1]))
      else before
  }

  // ---------------------------------------------------------------------------
  // Commits
  // ---------------------------------------------------------------------------

  function CommitsIn(rs: seq<LogRecord>, n: nat, frontier: nat): seq<LogRecord>
    requires n <= |rs|
  {
    if n == 0 then []
    else
      var before := CommitsIn(rs, n - 1, frontier);
      if IsCommit(rs[n - 1]) && Above(rs[n - 1], frontier) then before + [rs[n - 1]] else before
  }

  predicate PublishedBefore(a: LogRecord, b: LogRecord) { a.publishSeq <= b.publishSeq }

  /** The commits to replay, in the order of their publication. */
  function Commits(rs: seq<LogRecord>, frontier: nat): seq<LogRecord> {
    Sort(CommitsIn(rs, |rs|, frontier), PublishedBefore)
  }

  lemma {:induction false} CommitsInMember(rs: seq<LogRecord>, n: nat, frontier: nat, r: LogRecord)
    requires n <= |rs|
    ensures r in CommitsIn(rs, n, frontier) <==> r in rs[..n] && IsCommit(r) && Above(r, frontier)
  {
    if n > 0 {
      assert rs[..n] == rs[..n - 1] + [rs[n - 1]];
      CommitsInMember(rs, n - 1, frontier, r);
    }
  }

  /** Replayed are exactly the commits above the frontier. */
  lemma CommitsMember(rs: seq<LogRecord>, frontier: nat, r: LogRecord)
    ensures r in Commits(rs, frontier) <==> r in rs && IsCommit(r) && Above(r, frontier)
  {
    SortKeeps(CommitsIn(rs, |rs|, frontier), PublishedBefore);
    assert r in Commits(rs, frontier) <==> r in multiset(Commits(rs, frontier));
    CommitsInMember(rs, |rs|, frontier, r);
    assert rs[..|rs|] == rs;
  }

  lemma CommitsAreCommits(rs: seq<LogRecord>, frontier: nat)
    ensures forall i :: 0 <= i < |Commits(rs, frontier)| ==> IsCommit(Commits(rs, frontier)[i])
  {
    var cs := Commits(rs, frontier);
    forall i | 0 <= i < |cs| ensures IsCommit(cs[i]) { CommitsMember(rs, frontier, cs[i]); }
  }

  predicate Repeats(cs: seq<LogRecord>, i: nat)
    requires i < |cs|
  {
    exists k :: 0 <= k < i && cs[k].publishSeq == cs[i].publishSeq
  }

  /** Publish numbers are all different and every catalog image decodes. */
  predicate CommitsOk(cs: seq<LogRecord>) {
    forall i :: 0 <= i < |cs| ==> CommitOk(cs, i)
  }

  predicate CommitOk(cs: seq<LogRecord>, i: nat)
    requires i < |cs|
  {
    !Repeats(cs, i) && (cs[i].payload.CatalogCommit? ==> IsCatalog(cs[i]))
  }

  /** `h` with its checkpoint timestamp and frontier not below those of `floor`. */
  function Raised(h: FileHeader, floor: FileHeader): FileHeader {
    h.(lastCheckpointTs := h.lastCheckpointTs.Max(floor.lastCheckpointTs), appliedLsn := Larger(h.appliedLsn, floor.appliedLsn))
  }

  /** The working header after the first `n` commits. */
  function HeaderAfter(h: FileHeader, cs: seq<LogRecord>, n: nat): FileHeader
    requires n <= |cs|
  {
    if n == 0 then h
    else
      var before := HeaderAfter(h, cs, n - 1);
      if IsCatalog(cs[n - 1]) then Raised(CatalogHeader(cs[n - 1]), before) else before
  }

  function HeaderPage(h: FileHeader, enc: HeaderCodec): PageImage { PageImage(0, enc(h)) }

  /** Each catalog's pages and then the header. */
  function CatalogWrites(h: FileHeader, cs: seq<LogRecord>, n: nat, enc: HeaderCodec): seq<PageImage>
    requires n <= |cs|
  {
    if n == 0 then []
    else
      var before := CatalogWrites(h, cs, n - 1, enc);
      if IsCatalog(cs[n - 1]) then
        before + cs[n - 1].payload.catalog.value.0 + [HeaderPage(HeaderAfter(h, cs, n), enc)]
      else before
  }

  /** Logical frames by commit timestamp; the first publication wins. */
  function FramesAfter(cs: seq<LogRecord>, n: nat): seq<(nat, Ts)>
    requires n <= |cs|
  {
    if n == 0 then []
    else
      var before := FramesAfter(cs, n - 1);
      var c := cs[n - 1];
      if c.payload.CrudCommit? && forall i :: 0 <= i < |before| ==> before[i].1 != c.commitTs then
        before + [(c.start, c.commitTs)]
      else before
  }

  function Newest(t: Option<Ts>, u: Ts): Option<Ts> { Some(if t.Some? then t.value.Max(u) else u) }

  function NewestAfter(t: Option<Ts>, cs: seq<LogRecord>, n: nat): Option<Ts>
    requires n <= |cs|
  {
    if n == 0 then t else Newest(NewestAfter(t, cs, n - 1), cs[n - 1].commitTs)
  }

  function MaxSeqAfter(cs: seq<LogRecord>, n: nat): Option<nat>
    requires n <= |cs|
  {
    if n == 0 then None
    else
      var before := MaxSeqAfter(cs, n - 1);
      Some(if before.Some? then Larger(before.value, cs[n - 1].publishSeq) else cs[n - 1].publishSeq)
  }

  function KeptAfter(end: nat, cs: seq<LogRecord>, n: nat): nat
    requires n <= |cs|
  {
    if n == 0 then end else Larger(KeptAfter(end, cs, n - 1), cs[n - 1].end)
  }

  function KeptDrained(end: nat, rs: seq<LogRecord>, n: nat, frontier: nat): nat
    requires n <= |rs|
  {
    if n == 0 then end
    else
      var before := KeptDrained(end, rs, n - 1, frontier);
      if Drains(rs[n - 1], frontier) then Larger(before, rs[n - 1].end) else before
  }

  // ---------------------------------------------------------------------------
  // The whole of recovery
  // ---------------------------------------------------------------------------

  predicate Truncatable(rs: seq<LogRecord>, frontier: nat) {
    LatestHeader(rs, |rs|, frontier).Some? && forall i :: 0 <= i < |rs| ==> !rs[i].payload.CrudCommit?
  }

  /** The header that stands in the main file when recovery is done. */
  function FinalHeader(main: FileHeader, rs: seq<LogRecord>): FileHeader {
    var frontier := main.appliedLsn;
    var cs := Commits(rs, frontier);
    var latest := LatestHeader(rs, |rs|, frontier);
    var working := HeaderAfter(main, cs, |cs|);
    if latest.None? then working
    else if Truncatable(rs, frontier) then Raised(latest.value, working).(appliedLsn := JOURNAL_HEADER_SIZE)
    else Raised(latest.value, working)
  }

  /** Catalogs by publication, then frames by boundary, then the boundary's header. */
  function RecoveryWrites(main: FileHeader, rs: seq<LogRecord>, enc: HeaderCodec): seq<PageImage> {
    var frontier := main.appliedLsn;
    var cs := Commits(rs, frontier);
    CatalogWrites(main, cs, |cs|, enc) + DrainWrites(rs, |rs|, frontier)
    + (if LatestHeader(rs, |rs|, frontier).Some? then [HeaderPage(FinalHeader(main, rs), enc)] else [])
  }

  /** No replayed commit and no drained boundary ends above this. */
  function KeptEnd(rs: seq<LogRecord>, frontier: nat): nat {
    var cs := Commits(rs, frontier);
    KeptDrained(KeptAfter(JOURNAL_HEADER_SIZE, cs, |cs|), rs, |rs|, frontier)
  }

  /** Where the log is cut: before the lowest orphan, but never below a kept record. */
  function ValidEnd(rs: seq<LogRecord>, cursor: nat, frontier: nat): nat {
    var orphan := FirstOrphan(rs, |rs|, frontier);
    if orphan.None? then cursor
    else Larger(if orphan.value < cursor then orphan.value else cursor, KeptEnd(rs, frontier))
  }

  function Resume(rs: seq<LogRecord>, cursor: nat, frontier: nat): nat {
    if Truncatable(rs, frontier) then JOURNAL_HEADER_SIZE else ValidEnd(rs, cursor, frontier)
  }

  /** Batch ids of checkpoints after recovery start here. */
  function NextBatch(maxBatch: Option<nat>): nat {
    if maxBatch.None? then 1 else if maxBatch.value < U64_MAX then maxBatch.value + 1 else U64_MAX
  }

  function StartTs(main: FileHeader, boundaryTs: Option<Ts>): Option<Ts> {
    var t := if main.lastCheckpointTs != ZERO then Some(main.lastCheckpointTs) else None;
    if boundaryTs.Some? then Newest(t, boundaryTs.value) else t
  }

  predicate LogOk(main: FileHeader, rs: seq<LogRecord>) {
    BoundariesOk(rs) && FramesOk(rs, main.appliedLsn) && CommitsOk(Commits(rs, main.appliedLsn))
  }
}
