/** Where recovery cuts the journal, where it resumes, and what the clock and the batch counter resume from. */
module RecoveryCut {
  import opened Bytes
  import opened Timestamps
  import opened JournalScan
  import opened Options
  import opened RecoverySpec
  import opened Recovery
  import opened RecoveryImage
  import opened Sorting

  // ---------------------------------------------------------------------------
  // The cut
  // ---------------------------------------------------------------------------

  /** Replayed by the apply pass or fencing a batch of the drain pass. */
  predicate IsKept(r: LogRecord, frontier: nat) {
    Above(r, frontier) && (IsCommit(r) || IsBoundary(r))
  }

  /** `end` is the header size or the end of a kept record among the first `n`. */
  predicate IsKeptEnd(rs: seq<LogRecord>, n: nat, frontier: nat, end: nat)
    requires n <= |rs|
  {
    end == JOURNAL_HEADER_SIZE || exists i :: 0 <= i < n && IsKept(rs[i], frontier) && rs[i].end == end
  }

  lemma {:induction false} KeptAfterIsMax(end: nat, cs: seq<LogRecord>, n: nat)
    requires n <= |cs|
    ensures end <= KeptAfter(end, cs, n) && forall i :: 0 <= i < n ==> cs[i].end <= KeptAfter(end, cs, n)
    ensures KeptAfter(end, cs, n) == end || exists i :: 0 <= i < n && cs[i].end == KeptAfter(end, cs, n)
  {
    if n > 0 { KeptAfterIsMax(end, cs, n - 1); }
  }

  lemma {:induction false} KeptDrainedIsMax(end: nat, rs: seq<LogRecord>, n: nat, frontier: nat)
    requires n <= |rs|
    ensures end <= KeptDrained(end, rs, n, frontier)
    ensures forall i :: 0 <= i < n && Drains(rs[i], frontier) ==> rs[i].end <= KeptDrained(end, rs, n, frontier)
    ensures KeptDrained(end, rs, n, frontier) == end
      || exists i :: 0 <= i < n && Drains(rs[i], frontier) && rs[i].end == KeptDrained(end, rs, n, frontier)
  {
    if n > 0 { KeptDrainedIsMax(end, rs, n - 1, frontier); }
  }

  /** The kept end is the largest end of a kept record. */
  lemma KeptEndIsMax(rs: seq<LogRecord>, frontier: nat)
    ensures JOURNAL_HEADER_SIZE <= KeptEnd(rs, frontier) && IsKeptEnd(rs, |rs|, frontier, KeptEnd(rs, frontier))
    ensures forall i :: 0 <= i < |rs| && IsKept(rs[i], frontier) ==> rs[i].end <= KeptEnd(rs, frontier)
  {
    var cs := Commits(rs, frontier);
    var mid := KeptAfter(JOURNAL_HEADER_SIZE, cs, |cs|);
    KeptAfterIsMax(JOURNAL_HEADER_SIZE, cs, |cs|);
    KeptDrainedIsMax(mid, rs, |rs|, frontier);
    forall i | 0 <= i < |rs| && IsKept(rs[i], frontier) ensures rs[i].end <= KeptEnd(rs, frontier) {
      CommitsMember(rs, frontier, rs[i]);
    }
    assert IsKeptEnd(rs, |rs|, frontier, mid) by {
      if mid != JOURNAL_HEADER_SIZE {
        var k :| 0 <= k < |cs| && cs[k].end == mid;
        CommitsMember(rs, frontier, cs[k]);
        var i :| 0 <= i < |rs| && rs[i] == cs[k];
      }
    }
  }

  predicate OrphanUpTo(rs: seq<LogRecord>, n: nat, frontier: nat)
    requires n <= |rs|
  {
    exists i :: 0 <= i < n && IsOrphan(rs, i, frontier)
  }

  predicate KeptFrom(rs: seq<LogRecord>, n: nat, frontier: nat)
    requires n <= |rs|
  {
    exists i :: n <= i < |rs| && IsKept(rs[i], frontier)
  }

  /** The cut lands between two records, at or below the scan's cursor. */
  lemma CutOnBoundary(rs: seq<LogRecord>, cursor: nat, frontier: nat) returns (k: nat)
    requires Laid(rs, JOURNAL_HEADER_SIZE, cursor)
    ensures k <= |rs| && ValidEnd(rs, cursor, frontier) == EndOf(rs, k, JOURNAL_HEADER_SIZE) <= cursor
  {
    var orphan := FirstOrphan(rs, |rs|, frontier);
    k := |rs|;
    if orphan.Some? {
      KeptEndIsMax(rs, frontier);
      var end := KeptEnd(rs, frontier);
      var i :| 0 <= i < |rs| && IsOrphan(rs, i, frontier) && rs[i].start == orphan.value;
      assert EndOf(rs, i, JOURNAL_HEADER_SIZE) == rs[i].start;
      LaidOrder(rs, JOURNAL_HEADER_SIZE, cursor, i, |rs|);
      if end <= rs[i].start {
        k := i;
      } else if end == JOURNAL_HEADER_SIZE {
        k := 0;
      } else {
        var j :| 0 <= j < |rs| && IsKept(rs[j], frontier) && rs[j].end == end;
        assert EndOf(rs, j + 1, JOURNAL_HEADER_SIZE) == end;
        k := j + 1;
      }
    }
    LaidOrder(rs, JOURNAL_HEADER_SIZE, cursor, k, |rs|);
  }

  /** Exactly which records end at or below the cut. */
  lemma BelowCutIff(rs: seq<LogRecord>, cursor: nat, frontier: nat, i: nat)
    requires Laid(rs, JOURNAL_HEADER_SIZE, cursor) && i < |rs|
    ensures rs[i].end <= ValidEnd(rs, cursor, frontier) <==>
      !OrphanUpTo(rs, i + 1, frontier) || KeptFrom(rs, i, frontier)
  {
    KeptEndIsMax(rs, frontier);
    LaidOrder(rs, JOURNAL_HEADER_SIZE, cursor, i + 1, |rs|);
    LaidOrder(rs, JOURNAL_HEADER_SIZE, cursor, 0, i);
    assert rs[i].start == EndOf(rs, i, JOURNAL_HEADER_SIZE);
    var end := KeptEnd(rs, frontier);
    assert rs[i].end <= end <==> KeptFrom(rs, i, frontier) by { EndsKept(rs, cursor, frontier, i); }
    var orphan := FirstOrphan(rs, |rs|, frontier);
    if orphan.Some? {
      var k :| 0 <= k < |rs| && IsOrphan(rs, k, frontier) && rs[k].start == orphan.value;
      LaidOrder(rs, JOURNAL_HEADER_SIZE, cursor, k, |rs|);
      assert rs[k].start == EndOf(rs, k, JOURNAL_HEADER_SIZE);
      assert rs[i].end <= orphan.value <==> !OrphanUpTo(rs, i + 1, frontier) by { EndsBeforeOrphans(rs, cursor, frontier, i, k); }
    }
  }

  /**
   Exactly which records are left in the journal: none when it is reset, and else those with no
   orphan up to them and those with a kept record at or after them. In particular a cut spares every kept record.
   */
  lemma SurvivesIff(rs: seq<LogRecord>, cursor: nat, frontier: nat, i: nat)
    requires Laid(rs, JOURNAL_HEADER_SIZE, cursor) && i < |rs|
    ensures rs[i].end <= Resume(rs, cursor, frontier) <==>
      !Truncatable(rs, frontier) && (!OrphanUpTo(rs, i + 1, frontier) || KeptFrom(rs, i, frontier))
  {
    BelowCutIff(rs, cursor, frontier, i);
    EndsAboveHeader(rs, cursor, i);
  }

  lemma EndsAboveHeader(rs: seq<LogRecord>, cursor: nat, i: nat)
    requires Laid(rs, JOURNAL_HEADER_SIZE, cursor) && i < |rs|
    ensures JOURNAL_HEADER_SIZE < rs[i].end
  {
    LaidOrder(rs, JOURNAL_HEADER_SIZE, cursor, 0, i);
    assert rs[i].start == EndOf(rs, i, JOURNAL_HEADER_SIZE);
  }

  lemma EndsKept(rs: seq<LogRecord>, cursor: nat, frontier: nat, i: nat)
    requires Laid(rs, JOURNAL_HEADER_SIZE, cursor) && i < |rs|
    ensures rs[i].end <= KeptEnd(rs, frontier) <==> KeptFrom(rs, i, frontier)
  {
    var end := KeptEnd(rs, frontier);
    KeptEndIsMax(rs, frontier);
    LaidOrder(rs, JOURNAL_HEADER_SIZE, cursor, 0, i);
    assert rs[i].start == EndOf(rs, i, JOURNAL_HEADER_SIZE);
    if KeptFrom(rs, i, frontier) {
      var j :| i <= j < |rs| && IsKept(rs[j], frontier);
      LaidOrder(rs, JOURNAL_HEADER_SIZE, cursor, i + 1, j + 1);
    }
    if rs[i].end <= end {
      var j :| 0 <= j < |rs| && IsKept(rs[j], frontier) && rs[j].end == end;
      if j < i { LaidApart(rs, JOURNAL_HEADER_SIZE, cursor, j, i); }
    }
  }

  lemma EndsBeforeOrphans(rs: seq<LogRecord>, cursor: nat, frontier: nat, i: nat, k: nat)
    requires Laid(rs, JOURNAL_HEADER_SIZE, cursor) && i < |rs| && k < |rs|
    requires IsOrphan(rs, k, frontier) && forall j :: 0 <= j < |rs| && IsOrphan(rs, j, frontier) ==> rs[k].start <= rs[j].start
    ensures rs[i].end <= rs[k].start <==> !OrphanUpTo(rs, i + 1, frontier)
  {
    if k <= i {
      LaidOrder(rs, JOURNAL_HEADER_SIZE, cursor, k + 1, i + 1);
    } else {
      LaidApart(rs, JOURNAL_HEADER_SIZE, cursor, i, k);
      forall j | 0 <= j < i + 1 ensures !IsOrphan(rs, j, frontier) { LaidApart(rs, JOURNAL_HEADER_SIZE, cursor, j, k); }
    }
  }

  /** A record that fits in a shorter file reads the same there. */
  lemma ReadShorter(file: seq<Byte>, end: nat, cursor: nat, decode: Decoder)
    requires ReadAt(file, cursor, decode).Got? && ReadAt(file, cursor, decode).record.end <= end <= |file|
    ensures ReadAt(file[..end], cursor, decode) == ReadAt(file, cursor, decode)
  {
    var at := cursor + LOG_RECORD_TOTAL_LEN_OFFSET;
    assert file[..end][at..at + 4] == file[at..at + 4];
    var total := LittleEndian(file[at..at + 4]);
    assert file[..end][cursor..cursor + total] == file[cursor..cursor + total];
  }

  /** Cut after any number of accepted records, the file scans to exactly those records. */
  lemma {:induction false} RescanPrefix(file: seq<Byte>, from: nat, k: nat, decode: Decoder)
    requires Scan(file, from, decode).Accepted? && k <= |Scan(file, from, decode).records| && from <= |file|
    ensures var rs := Scan(file, from, decode).records; var end := EndOf(rs, k, from);
      end <= |file| && Scan(file[..end], from, decode) == Accepted(rs[..k], end)
    decreases |file| - from
  {
    var rs := Scan(file, from, decode).records;
    if k > 0 {
      var r := ReadAt(file, from, decode).record;
      var rest := Scan(file, r.end, decode).records;
      RescanPrefix(file, r.end, k - 1, decode);
      var end := EndOf(rest, k - 1, r.end);
      assert EndOf(rs, k, from) == end by { if k > 1 { assert rs[k - 1] == rest[k - 2]; } }
      ScanGrows(file[..end], r.end, decode);
      ReadShorter(file, end, from, decode);
      assert [r] + rest[..k - 1] == rs[..k];
    }
  }

  lemma ScanGrows(file: seq<Byte>, from: nat, decode: Decoder)
    requires Scan(file, from, decode).Accepted?
    ensures from <= Scan(file, from, decode).cursor
  {
  }

  /** A new scan of what is left accepts exactly the records that end at or below the resume LSN, and stops there. */
  lemma CutRescans(journal: seq<Byte>, frontier: nat, empty: seq<Byte>, decode: Decoder) returns (k: nat)
    requires JOURNAL_HEADER_SIZE <= |journal| && Scan(journal, JOURNAL_HEADER_SIZE, decode).Accepted?
    requires |empty| == JOURNAL_HEADER_SIZE
    ensures var scan := Scan(journal, JOURNAL_HEADER_SIZE, decode);
      var resume := Resume(scan.records, scan.cursor, frontier);
      var left := JournalLeft(journal, scan.records, scan.cursor, frontier, empty);
      && |left| == resume
      && k <= |scan.records| && Scan(left, JOURNAL_HEADER_SIZE, decode) == Accepted(scan.records[..k], resume)
      && forall i :: 0 <= i < |scan.records| ==> (i < k <==> scan.records[i].end <= resume)
  {
    var scan := Scan(journal, JOURNAL_HEADER_SIZE, decode);
    var rs := scan.records;
    ScanLaid(journal, JOURNAL_HEADER_SIZE, decode);
    if Truncatable(rs, frontier) {
      k := 0;
    } else {
      k := CutOnBoundary(rs, scan.cursor, frontier);
      RescanPrefix(journal, JOURNAL_HEADER_SIZE, k, decode);
      assert journal[..|journal|] == journal;
    }
    forall i | 0 <= i < |rs| ensures i < k <==> rs[i].end <= Resume(rs, scan.cursor, frontier) {
      EndsAboveHeader(rs, scan.cursor, i);
      EndsUpTo(rs, scan.cursor, k, i);
    }
  }

  lemma EndsUpTo(rs: seq<LogRecord>, cursor: nat, k: nat, i: nat)
    requires Laid(rs, JOURNAL_HEADER_SIZE, cursor) && k <= |rs| && i < |rs|
    ensures i < k <==> rs[i].end <= EndOf(rs, k, JOURNAL_HEADER_SIZE)
  {
    if i < k {
      LaidOrder(rs, JOURNAL_HEADER_SIZE, cursor, i + 1, k);
    } else {
      LaidOrder(rs, JOURNAL_HEADER_SIZE, cursor, k, i);
      assert rs[i].start == EndOf(rs, i, JOURNAL_HEADER_SIZE);
    }
  }

  function SampleHeader(applied: nat): FileHeader { FileHeader(ZERO, applied, 0, []) }

  function SampleBoundary(start: nat, end: nat, batch: nat): LogRecord {
    LogRecord(start, end, 0, ZERO, CheckpointBoundary(Some(BoundaryContent(batch, SampleHeader(start)))))
  }

  function SampleFrame(start: nat, end: nat, batch: nat, page: nat): LogRecord {
    LogRecord(start, end, 0, ZERO, CheckpointPageFrame(Some(FrameContent(batch, PageImage(page, [1])))))
  }

  function SampleCommit(start: nat, end: nat): LogRecord {
    LogRecord(start, end, 1, Ts(1, 0), CrudCommit(false, Some((Ts(1, 0), Ts(1, 0)))))
  }

  function LateFrameLog(): seq<LogRecord> {
    [SampleCommit(32, 200), SampleBoundary(200, 300, 1), SampleFrame(300, 400, 2, 5), SampleFrame(400, 500, 1, 6)]
  }

  lemma LateFrameDrains(rs: seq<LogRecord>, frontier: nat)
    requires rs == LateFrameLog() && frontier <= JOURNAL_HEADER_SIZE
    ensures PageImage(6, [1]) in DrainWrites(rs, |rs|, frontier)
  {
    var w := PageImage(6, [1]);
    FramesOfMember(rs, |rs|, frontier, 1, w);
    assert IsFrameOf(rs[3], frontier, 1) && Drains(rs[1], frontier);
    OnlyCompletedBatches(rs, |rs|, frontier, w);
  }

  lemma LateFrameCut(rs: seq<LogRecord>, frontier: nat)
    requires rs == LateFrameLog() && frontier <= JOURNAL_HEADER_SIZE
    ensures Laid(rs, JOURNAL_HEADER_SIZE, 500) && !Truncatable(rs, frontier) && Resume(rs, 500, frontier) < 500
  {
    assert rs[0].payload.CrudCommit? && IsOrphan(rs, 2, frontier);
    SurvivesIff(rs, 500, frontier, 3);
  }

  lemma LateFrameOk(h: FileHeader, rs: seq<LogRecord>)
    requires rs == LateFrameLog() && h.appliedLsn <= JOURNAL_HEADER_SIZE
    ensures LogOk(h, rs)
  {
    OneCommit(rs, h.appliedLsn);
  }

  lemma OneCommit(rs: seq<LogRecord>, frontier: nat)
    requires rs != [] && IsCommit(rs[0]) && Above(rs[0], frontier) && forall i :: 0 < i < |rs| ==> !IsCommit(rs[i])
    ensures Commits(rs, frontier) == [rs[0]]
  {
    OnlyFirst(rs, |rs|, frontier);
    var one := [rs[0]];
    assert one[..|one| - 1] == [];
    assert Sort(one[..|one| - 1], PublishedBefore) == [];
  }

  lemma {:induction false} OnlyFirst(rs: seq<LogRecord>, n: nat, frontier: nat)
    requires 0 < n <= |rs| && IsCommit(rs[0]) && Above(rs[0], frontier) && forall i :: 0 < i < |rs| ==> !IsCommit(rs[i])
    ensures CommitsIn(rs, n, frontier) == [rs[0]]
  {
    CommitsStep(rs, n - 1, frontier);
    if n > 1 { OnlyFirst(rs, n - 1, frontier); }
  }

  /**
   A drained frame is not a kept record: behind its own boundary and an orphan it is cut off a log
   that is not reset, although the main file that now holds its page was not synced.
   */
  lemma DrainedFrameCanBeCut(h: FileHeader)
    requires h.appliedLsn <= JOURNAL_HEADER_SIZE
    ensures exists rs: seq<LogRecord>, cursor, i ::
      && Laid(rs, JOURNAL_HEADER_SIZE, cursor) && LogOk(h, rs) && !Truncatable(rs, h.appliedLsn)
      && 0 <= i < |rs| && IsFrame(rs[i]) && rs[i].payload.frame.value.image in DrainWrites(rs, |rs|, h.appliedLsn)
      && forall journal, empty :: |JournalLeft(journal, rs, cursor, h.appliedLsn, empty)| < rs[i].end
  {
    var rs := LateFrameLog();
    LateFrameCut(rs, h.appliedLsn);
    LateFrameOk(h, rs);
    LateFrameDrains(rs, h.appliedLsn);
    assert IsFrame(rs[3]) && rs[3].payload.frame.value.image in DrainWrites(rs, |rs|, h.appliedLsn);
  }

  // ---------------------------------------------------------------------------
  // The persisted frontier
  // ---------------------------------------------------------------------------

  lemma {:induction false} HeaderAppliedAfter(h: FileHeader, cs: seq<LogRecord>, n: nat, bound: nat)
    requires n <= |cs| && forall i :: 0 <= i < n && IsCatalog(cs[i]) ==> CatalogHeader(cs[i]).appliedLsn <= bound
    ensures h.appliedLsn <= HeaderAfter(h, cs, n).appliedLsn <= Larger(h.appliedLsn, bound)
  {
    if n > 0 { HeaderAppliedAfter(h, cs, n - 1, bound); }
  }

  lemma {:induction false} LatestIsBoundary(rs: seq<LogRecord>, n: nat, frontier: nat)
    requires n <= |rs|
    ensures LatestHeader(rs, n, frontier).Some? ==>
      exists i :: 0 <= i < n && IsLastDraining(rs, n, frontier, i) && BoundaryHeader(rs[i]) == LatestHeader(rs, n, frontier).value
    ensures LatestHeader(rs, n, frontier).None? ==> forall i :: 0 <= i < n ==> !Drains(rs[i], frontier)
  {
    if n > 0 {
      LatestIsBoundary(rs, n - 1, frontier);
      if Drains(rs[n - 1], frontier) {
        assert IsLastDraining(rs, n, frontier, n - 1);
      } else if LatestHeader(rs, n, frontier).Some? {
        var i :| 0 <= i < n - 1 && IsLastDraining(rs, n - 1, frontier, i)
          && BoundaryHeader(rs[i]) == LatestHeader(rs, n - 1, frontier).value;
        assert IsLastDraining(rs, n, frontier, i);
      }
    }
  }

  predicate IsLastDraining(rs: seq<LogRecord>, n: nat, frontier: nat, i: nat)
    requires i < n <= |rs|
  {
    Drains(rs[i], frontier) && forall j :: i < j < n ==> !Drains(rs[j], frontier)
  }

  /** Apart from timestamp and frontier the working header is the last catalog's. */
  lemma {:induction false} HeaderIsLastCatalog(h: FileHeader, cs: seq<LogRecord>, n: nat)
    requires n <= |cs|
    ensures var w := HeaderAfter(h, cs, n);
      || (SameContent(w, h) && forall i :: 0 <= i < n ==> !IsCatalog(cs[i]))
      || exists i :: 0 <= i < n && IsLastCatalog(cs, n, i) && SameContent(w, CatalogHeader(cs[i]))
  {
    if n > 0 {
      HeaderIsLastCatalog(h, cs, n - 1);
      if IsCatalog(cs[n - 1]) {
        assert IsLastCatalog(cs, n, n - 1);
      } else if exists i :: 0 <= i < n - 1 && IsCatalog(cs[i]) {
        var i :| 0 <= i < n - 1 && IsLastCatalog(cs, n - 1, i) && SameContent(HeaderAfter(h, cs, n - 1), CatalogHeader(cs[i]));
        assert IsLastCatalog(cs, n, i);
      }
    }
  }

  predicate IsLastCatalog(cs: seq<LogRecord>, n: nat, i: nat)
    requires i < n <= |cs|
  {
    IsCatalog(cs[i]) && forall j :: i < j < n ==> !IsCatalog(cs[j])
  }

  predicate SameContent(a: FileHeader, b: FileHeader) { a.totalPageCount == b.totalPageCount && a.rest == b.rest }

  /** The recovered publish number is the largest that was replayed, `None` without commits. */
  lemma {:induction false} MaxSeqIsMax(cs: seq<LogRecord>, n: nat)
    requires n <= |cs|
    ensures MaxSeqAfter(cs, n).None? <==> n == 0
    ensures n > 0 ==> (exists i :: 0 <= i < n && cs[i].publishSeq == MaxSeqAfter(cs, n).value)
    ensures forall i :: 0 <= i < n ==> cs[i].publishSeq <= MaxSeqAfter(cs, n).value
  {
    if n > 0 { MaxSeqIsMax(cs, n - 1); }
  }

  /** Catalogs, like the boundaries the scan lets through, claim no frontier beyond their own end. */
  predicate CatalogsModest(rs: seq<LogRecord>) {
    forall i :: 0 <= i < |rs| && IsCatalog(rs[i]) ==> CatalogHeader(rs[i]).appliedLsn <= rs[i].end
  }

  /** An orphan frame that begins below the frontier and ends above it. */
  predicate Straddled(rs: seq<LogRecord>, frontier: nat) {
    exists i :: 0 <= i < |rs| && IsOrphan(rs, i, frontier) && rs[i].start < frontier
  }

  lemma CatalogsBelowKept(rs: seq<LogRecord>, frontier: nat)
    requires CatalogsModest(rs)
    ensures var cs := Commits(rs, frontier);
      forall i :: 0 <= i < |cs| && IsCatalog(cs[i]) ==> CatalogHeader(cs[i]).appliedLsn <= KeptEnd(rs, frontier)
  {
    var cs, end := Commits(rs, frontier), KeptEnd(rs, frontier);
    KeptEndIsMax(rs, frontier);
    forall i | 0 <= i < |cs| && IsCatalog(cs[i]) ensures CatalogHeader(cs[i]).appliedLsn <= end {
      CommitsMember(rs, frontier, cs[i]);
      var j :| 0 <= j < |rs| && rs[j] == cs[i];
      assert IsKept(rs[j], frontier);
    }
  }

  lemma LatestBelowKept(rs: seq<LogRecord>, cursor: nat, frontier: nat)
    requires Laid(rs, JOURNAL_HEADER_SIZE, cursor) && LatestHeader(rs, |rs|, frontier).Some?
    ensures LatestHeader(rs, |rs|, frontier).value.appliedLsn <= KeptEnd(rs, frontier)
  {
    LatestIsBoundary(rs, |rs|, frontier);
    KeptEndIsMax(rs, frontier);
    var i :| 0 <= i < |rs| && IsLastDraining(rs, |rs|, frontier, i)
      && BoundaryHeader(rs[i]) == LatestHeader(rs, |rs|, frontier).value;
    assert IsKept(rs[i], frontier) && Classify(rs[i]).Keep?;
  }

  lemma KeptBelowCut(rs: seq<LogRecord>, cursor: nat, frontier: nat)
    requires Laid(rs, JOURNAL_HEADER_SIZE, cursor)
    ensures KeptEnd(rs, frontier) <= ValidEnd(rs, cursor, frontier)
  {
    KeptEndIsMax(rs, frontier);
    LaidOrder(rs, JOURNAL_HEADER_SIZE, cursor, 0, |rs|);
    if KeptEnd(rs, frontier) != JOURNAL_HEADER_SIZE {
      var i :| 0 <= i < |rs| && IsKept(rs[i], frontier) && rs[i].end == KeptEnd(rs, frontier);
      LaidOrder(rs, JOURNAL_HEADER_SIZE, cursor, i + 1, |rs|);
    }
  }

  lemma FrontierWhenKept(h: FileHeader, rs: seq<LogRecord>, cursor: nat)
    requires Laid(rs, JOURNAL_HEADER_SIZE, cursor) && CatalogsModest(rs)
    requires KeptFrom(rs, 0, h.appliedLsn) && !Truncatable(rs, h.appliedLsn)
    ensures FinalHeader(h, rs).appliedLsn <= KeptEnd(rs, h.appliedLsn) <= ValidEnd(rs, cursor, h.appliedLsn)
  {
    var frontier := h.appliedLsn;
    var cs, end := Commits(rs, frontier), KeptEnd(rs, frontier);
    KeptBelowCut(rs, cursor, frontier);
    CatalogsBelowKept(rs, frontier);
    HeaderAppliedAfter(h, cs, |cs|, end);
    if LatestHeader(rs, |rs|, frontier).Some? { LatestBelowKept(rs, cursor, frontier); }
    assert frontier < end by { KeptEndIsMax(rs, frontier); }
  }

  lemma FrontierWhenNothingKept(h: FileHeader, rs: seq<LogRecord>, cursor: nat)
    requires Laid(rs, JOURNAL_HEADER_SIZE, cursor) && !KeptFrom(rs, 0, h.appliedLsn)
    ensures FinalHeader(h, rs) == h && !Truncatable(rs, h.appliedLsn)
    ensures h.appliedLsn <= ValidEnd(rs, cursor, h.appliedLsn) <==> h.appliedLsn <= cursor && !Straddled(rs, h.appliedLsn)
  {
    var frontier := h.appliedLsn;
    var cs := Commits(rs, frontier);
    assert cs == [] by { if cs != [] { CommitsMember(rs, frontier, cs[0]); } }
    LatestIsBoundary(rs, |rs|, frontier);
    KeptEndIsMax(rs, frontier);
    var orphan := FirstOrphan(rs, |rs|, frontier);
    if orphan.Some? {
      var k :| 0 <= k < |rs| && IsOrphan(rs, k, frontier) && rs[k].start == orphan.value;
      LaidOrder(rs, JOURNAL_HEADER_SIZE, cursor, k, |rs|);
      LaidOrder(rs, JOURNAL_HEADER_SIZE, cursor, 0, k);
      assert rs[k].start == EndOf(rs, k, JOURNAL_HEADER_SIZE);
    }
  }

  /**
   The frontier that recovery persists is at or below the LSN at which the log resumes, so that
   no later append is filtered out, exactly when the log is reset, or some record is kept, or the
   incoming frontier is within the log and no orphan frame straddles it.
   */
  lemma FrontierBelowResumeIff(h: FileHeader, rs: seq<LogRecord>, cursor: nat)
    requires Laid(rs, JOURNAL_HEADER_SIZE, cursor) && CatalogsModest(rs)
    ensures FinalHeader(h, rs).appliedLsn <= Resume(rs, cursor, h.appliedLsn) <==>
      || Truncatable(rs, h.appliedLsn)
      || KeptFrom(rs, 0, h.appliedLsn)
      || (h.appliedLsn <= cursor && !Straddled(rs, h.appliedLsn))
  {
    if !Truncatable(rs, h.appliedLsn) {
      if KeptFrom(rs, 0, h.appliedLsn) {
        FrontierWhenKept(h, rs, cursor);
      } else {
        FrontierWhenNothingKept(h, rs, cursor);
      }
    }
  }

  /** A frontier inside an orphan: the log is cut below the frontier that stays persisted. */
  lemma StraddledFrontierIsAbove()
    ensures exists h: FileHeader, rs: seq<LogRecord>, cursor ::
      && Laid(rs, JOURNAL_HEADER_SIZE, cursor) && CatalogsModest(rs) && h.appliedLsn <= cursor
      && Resume(rs, cursor, h.appliedLsn) < FinalHeader(h, rs).appliedLsn
  {
    var h, rs := SampleHeader(100), [SampleFrame(32, 200, 1, 5)];
    assert IsOrphan(rs, 0, 100);
    assert Laid(rs, JOURNAL_HEADER_SIZE, 200) && CatalogsModest(rs);
    FrontierBelowResumeIff(h, rs, 200);
    LatestIsBoundary(rs, 1, 100);
  }

  // ---------------------------------------------------------------------------
  // Clock and batch ids
  // ---------------------------------------------------------------------------

  function OrZero(t: Option<Ts>): Ts { if t.Some? then t.value else ZERO }

  lemma {:induction false} NewestIsMax(t: Option<Ts>, cs: seq<LogRecord>, n: nat)
    requires n <= |cs|
    ensures OrZero(t).Le(OrZero(NewestAfter(t, cs, n)))
    ensures forall i :: 0 <= i < n ==> cs[i].commitTs.Le(OrZero(NewestAfter(t, cs, n)))
    ensures NewestAfter(t, cs, n) == t || exists i :: 0 <= i < n && NewestAfter(t, cs, n) == Some(cs[i].commitTs)
  {
    if n > 0 { NewestIsMax(t, cs, n - 1); }
  }

  /** The clock value that recovery hands on. */
  function RecoveredTs(h: FileHeader, rs: seq<LogRecord>, boundaryTs: Option<Ts>): Ts {
    var cs := Commits(rs, h.appliedLsn);
    OrZero(NewestAfter(StartTs(h, boundaryTs), cs, |cs|))
  }

  /** It is at least every replayed commit's, every boundary's and the incoming header's timestamp. */
  lemma RecoveredTsCovers(h: FileHeader, rs: seq<LogRecord>, boundaryTs: Option<Ts>)
    requires IsMaxBoundaryTs(rs, |rs|, boundaryTs)
    ensures var t := RecoveredTs(h, rs, boundaryTs);
      && (forall r: LogRecord :: r in rs && IsCommit(r) && Above(r, h.appliedLsn) ==> r.commitTs.Le(t))
      && (forall r: LogRecord :: r in rs && IsBoundary(r) ==> BoundaryTs(r).Le(t))
      && h.lastCheckpointTs.Le(t)
  {
    var cs := Commits(rs, h.appliedLsn);
    NewestIsMax(StartTs(h, boundaryTs), cs, |cs|);
    forall r: LogRecord | r in rs && IsCommit(r) && Above(r, h.appliedLsn) ensures r.commitTs.Le(RecoveredTs(h, rs, boundaryTs)) {
      CommitsMember(rs, h.appliedLsn, r);
    }
  }

  /** It covers the header that recovery persists exactly when it covers every replayed catalog's header. */
  lemma RecoveredTsCoversHeaderIff(h: FileHeader, rs: seq<LogRecord>, boundaryTs: Option<Ts>)
    requires IsMaxBoundaryTs(rs, |rs|, boundaryTs)
    ensures var t, cs := RecoveredTs(h, rs, boundaryTs), Commits(rs, h.appliedLsn);
      FinalHeader(h, rs).lastCheckpointTs.Le(t) <==> CatalogTsBelow(cs, |cs|, t)
  {
    var cs := Commits(rs, h.appliedLsn);
    RecoveredTsCovers(h, rs, boundaryTs);
    HeaderTsAfter(h, cs, |cs|);
    LatestIsBoundary(rs, |rs|, h.appliedLsn);
  }

  /** A log whose catalog carries a later checkpoint timestamp than its own commit's: the clock stays behind the header. */
  lemma CatalogHeaderAhead(h: FileHeader)
    requires h.appliedLsn <= JOURNAL_HEADER_SIZE && h.lastCheckpointTs == ZERO
    ensures exists rs: seq<LogRecord>, cursor, boundaryTs ::
      && Laid(rs, JOURNAL_HEADER_SIZE, cursor) && LogOk(h, rs) && IsMaxBoundaryTs(rs, |rs|, boundaryTs)
      && RecoveredTs(h, rs, boundaryTs).Lt(FinalHeader(h, rs).lastCheckpointTs)
  {
    var r := LogRecord(32, 200, 1, Ts(1, 0), CatalogCommit(Some(([], SampleHeader(32).(lastCheckpointTs := Ts(9, 0))))));
    var rs := [r];
    OneCommit(rs, h.appliedLsn);
    assert Laid(rs, JOURNAL_HEADER_SIZE, 200) && IsMaxBoundaryTs(rs, |rs|, None);
    assert NewestAfter(None, [r], 0) == None && NewestAfter(None, [r], 1) == Some(Ts(1, 0));
    LatestIsBoundary(rs, |rs|, h.appliedLsn);
    HeaderTsAfter(h, [r], 1);
  }

  /** A frame above the frontier that is left in the journal and carries the batch id. */
  predicate FrameLeft(rs: seq<LogRecord>, cursor: nat, frontier: nat, batch: nat) {
    exists i :: 0 <= i < |rs| && IsFrameOf(rs[i], frontier, batch) && rs[i].end <= Resume(rs, cursor, frontier)
  }

  /**
   The next batch id is larger than every boundary's, but a frame with that id is left in the
   journal exactly when the journal is not reset and an orphan with that id lies below a kept record.
   */
  lemma NextBatchCollidesIff(rs: seq<LogRecord>, cursor: nat, frontier: nat, m: Option<nat>)
    requires Laid(rs, JOURNAL_HEADER_SIZE, cursor) && IsMaxBatch(rs, |rs|, m) && (m.Some? ==> m.value < U64_MAX)
    ensures forall i :: 0 <= i < |rs| && IsBoundary(rs[i]) ==> BatchOf(rs[i]) < NextBatch(m)
    ensures FrameLeft(rs, cursor, frontier, NextBatch(m)) <==>
      && !Truncatable(rs, frontier)
      && exists i :: 0 <= i < |rs| && IsFrameOf(rs[i], frontier, NextBatch(m)) && KeptFrom(rs, i, frontier)
  {
    forall i | 0 <= i < |rs| && IsFrameOf(rs[i], frontier, NextBatch(m))
      ensures rs[i].end <= Resume(rs, cursor, frontier) <==> !Truncatable(rs, frontier) && KeptFrom(rs, i, frontier)
    {
      assert IsOrphan(rs, i, frontier);
      SurvivesIff(rs, cursor, frontier, i);
    }
  }

  /**
   So batch ids can repeat: a torn checkpoint's frame below a commit survives, the next
   checkpoint takes its batch id, and that checkpoint's boundary releases the old frame.
   */
  lemma TornFrameReleased(frontier: nat)
    requires frontier <= JOURNAL_HEADER_SIZE
    ensures exists rs: seq<LogRecord>, cursor, m, boundary: LogRecord, w ::
      && Laid(rs, JOURNAL_HEADER_SIZE, cursor) && IsMaxBatch(rs, |rs|, m)
      && Resume(rs, cursor, frontier) == cursor && w !in DrainWrites(rs, |rs|, frontier)
      && IsBoundary(boundary) && BatchOf(boundary) == NextBatch(m) && boundary.start == cursor
      && w in DrainWrites(rs + [boundary], |rs| + 1, frontier)
  {
    var rs, boundary, w := [SampleFrame(32, 200, 1, 5), SampleCommit(200, 300)], SampleBoundary(300, 400, 1), PageImage(5, [1]);
    var later := rs + [boundary];
    assert IsFrameOf(rs[0], frontier, 1) && IsKept(rs[1], frontier) && rs[1].payload.CrudCommit?;
    SurvivesIff(rs, 300, frontier, 1);
    CutBelowCursor(rs, 300, frontier);
    OnlyCompletedBatches(rs, |rs|, frontier, w);
    OnlyCompletedBatches(later, |later|, frontier, w);
    FramesOfMember(later, |later|, frontier, 1, w);
    assert Drains(later[2], frontier) && later[0] == rs[0];
    assert NextBatch(None) == 1 && IsMaxBatch(rs, |rs|, None);
  }

  lemma CutBelowCursor(rs: seq<LogRecord>, cursor: nat, frontier: nat)
    requires Laid(rs, JOURNAL_HEADER_SIZE, cursor)
    ensures ValidEnd(rs, cursor, frontier) <= cursor
  {
    var k := CutOnBoundary(rs, cursor, frontier);
  }
}
