/** The journal that recovery hands to a fresh log manager, and what a power cut can still take from it. */
module Reopen {
  import opened Bytes
  import opened JournalScan
  import opened RecoverySpec
  import opened Recovery
  import opened RecoveryCut
  import opened LogSlots
  import opened GroupCommit
  import opened GroupCommitRuns

  /** Accepted records as earlier lifetimes left them in the file. */
  function OldRecs(file: seq<Byte>, rs: seq<LogRecord>): seq<Rec>
    requires forall i :: 0 <= i < |rs| ==> rs[i].start <= rs[i].end <= |file|
  {
    seq(|rs|, i requires 0 <= i < |rs| => Rec(rs[i].start, file[rs[i].start..rs[i].end], Done))
  }

  lemma LaidWithin(rs: seq<LogRecord>, from: nat, to: nat)
    requires Laid(rs, from, to)
    ensures forall i :: 0 <= i < |rs| ==> from <= rs[i].start < rs[i].end <= to
  {
    forall i | 0 <= i < |rs| ensures from <= rs[i].start < rs[i].end <= to {
      LaidOrder(rs, from, to, 0, i);
      LaidOrder(rs, from, to, i + 1, |rs|);
      assert rs[i].start == EndOf(rs, i, from);
    }
  }

  lemma {:induction false} OldRecsChained(file: seq<Byte>, rs: seq<LogRecord>, from: nat, to: nat)
    requires Laid(rs, from, to) && (forall i :: 0 <= i < |rs| ==> rs[i].start <= rs[i].end <= |file|)
    ensures Chained(OldRecs(file, rs), from, to)
    decreases |rs|
  {
    if rs != [] {
      var rest := rs[1..];
      assert EndOf(rs, 0, from) == from;
      forall i | 0 <= i <= |rest| ensures EndOf(rest, i, rs[0].end) == EndOf(rs, i + 1, from) {}
      OldRecsChained(file, rest, rs[0].end, to);
      assert OldRecs(file, rs)[1..] == OldRecs(file, rest);
    }
  }

  /** `r` is what recovery makes of `journal`; `empty` is the header that a reset leaves. */
  ghost predicate Opens(
    r: Recovery.Outcome, journal: seq<Byte>, main: seq<Byte>, h: FileHeader, empty: seq<Byte>, decode: Decoder,
    enc: HeaderCodec)
  {
    var scan := Scan(journal, JOURNAL_HEADER_SIZE, decode);
    && |empty| == JOURNAL_HEADER_SIZE <= |journal|
    && scan.Accepted? && Owed(r, journal, main, h, scan.records, scan.cursor, empty, enc)
  }

  /** `w` is a world right after open, whatever the threads and whatever of an unsynced journal is on the medium. */
  ghost predicate Reopened(w: World, r: Recovery.Outcome, decode: Decoder)
    requires r.Recovered?
  {
    var left := Scan(r.journal, JOURNAL_HEADER_SIZE, decode);
    && left.Accepted? && Laid(left.records, JOURNAL_HEADER_SIZE, r.resume) && |r.journal| == r.resume
    && (forall i :: 0 <= i < |left.records| ==> left.records[i].start <= left.records[i].end <= |r.journal|)
    && w.first == JOURNAL_HEADER_SIZE && w.seeded == r.resume && w.syncedAtOpen == r.synced
    && w.m == Fresh(r.resume) && w.recs == OldRecs(r.journal, left.records) && w.cache == r.journal
    && w.pcs != [] && (forall k :: 0 <= k < |w.pcs| ==> w.pcs[k].Idle?)
    && JOURNAL_HEADER_SIZE <= |w.stable| <= |w.cache| && w.stable[..w.first] == w.cache[..w.first]
    && (w.syncedAtOpen ==> w.stable == w.cache)
  }

  /** Every such world is one that the group-commit protocol starts from. */
  lemma ReopenedIsInit(w: World, r: Recovery.Outcome, decode: Decoder)
    requires r.Recovered? && Reopened(w, r, decode)
    ensures Init(w)
  {
    OldRecsChained(r.journal, Scan(r.journal, JOURNAL_HEADER_SIZE, decode).records, JOURNAL_HEADER_SIZE, r.resume);
    ChainedBounds(w.recs, w.first, w.seeded);
  }

  /** The world opened with `stable` on the medium. */
  lemma OpenOn(
    r: Recovery.Outcome, journal: seq<Byte>, main: seq<Byte>, h: FileHeader, empty: seq<Byte>, decode: Decoder,
    enc: HeaderCodec, stable: seq<Byte>) returns (w: World)
    requires Opens(r, journal, main, h, empty, decode, enc)
    requires JOURNAL_HEADER_SIZE <= |stable| && stable <= r.journal && (r.synced ==> stable == r.journal)
    ensures Reopened(w, r, decode) && w.stable == stable
  {
    var scan := Scan(journal, JOURNAL_HEADER_SIZE, decode);
    var n := CutRescans(journal, h.appliedLsn, empty, decode);
    var left := scan.records[..n];
    ScanLaid(r.journal, JOURNAL_HEADER_SIZE, decode);
    LaidWithin(left, JOURNAL_HEADER_SIZE, r.resume);
    w := World(JOURNAL_HEADER_SIZE, r.resume, r.synced, Fresh(r.resume), OldRecs(r.journal, left), [Idle], r.journal, stable);
  }

  /**
   The log manager starts out by calling everything below the resume LSN durable. Exactly when is that
   true of every medium, so that no run returns an Ok that a power cut can take back: recovery reset the
   journal or cut a tail off, which both fsync it, or there was no record left.
   */
  lemma ReopenDurableIff(
    r: Recovery.Outcome, journal: seq<Byte>, main: seq<Byte>, h: FileHeader, empty: seq<Byte>, decode: Decoder, enc: HeaderCodec)
    requires Opens(r, journal, main, h, empty, decode, enc)
    ensures var rs := Scan(journal, JOURNAL_HEADER_SIZE, decode).records;
      (forall w :: Reopened(w, r, decode) ==> Durable(w)) <==>
        Truncatable(rs, h.appliedLsn) || r.resume < |journal| || r.resume == JOURNAL_HEADER_SIZE
  {
    var n := CutRescans(journal, h.appliedLsn, empty, decode);
    forall w | Reopened(w, r, decode) ensures Durable(w) <==> w.stable == w.cache {
      ReopenedIsInit(w, r, decode);
      DurableIff(w);
    }
    if r.synced || r.resume == JOURNAL_HEADER_SIZE {
      forall w | Reopened(w, r, decode) ensures w.stable == w.cache {
        assert w.stable[..|w.stable|] == w.stable && w.cache[..|w.cache|] == w.cache;
      }
    } else {
      var w := OpenOn(r, journal, main, h, empty, decode, enc, r.journal[..JOURNAL_HEADER_SIZE]);
      assert w.stable != w.cache && !Durable(w);
    }
  }

  // ---------------------------------------------------------------------------
  // A journal on the branch without an fsync
  // ---------------------------------------------------------------------------

  /** The header and one record of the least length. */
  function OneRecordJournal(): seq<Byte> {
    Zeros(JOURNAL_HEADER_SIZE) + Zeros(LOG_RECORD_TOTAL_LEN_OFFSET) + [LOG_RECORD_HEADER_LEN, 0, 0, 0] + Zeros(56)
  }

  function OneRecordDecoder(): Decoder { (bytes: seq<Byte>) => Intact(SampleCommit(32, 104)) }

  lemma OneRecordScan(journal: seq<Byte>, decode: Decoder)
    requires journal == OneRecordJournal() && decode == OneRecordDecoder()
    ensures |journal| == 104 && Scan(journal, JOURNAL_HEADER_SIZE, decode) == Accepted([SampleCommit(32, 104)], 104)
  {
    var length := journal[44..48];
    assert length == [72, 0, 0, 0] && length[1..] == [0, 0, 0] && length[1..][1..] == [0, 0] && length[1..][1..][1..] == [0];
    assert LittleEndian([0]) == 0 && LittleEndian([0, 0]) == 0;
    assert LittleEndian(length) == 72;
    assert ReadAt(journal, JOURNAL_HEADER_SIZE, decode) == Got(SampleCommit(32, 104));
  }

  /** A whole journal of one commit: recovery syncs nothing, and an Ok is returned for bytes that are lost. */
  lemma OkCanBeLost(
    r: Recovery.Outcome, journal: seq<Byte>, main: seq<Byte>, h: FileHeader, empty: seq<Byte>, decode: Decoder, enc: HeaderCodec)
    requires journal == OneRecordJournal() && decode == OneRecordDecoder() && h.appliedLsn <= JOURNAL_HEADER_SIZE
    requires Opens(r, journal, main, h, empty, decode, enc)
    ensures LogOk(h, Scan(journal, JOURNAL_HEADER_SIZE, decode).records)
    ensures exists w :: Reopened(w, r, decode) && !w.syncedAtOpen && !Durable(w)
  {
    OneRecordScan(journal, decode);
    var rs := [SampleCommit(32, 104)];
    OneCommit(rs, h.appliedLsn);
    assert rs[0].payload.CrudCommit? && !Truncatable(rs, h.appliedLsn);
    NoOrphan(rs, 104, h.appliedLsn);
    ReopenDurableIff(r, journal, main, h, empty, decode, enc);
  }

  lemma NoOrphan(rs: seq<LogRecord>, cursor: nat, frontier: nat)
    requires forall i :: 0 <= i < |rs| ==> !IsFrame(rs[i])
    ensures ValidEnd(rs, cursor, frontier) == cursor
  {
  }
}
