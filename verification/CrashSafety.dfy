/** What a crashed journal gives back. */
module CrashSafety {
  import opened Bytes
  import opened GroupCommit
  import opened GroupCommitRuns
  import opened JournalScan
  import opened Options

  /** The bytes of `r` are a record the codec accepts at exactly its own place in the log. */
  ghost predicate Framed(r: Rec, decode: Decoder) {
    && LOG_RECORD_HEADER_LEN <= |r.bytes| <= MAX_LOG_RECORD_BYTES
    && LittleEndian(r.bytes[LOG_RECORD_TOTAL_LEN_OFFSET..LOG_RECORD_TOTAL_LEN_OFFSET + 4]) == |r.bytes|
    && decode(r.bytes).Intact?
    && decode(r.bytes).record.start == r.start
    && decode(r.bytes).record.end == r.End()
    && Classify(decode(r.bytes).record).Keep?
  }

  ghost predicate AllFramed(recs: seq<Rec>, decode: Decoder) {
    forall i :: 0 <= i < |recs| ==> Framed(recs[i], decode)
  }

  /** The record that `r` holds; only framed records have one. */
  function RecordOf(r: Rec, decode: Decoder): LogRecord {
    match decode(r.bytes)
    case Intact(record) => record
    case _ => LogRecord(r.start, r.End(), 0, Timestamps.ZERO, CatalogCommit(None))
  }

  function Records(recs: seq<Rec>, decode: Decoder): (r: seq<LogRecord>)
    ensures |r| == |recs|
    ensures forall i :: 0 <= i < |recs| ==> r[i] == RecordOf(recs[i], decode)
  {
    if recs == [] then [] else [RecordOf(recs[0], decode)] + Records(recs[1..], decode)
  }

  /** Where the first `n` records end. */
  function Boundary(recs: seq<Rec>, first: nat, n: nat): nat
    requires n <= |recs|
  {
    if n == 0 then first else recs[n - 1].End()
  }

  /** `r` lies complete in `file`. */
  ghost predicate Whole(file: seq<Byte>, r: Rec) {
    r.End() <= |file| && file[r.start..r.End()] == r.bytes
  }

  /** The scan takes a complete record for what its writer encoded. */
  lemma ReadsBack(file: seq<Byte>, r: Rec, decode: Decoder)
    requires Framed(r, decode) && Whole(file, r)
    ensures ReadAt(file, r.start, decode) == Got(RecordOf(r, decode))
  {
    SliceOfSlice(file, r.start, r.End(), LOG_RECORD_TOTAL_LEN_OFFSET, LOG_RECORD_TOTAL_LEN_OFFSET + 4);
  }

  lemma SliceOfSlice(s: seq<Byte>, a: nat, b: nat, c: nat, d: nat)
    requires a <= b <= |s| && c <= d <= b - a
    ensures s[a..b][c..d] == s[a + c..a + d]
  {
    assert forall i :: 0 <= i < d - c ==> s[a..b][c..d][i] == s[a + c..a + d][i];
  }

  /** A chain of complete records is accepted in order and the scan goes on behind it. */
  lemma {:induction false} ScanChain(file: seq<Byte>, recs: seq<Rec>, from: nat, to: nat, decode: Decoder)
    requires Chained(recs, from, to)
    requires AllFramed(recs, decode) && forall i :: 0 <= i < |recs| ==> Whole(file, recs[i])
    ensures Scan(file, from, decode) == Prepend(Records(recs, decode), Scan(file, to, decode))
  {
    if recs != [] {
      assert Framed(recs[0], decode) && Whole(file, recs[0]);
      ReadsBack(file, recs[0], decode);
      forall i | 0 <= i < |recs[1..]| ensures Framed(recs[1..][i], decode) && Whole(file, recs[1..][i]) {
        assert recs[1..][i] == recs[i + 1];
      }
      ScanChain(file, recs[1..], recs[0].End(), to, decode);
      PrependJoins(RecordOf(recs[0], decode), Records(recs[1..], decode), Scan(file, to, decode));
    }
  }

  lemma PrependJoins(r: LogRecord, rs: seq<LogRecord>, rest: Scanned)
    ensures Prepend([r], Prepend(rs, rest)) == Prepend([r] + rs, rest)
  {
    if rest.Accepted? { assert [r] + (rs + rest.records) == [r] + rs + rest.records; }
  }

  /** Below the durable frontier every crash image holds the records whole. */
  lemma DurableWhole(w: World, disk: seq<Byte>, i: nat)
    requires Inv(w) && Promised(w) && Between(w.stable, disk, w.cache)
    requires i < |w.recs| && w.recs[i].End() <= w.m.durable
    ensures Whole(disk, w.recs[i])
  {
    var r := w.recs[i];
    BetweenAgrees(w.stable, disk, w.cache, w.m.durable);
    ChainedBounds(w.recs, w.first, w.m.next);
    assert Slotted(w.m, r) && Present(w.cache, r);
    forall a | 0 <= a < |r.bytes| ensures disk[r.start..r.End()][a] == r.bytes[a] {
      assert disk[..w.m.durable][r.start + a] == w.cache[..w.m.durable][r.start + a];
    }
  }

  /**
   No durable record is lost. After any interleaving and any power cut, the first `n`
   records, all at or below the durable frontier, are accepted unchanged and in LSN order,
   and whatever the scan makes of the rest comes after them.
   */
  lemma DurableRecordsSurvive(w: World, steps: seq<Step>, v: World, disk: seq<Byte>, n: nat, decode: Decoder)
    requires Init(w) && Run(w, steps, v) && Promised(v)
    requires AllFramed(v.recs, decode)
    requires Between(v.stable, disk, v.cache)
    requires n <= |v.recs| && (n > 0 ==> v.recs[n - 1].End() <= v.m.durable)
    ensures Scan(disk, v.first, decode)
         == Prepend(Records(v.recs[..n], decode), Scan(disk, Boundary(v.recs, v.first, n), decode))
  {
    InitInv(w);
    RunInv(w, steps, v);
    var mid := FirstChained(v, n);
    FirstWhole(v, disk, n, decode);
    ScanChain(disk, v.recs[..n], v.first, mid, decode);
  }

  lemma FirstChained(v: World, n: nat) returns (mid: nat)
    requires Inv(v) && n <= |v.recs|
    ensures Chained(v.recs[..n], v.first, mid) && mid == Boundary(v.recs, v.first, n)
  {
    mid := ChainedSplit(v.recs, v.first, v.m.next, n);
  }

  lemma FirstWhole(v: World, disk: seq<Byte>, n: nat, decode: Decoder)
    requires Inv(v) && Promised(v) && Between(v.stable, disk, v.cache) && AllFramed(v.recs, decode)
    requires n <= |v.recs| && (n > 0 ==> v.recs[n - 1].End() <= v.m.durable)
    ensures AllFramed(v.recs[..n], decode) && forall i :: 0 <= i < n ==> Whole(disk, v.recs[..n][i])
  {
    var mid := FirstChained(v, n);
    ChainedBounds(v.recs[..n], v.first, mid);
    forall i | 0 <= i < n ensures Framed(v.recs[..n][i], decode) && Whole(disk, v.recs[..n][i]) {
      assert Framed(v.recs[i], decode);
      assert v.recs[..n][i] == v.recs[i];
      DurableWhole(v, disk, i);
    }
  }

  /** An ideal checksum: only a completely written record gets past the codec's CRC gates. */
  ghost predicate IdealCrc(disk: seq<Byte>, recs: seq<Rec>, decode: Decoder) {
    forall a, b {:trigger disk[a..b]} :: 0 <= a <= b <= |disk| && !decode(disk[a..b]).Torn? ==>
      exists i :: 0 <= i < |recs| && recs[i].start == a && recs[i].End() == b && disk[a..b] == recs[i].bytes
  }

  /** With an ideal checksum the scan finds the next issued record or the end of the log. */
  lemma IdealRead(disk: seq<Byte>, recs: seq<Rec>, first: nat, next: nat, k: nat, decode: Decoder)
    requires Chained(recs, first, next) && k <= |recs|
    requires AllFramed(recs, decode) && IdealCrc(disk, recs, decode)
    ensures var read := ReadAt(disk, Boundary(recs, first, k), decode);
      read.EndOfLog?
      || (k < |recs| && read == Got(RecordOf(recs[k], decode)) && read.record.end == Boundary(recs, first, k + 1))
  {
    var from := Boundary(recs, first, k);
    if !ReadAt(disk, from, decode).EndOfLog? {
      var at := from + LOG_RECORD_TOTAL_LEN_OFFSET;
      var end := from + LittleEndian(disk[at..at + 4]);
      var i :| 0 <= i < |recs| && recs[i].start == from && recs[i].End() == end && disk[from..end] == recs[i].bytes;
      OnlyRecordAt(recs, first, next, i, k);
      ReadsBack(disk, recs[k], decode);
    }
  }

  /** With an ideal checksum the scan behind `k` records accepts the next few and reports no corruption. */
  lemma {:induction false} ScanIdeal(disk: seq<Byte>, recs: seq<Rec>, first: nat, next: nat, k: nat, decode: Decoder)
    returns (n: nat)
    requires Chained(recs, first, next) && k <= |recs|
    requires AllFramed(recs, decode) && IdealCrc(disk, recs, decode)
    ensures k <= n <= |recs|
    ensures Scan(disk, Boundary(recs, first, k), decode) == Accepted(Records(recs[k..n], decode), Boundary(recs, first, n))
    decreases |recs| - k
  {
    var from := Boundary(recs, first, k);
    n := k;
    IdealRead(disk, recs, first, next, k, decode);
    if from < |disk| && !ReadAt(disk, from, decode).EndOfLog? {
      n := ScanIdeal(disk, recs, first, next, k + 1, decode);
      RecordsHead(recs, k, n, decode);
    }
  }

  lemma RecordsHead(recs: seq<Rec>, k: nat, n: nat, decode: Decoder)
    requires k < n <= |recs|
    ensures Records(recs[k..n], decode) == [RecordOf(recs[k], decode)] + Records(recs[k + 1..n], decode)
  {
    assert recs[k..n][1..] == recs[k + 1..n];
  }

  lemma OnlyRecordAt(recs: seq<Rec>, first: nat, next: nat, i: nat, k: nat)
    requires Chained(recs, first, next) && i < |recs| && k <= |recs|
    requires recs[i].start == Boundary(recs, first, k)
    ensures i == k
  {
    var mid := ChainedSplit(recs, first, next, k);
    ChainedBounds(recs, first, next);
    if k < |recs| && i != k { OtherStart(recs, first, next, i, k); }
  }

  /**
   With an ideal checksum, recovery of any crashed run succeeds and accepts exactly some
   first `n` of the issued records: all durable ones, and never a torn or invented one.
   */
  lemma CrashAcceptsPrefix(w: World, steps: seq<Step>, v: World, disk: seq<Byte>, decode: Decoder) returns (n: nat)
    requires Init(w) && Run(w, steps, v) && Promised(v)
    requires AllFramed(v.recs, decode)
    requires Between(v.stable, disk, v.cache)
    requires IdealCrc(disk, v.recs, decode)
    ensures n <= |v.recs|
    ensures Scan(disk, v.first, decode) == Accepted(Records(v.recs[..n], decode), Boundary(v.recs, v.first, n))
    ensures forall i :: 0 <= i < |v.recs| && v.recs[i].End() <= v.m.durable ==> i < n
  {
    InitInv(w);
    RunInv(w, steps, v);
    n := ScanIdeal(disk, v.recs, v.first, v.m.next, 0, decode);
    assert v.recs[0..n] == v.recs[..n];
    forall i | 0 <= i < |v.recs| && v.recs[i].End() <= v.m.durable ensures i < n {
      DurableAccepted(w, steps, v, disk, i, decode);
    }
  }

  lemma DurableAccepted(w: World, steps: seq<Step>, v: World, disk: seq<Byte>, i: nat, decode: Decoder)
    requires Init(w) && Run(w, steps, v) && Promised(v)
    requires AllFramed(v.recs, decode)
    requires Between(v.stable, disk, v.cache)
    requires i < |v.recs| && v.recs[i].End() <= v.m.durable
    ensures Scan(disk, v.first, decode).Accepted? ==> i < |Scan(disk, v.first, decode).records|
  {
    DurableRecordsSurvive(w, steps, v, disk, i + 1, decode);
    assert |Records(v.recs[..i + 1], decode)| == i + 1;
  }
}
