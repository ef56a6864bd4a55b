/** Log records and the scan that recovery starts with: the longest valid prefix of the journal. */
module JournalScan {
  import opened Bytes
  import opened Options
  import opened Timestamps

  const JOURNAL_HEADER_SIZE: nat := 32
  const LOG_RECORD_HEADER_LEN: nat := 72
  const LOG_RECORD_TOTAL_LEN_OFFSET: nat := 12
  const MAX_LOG_RECORD_BYTES: nat := 64 * 1024 * 1024

  /** The main file's header page; `rest` stands for the fields recovery copies without looking. */
  datatype FileHeader = FileHeader(lastCheckpointTs: Ts, appliedLsn: nat, totalPageCount: nat, rest: seq<Byte>)

  datatype PageImage = PageImage(page: nat, data: seq<Byte>)

  /** Inner payloads; `None` where the inner bytes do not decode. */
  datatype Payload =
    | CrudCommit(saltsDiffer: bool, frameTs: Option<(Ts, Ts)>)
    | CatalogCommit(catalog: Option<(seq<PageImage>, FileHeader)>)
    | CheckpointBoundary(boundary: Option<BoundaryContent>)
    | CheckpointPageFrame(frame: Option<FrameContent>)

  /** The boundary's own frontier is the one in its header: the payload decoder refuses any other. */
  datatype BoundaryContent = BoundaryContent(batchId: nat, header: FileHeader)
  datatype FrameContent = FrameContent(batchId: nat, image: PageImage)

  datatype LogRecord = LogRecord(start: nat, end: nat, publishSeq: nat, commitTs: Ts, payload: Payload)

  /** What the record codec says about a byte range; `Torn` up to the CRC gates, `Corrupt` after them. */
  datatype Decoded = Torn | Corrupt | Intact(record: LogRecord)

  type Decoder = seq<Byte> -> Decoded

  datatype Verdict = Keep | Stop | Reject

  /** Inner validation of a record whose outer CRCs hold. */
  function Classify(r: LogRecord): Verdict {
    match r.payload
    case CrudCommit(saltsDiffer, frameTs) =>
      if saltsDiffer then Stop
      else if frameTs == Some((r.commitTs, r.commitTs)) then Keep
      else Reject
    case CatalogCommit(_) => Keep
    case CheckpointBoundary(b) => if b.Some? && b.value.header.appliedLsn <= r.end then Keep else Reject
    case CheckpointPageFrame(f) => if f.Some? then Keep else Reject
  }

  datatype Read = EndOfLog | Bad | Got(record: LogRecord)

  /** Read the record at `cursor`, or decide that the valid prefix ends there. */
  function ReadAt(file: seq<Byte>, cursor: nat, decode: Decoder): (r: Read)
    ensures r.Got? ==> cursor < r.record.end <= |file|
  {
    if |file| < cursor + LOG_RECORD_HEADER_LEN then EndOfLog
    else
      var at := cursor + LOG_RECORD_TOTAL_LEN_OFFSET;
      var total := LittleEndian(file[at..at + 4]);
      if total < LOG_RECORD_HEADER_LEN || MAX_LOG_RECORD_BYTES < total then EndOfLog
      else if |file| < cursor + total then EndOfLog
      else
        match decode(file[cursor..cursor + total])
        case Torn => EndOfLog
        case Corrupt => Bad
        case Intact(record) =>
          if record.end != record.start + total || record.start != cursor then EndOfLog
          else match Classify(record)
            case Keep => Got(record)
            case Stop => EndOfLog
            case Reject => Bad
  }

  datatype Scanned = Accepted(records: seq<LogRecord>, cursor: nat) | Corrupted

  function Prepend(records: seq<LogRecord>, rest: Scanned): Scanned {
    match rest
    case Accepted(more, cursor) => Accepted(records + more, cursor)
    case Corrupted => Corrupted
  }

  /** The records accepted from `cursor` on. */
  function Scan(file: seq<Byte>, cursor: nat, decode: Decoder): (r: Scanned)
    ensures r.Accepted? && cursor <= |file| ==> cursor <= r.cursor <= |file|
    decreases |file| - cursor
  {
    if |file| <= cursor then Accepted([], cursor)
    else match ReadAt(file, cursor, decode)
      case EndOfLog => Accepted([], cursor)
      case Bad => Corrupted
      case Got(record) => Prepend([record], Scan(file, record.end, decode))
  }

  /** Pass 1 of recovery. */
  method ReadAcceptedRecords(file: seq<Byte>, decode: Decoder) returns (r: Scanned)
    ensures r == Scan(file, JOURNAL_HEADER_SIZE, decode)
  {
    var cursor := JOURNAL_HEADER_SIZE;
    var accepted: seq<LogRecord> := [];
    while cursor < |file|
      invariant Scan(file, JOURNAL_HEADER_SIZE, decode) == Prepend(accepted, Scan(file, cursor, decode))
      decreases |file| - cursor
    {
      match ReadAt(file, cursor, decode)
      case EndOfLog =>
        return Accepted(accepted, cursor);
      case Bad =>
        return Corrupted;
      case Got(record) =>
        PrependTwice(accepted, record, Scan(file, record.end, decode));
        cursor, accepted := record.end, accepted + [record];
    }
    return Accepted(accepted, cursor);
  }

  lemma PrependTwice(front: seq<LogRecord>, record: LogRecord, rest: Scanned)
    ensures Prepend(front, Prepend([record], rest)) == Prepend(front + [record], rest)
  {
    if rest.Accepted? { assert front + ([record] + rest.records) == front + [record] + rest.records; }
  }
}
