/** Exactly when recovering once more, as after a crash in the middle of an open, changes nothing. */
module RecoveryAgain {
  import opened Bytes
  import opened Timestamps
  import opened JournalScan
  import opened Options
  import opened MainFile
  import opened RecoverySpec
  import opened RecoveryImage
  import opened RecoveryCut
  import opened Sorting

  const HEADER_PAGE_SIZE: nat := 4096

  ghost predicate Sized(enc: HeaderCodec) { forall x: FileHeader :: |enc(x)| == HEADER_PAGE_SIZE }

  // ---------------------------------------------------------------------------
  // What is written where
  // ---------------------------------------------------------------------------

  function CatalogPages(cs: seq<LogRecord>, n: nat): seq<PageImage>
    requires n <= |cs|
  {
    if n == 0 then []
    else CatalogPages(cs, n - 1) + if IsCatalog(cs[n - 1]) then cs[n - 1].payload.catalog.value.0 else []
  }

  /** The pages replayed above a frontier, without the headers. */
  function PagesWritten(rs: seq<LogRecord>, frontier: nat): seq<PageImage> {
    var cs := Commits(rs, frontier);
    CatalogPages(cs, |cs|) + DrainWrites(rs, |rs|, frontier)
  }

  predicate BringsHeader(r: LogRecord, frontier: nat) { Above(r, frontier) && (IsBoundary(r) || IsCatalog(r)) }

  predicate WritesHeader(rs: seq<LogRecord>, frontier: nat) {
    exists i :: 0 <= i < |rs| && BringsHeader(rs[i], frontier)
  }

  predicate HasCatalog(cs: seq<LogRecord>, n: nat)
    requires n <= |cs|
  {
    exists i :: 0 <= i < n && IsCatalog(cs[i])
  }

  lemma HeaderCovers(h: FileHeader, enc: HeaderCodec, x: nat)
    requires Sized(enc)
    ensures LastByte([HeaderPage(h, enc)], x) == if x < HEADER_PAGE_SIZE then Some(enc(h)[x]) else None
  {
    var one := [HeaderPage(h, enc)];
    assert one[..|one| - 1] == [];
  }

  /** Inside the header page the catalogs leave the last working header, outside of it their pages. */
  lemma {:induction false} CatalogBytes(h: FileHeader, cs: seq<LogRecord>, n: nat, enc: HeaderCodec, x: nat)
    requires n <= |cs| && Sized(enc)
    ensures LastByte(CatalogWrites(h, cs, n, enc), x) ==
      if HEADER_PAGE_SIZE <= x then LastByte(CatalogPages(cs, n), x)
      else if HasCatalog(cs, n) then Some(enc(HeaderAfter(h, cs, n))[x]) else None
  {
    if n > 0 {
      CatalogBytes(h, cs, n - 1, enc, x);
      if IsCatalog(cs[n - 1]) {
        var before, pages := CatalogWrites(h, cs, n - 1, enc), cs[n - 1].payload.catalog.value.0;
        var w := HeaderAfter(h, cs, n);
        HeaderCovers(w, enc, x);
        LastByteAppend(before + pages, [HeaderPage(w, enc)], x);
        LastByteAppend(before, pages, x);
        LastByteAppend(CatalogPages(cs, n - 1), pages, x);
      } else {
        assert CatalogPages(cs, n) == CatalogPages(cs, n - 1);
        assert HasCatalog(cs, n) <==> HasCatalog(cs, n - 1);
      }
    }
  }

  lemma HasCatalogIff(rs: seq<LogRecord>, frontier: nat)
    requires LatestHeader(rs, |rs|, frontier).None?
    ensures var cs := Commits(rs, frontier); HasCatalog(cs, |cs|) <==> WritesHeader(rs, frontier)
  {
    var cs := Commits(rs, frontier);
    LatestIsBoundary(rs, |rs|, frontier);
    if HasCatalog(cs, |cs|) {
      var i :| 0 <= i < |cs| && IsCatalog(cs[i]);
      CommitsMember(rs, frontier, cs[i]);
      var k :| 0 <= k < |rs| && rs[k] == cs[i];
      assert BringsHeader(rs[k], frontier);
    }
    if WritesHeader(rs, frontier) {
      var k :| 0 <= k < |rs| && BringsHeader(rs[k], frontier);
      assert !Drains(rs[k], frontier);
      CommitsMember(rs, frontier, rs[k]);
    }
  }

  lemma {:induction false} NothingDrained(rs: seq<LogRecord>, n: nat, frontier: nat)
    requires n <= |rs| && forall i :: 0 <= i < n ==> !Drains(rs[i], frontier)
    ensures DrainWrites(rs, n, frontier) == []
  {
    if n > 0 { NothingDrained(rs, n - 1, frontier); }
  }

  /** Inside the header page recovery leaves the final header, outside of it the replayed pages. */
  lemma RecoveredBytes(h: FileHeader, rs: seq<LogRecord>, enc: HeaderCodec, x: nat)
    requires Sized(enc)
    ensures LastByte(RecoveryWrites(h, rs, enc), x) ==
      if HEADER_PAGE_SIZE <= x then LastByte(PagesWritten(rs, h.appliedLsn), x)
      else if WritesHeader(rs, h.appliedLsn) then Some(enc(FinalHeader(h, rs))[x]) else None
  {
    var frontier := h.appliedLsn;
    var cs := Commits(rs, frontier);
    var a, d := CatalogWrites(h, cs, |cs|, enc), DrainWrites(rs, |rs|, frontier);
    CatalogBytes(h, cs, |cs|, enc, x);
    LastByteAppend(a, d, x);
    LastByteAppend(CatalogPages(cs, |cs|), d, x);
    LatestIsBoundary(rs, |rs|, frontier);
    if LatestHeader(rs, |rs|, frontier).Some? {
      var i :| 0 <= i < |rs| && IsLastDraining(rs, |rs|, frontier, i);
      assert BringsHeader(rs[i], frontier);
      HeaderCovers(FinalHeader(h, rs), enc, x);
      LastByteAppend(a + d, [HeaderPage(FinalHeader(h, rs), enc)], x);
    } else {
      HasCatalogIff(rs, frontier);
      NothingDrained(rs, |rs|, frontier);
      assert RecoveryWrites(h, rs, enc) == a + d;
    }
  }

  // ---------------------------------------------------------------------------
  // Recovering once more
  // ---------------------------------------------------------------------------

  /** Every byte outside the header page that `second` writes is what `first` left there. */
  ghost predicate SamePages(first: seq<PageImage>, second: seq<PageImage>) {
    forall a: nat :: HEADER_PAGE_SIZE <= a && LastByte(second, a).Some? ==> LastByte(first, a) == LastByte(second, a)
  }

  /** Recovering `again` from the image and the header that recovering `rs` left changes no main file. */
  ghost predicate Unmoved(h: FileHeader, rs: seq<LogRecord>, again: seq<LogRecord>, enc: HeaderCodec) {
    Harmless(RecoveryWrites(h, rs, enc), RecoveryWrites(FinalHeader(h, rs), again, enc))
  }

  lemma FinalApplied(h: FileHeader, rs: seq<LogRecord>)
    ensures var g := FinalHeader(h, rs);
      if Truncatable(rs, h.appliedLsn) then g.appliedLsn == JOURNAL_HEADER_SIZE else h.appliedLsn <= g.appliedLsn
  {
    var cs := Commits(rs, h.appliedLsn);
    HeaderGrows(h, cs, |cs|);
  }

  lemma {:induction false} HeaderGrows(h: FileHeader, cs: seq<LogRecord>, n: nat)
    requires n <= |cs|
    ensures h.appliedLsn <= HeaderAfter(h, cs, n).appliedLsn
  {
    if n > 0 { HeaderGrows(h, cs, n - 1); }
  }

  /** A header that the second recovery writes was written by the first one too. */
  lemma HeaderWrittenBefore(h: FileHeader, rs: seq<LogRecord>, again: seq<LogRecord>)
    requires again <= rs && WritesHeader(again, FinalHeader(h, rs).appliedLsn)
    ensures WritesHeader(rs, h.appliedLsn)
  {
    FinalApplied(h, rs);
    LatestIsBoundary(rs, |rs|, h.appliedLsn);
    if Truncatable(rs, h.appliedLsn) {
      var i :| 0 <= i < |rs| && IsLastDraining(rs, |rs|, h.appliedLsn, i);
      assert BringsHeader(rs[i], h.appliedLsn);
    } else {
      var i :| 0 <= i < |again| && BringsHeader(again[i], FinalHeader(h, rs).appliedLsn);
      assert BringsHeader(rs[i], h.appliedLsn);
    }
  }

  /**
   Exactly when a second recovery, from whatever prefix of the log the first one left behind, changes
   no main file: every page byte replayed above the new frontier was the last one replayed above the
   old one, and a header written again encodes as the one that stands there.
   */
  lemma RecoveringAgainIff(h: FileHeader, rs: seq<LogRecord>, again: seq<LogRecord>, enc: HeaderCodec)
    requires again <= rs && Sized(enc)
    ensures var g := FinalHeader(h, rs);
      Unmoved(h, rs, again, enc) <==>
        && SamePages(PagesWritten(rs, h.appliedLsn), PagesWritten(again, g.appliedLsn))
        && (WritesHeader(again, g.appliedLsn) ==> enc(FinalHeader(g, again)) == enc(g))
  {
    var g := FinalHeader(h, rs);
    var first, second := RecoveryWrites(h, rs, enc), RecoveryWrites(g, again, enc);
    HarmlessIff(first, second);
    forall x: nat ensures SameAt(h, rs, again, x, enc) { ByteByByte(h, rs, again, x, enc); }
    if Repeated(first, second) {
      forall a: nat | HEADER_PAGE_SIZE <= a && LastByte(PagesWritten(again, g.appliedLsn), a).Some?
        ensures LastByte(PagesWritten(rs, h.appliedLsn), a) == LastByte(PagesWritten(again, g.appliedLsn), a)
      {
        assert SameAt(h, rs, again, a, enc);
      }
      if WritesHeader(again, g.appliedLsn) {
        forall a | 0 <= a < HEADER_PAGE_SIZE ensures enc(FinalHeader(g, again))[a] == enc(g)[a] {
          assert SameAt(h, rs, again, a, enc);
        }
      }
    } else {
      var a: nat :| LastByte(second, a).Some? && LastByte(first, a) != LastByte(second, a);
      assert SameAt(h, rs, again, a, enc);
    }
  }

  /** The two recoveries agree at `x` exactly when pages or headers do. */
  ghost predicate SameAt(h: FileHeader, rs: seq<LogRecord>, again: seq<LogRecord>, x: nat, enc: HeaderCodec)
    requires Sized(enc)
  {
    var g := FinalHeader(h, rs);
    var first, second := RecoveryWrites(h, rs, enc), RecoveryWrites(g, again, enc);
    var before, after := PagesWritten(rs, h.appliedLsn), PagesWritten(again, g.appliedLsn);
    (LastByte(second, x).Some? ==> LastByte(first, x) == LastByte(second, x)) <==>
      if HEADER_PAGE_SIZE <= x then LastByte(after, x).Some? ==> LastByte(before, x) == LastByte(after, x)
      else WritesHeader(again, g.appliedLsn) ==> enc(FinalHeader(g, again))[x] == enc(g)[x]
  }

  lemma ByteByByte(h: FileHeader, rs: seq<LogRecord>, again: seq<LogRecord>, x: nat, enc: HeaderCodec)
    requires again <= rs && Sized(enc)
    ensures SameAt(h, rs, again, x, enc)
  {
    var g := FinalHeader(h, rs);
    RecoveredBytes(h, rs, enc, x);
    RecoveredBytes(g, again, enc, x);
    if WritesHeader(again, g.appliedLsn) { HeaderWrittenBefore(h, rs, again); }
  }

  // ---------------------------------------------------------------------------
  // A journal that stays
  // ---------------------------------------------------------------------------

  lemma NotBefore(rs: seq<LogRecord>, cursor: nat, n: nat)
    requires Laid(rs, JOURNAL_HEADER_SIZE, cursor) && n < |rs|
    ensures rs[n] !in rs[..n]
  {
    forall j | 0 <= j < n ensures rs[j] != rs[n] { LaidApart(rs, JOURNAL_HEADER_SIZE, cursor, j, n); }
  }

  lemma OnceMore<T>(s: seq<T>, x: T, r: T)
    requires multiset(s)[r] <= 1 && x !in s
    ensures multiset(s + [x])[r] <= 1
  {
    assert x !in multiset(s);
  }

  lemma {:induction false} RecordsOnce(rs: seq<LogRecord>, cursor: nat, n: nat, r: LogRecord)
    requires Laid(rs, JOURNAL_HEADER_SIZE, cursor) && n <= |rs|
    ensures multiset(rs[..n])[r] <= 1
  {
    if n > 0 {
      RecordsOnce(rs, cursor, n - 1, r);
      NotBefore(rs, cursor, n - 1);
      assert rs[..n] == rs[..n - 1] + [rs[n - 1]];
      OnceMore(rs[..n - 1], rs[n - 1], r);
    }
  }

  lemma {:induction false} CommitsAmong(rs: seq<LogRecord>, n: nat, frontier: nat, r: LogRecord)
    requires n <= |rs|
    ensures multiset(CommitsIn(rs, n, frontier))[r] <= multiset(rs[..n])[r]
  {
    if n > 0 {
      CommitsAmong(rs, n - 1, frontier, r);
      assert rs[..n] == rs[..n - 1] + [rs[n - 1]];
    }
  }

  lemma TwiceCounts<T>(s: seq<T>, i: nat, j: nat)
    requires i < j < |s| && s[i] == s[j]
    ensures multiset(s)[s[i]] >= 2
  {
    assert s == s[..j] + s[j..] && s[..j][i] == s[i] && s[j..][0] == s[j];
    assert s[i] in multiset(s[..j]) && s[i] in multiset(s[j..]);
  }

  /** Publish numbers that differ above one frontier differ above a later one. */
  lemma NoNewRepeat(rs: seq<LogRecord>, f: nat, again: seq<LogRecord>, end: nat, g: nat, k: nat, i: nat)
    requires Laid(again, JOURNAL_HEADER_SIZE, end) && again <= rs && f <= g
    requires CommitsOk(Commits(rs, f)) && k < i < |Commits(again, g)|
    ensures Commits(again, g)[k].publishSeq != Commits(again, g)[i].publishSeq
  {
    var cs, some := Commits(rs, f), Commits(again, g);
    ReplayOrder(rs, f);
    CommitsMember(again, g, some[k]);
    CommitsMember(again, g, some[i]);
    assert some[k] in cs && some[i] in cs;
    if some[k] == some[i] {
      TwiceCounts(some, k, i);
      SortKeeps(CommitsIn(again, |again|, g), PublishedBefore);
      CommitsAmong(again, |again|, g, some[k]);
      RecordsOnce(again, end, |again|, some[k]);
    }
  }

  /** What is left of a journal that is not reset is accepted again. */
  lemma AcceptedAgain(h: FileHeader, rs: seq<LogRecord>, cursor: nat, again: seq<LogRecord>, end: nat)
    requires Laid(rs, JOURNAL_HEADER_SIZE, cursor) && LogOk(h, rs) && !Truncatable(rs, h.appliedLsn)
    requires Laid(again, JOURNAL_HEADER_SIZE, end) && again <= rs
    ensures LogOk(FinalHeader(h, rs), again)
  {
    var f, g := h.appliedLsn, FinalHeader(h, rs).appliedLsn;
    FinalApplied(h, rs);
    var cs, some := Commits(rs, f), Commits(again, g);
    forall i | 0 <= i < |some| ensures CommitOk(some, i) {
      forall k | 0 <= k < i ensures some[k].publishSeq != some[i].publishSeq {
        NoNewRepeat(rs, f, again, end, g, k, i);
      }
      CommitsMember(again, g, some[i]);
      CommitsMember(rs, f, some[i]);
      var p :| 0 <= p < |cs| && cs[p] == some[i];
      assert CommitOk(cs, p);
    }
  }

  // ---------------------------------------------------------------------------
  // A journal that is to be reset
  // ---------------------------------------------------------------------------

  /** The last boundary of the log lies above every frontier that some boundary lies above. */
  lemma SameLatest(rs: seq<LogRecord>, cursor: nat, frontier: nat)
    requires Laid(rs, JOURNAL_HEADER_SIZE, cursor) && LatestHeader(rs, |rs|, frontier).Some?
    ensures LatestHeader(rs, |rs|, JOURNAL_HEADER_SIZE) == LatestHeader(rs, |rs|, frontier)
  {
    LatestIsBoundary(rs, |rs|, frontier);
    LatestIsBoundary(rs, |rs|, JOURNAL_HEADER_SIZE);
    var i :| 0 <= i < |rs| && IsLastDraining(rs, |rs|, frontier, i)
      && BoundaryHeader(rs[i]) == LatestHeader(rs, |rs|, frontier).value;
    EndsAboveHeader(rs, cursor, i);
    assert Drains(rs[i], JOURNAL_HEADER_SIZE);
    var j :| 0 <= j < |rs| && IsLastDraining(rs, |rs|, JOURNAL_HEADER_SIZE, j)
      && BoundaryHeader(rs[j]) == LatestHeader(rs, |rs|, JOURNAL_HEADER_SIZE).value;
    assert i <= j;
    LaidOrder(rs, JOURNAL_HEADER_SIZE, cursor, i + 1, j + 1);
    assert Drains(rs[j], frontier);
  }

  /** The header stays exactly when no replayed catalog carries a later checkpoint timestamp. */
  lemma HeaderStaysIff(h: FileHeader, rs: seq<LogRecord>, cursor: nat)
    requires Laid(rs, JOURNAL_HEADER_SIZE, cursor) && Truncatable(rs, h.appliedLsn)
    ensures var g, cs := FinalHeader(h, rs), Commits(rs, JOURNAL_HEADER_SIZE);
      && g.appliedLsn == JOURNAL_HEADER_SIZE && Truncatable(rs, JOURNAL_HEADER_SIZE)
      && (FinalHeader(g, rs) == g <==> CatalogTsBelow(cs, |cs|, g.lastCheckpointTs))
  {
    var g, cs := FinalHeader(h, rs), Commits(rs, JOURNAL_HEADER_SIZE);
    SameLatest(rs, cursor, h.appliedLsn);
    HeaderTsAfter(g, cs, |cs|);
  }

  /**
   Exactly when recovering a truncatable journal a second time, as after a crash before its reset,
   succeeds and changes neither a main file nor the header: its commits, those below the old frontier
   included, are in order, none of them carries a later checkpoint timestamp than the header, and
   every page byte of the whole log is the last one written above the old frontier.
   */
  lemma RecoveringTwiceIff(h: FileHeader, rs: seq<LogRecord>, cursor: nat, enc: HeaderCodec)
    requires Laid(rs, JOURNAL_HEADER_SIZE, cursor) && LogOk(h, rs) && Truncatable(rs, h.appliedLsn) && Sized(enc)
    ensures var g, cs := FinalHeader(h, rs), Commits(rs, JOURNAL_HEADER_SIZE);
      LogOk(g, rs) && FinalHeader(g, rs) == g && Unmoved(h, rs, rs, enc) <==>
        && CommitsOk(cs) && CatalogTsBelow(cs, |cs|, g.lastCheckpointTs)
        && SamePages(PagesWritten(rs, h.appliedLsn), PagesWritten(rs, JOURNAL_HEADER_SIZE))
  {
    HeaderStaysIff(h, rs, cursor);
    RecoveringAgainIff(h, rs, rs, enc);
    assert FramesOk(rs, JOURNAL_HEADER_SIZE) by {
      forall i | 0 <= i < |rs| && rs[i].payload.CheckpointPageFrame? ensures IsFrame(rs[i]) {
        assert Classify(rs[i]).Keep?;
      }
    }
  }

  ghost predicate SameAbove(rs: seq<LogRecord>, f: nat, g: nat) {
    forall i :: 0 <= i < |rs| ==> (Above(rs[i], f) <==> Above(rs[i], g))
  }

  lemma {:induction false} SameFrames(rs: seq<LogRecord>, n: nat, f: nat, g: nat, batch: nat)
    requires SameAbove(rs, f, g) && n <= |rs|
    ensures FramesOf(rs, n, f, batch) == FramesOf(rs, n, g, batch)
  {
    if n > 0 { SameFrames(rs, n - 1, f, g, batch); }
  }

  lemma {:induction false} SameFrontier(rs: seq<LogRecord>, n: nat, f: nat, g: nat)
    requires SameAbove(rs, f, g) && n <= |rs|
    ensures LatestHeader(rs, n, f) == LatestHeader(rs, n, g)
    ensures CommitsIn(rs, n, f) == CommitsIn(rs, n, g)
    ensures DrainWrites(rs, n, f) == DrainWrites(rs, n, g)
  {
    if n > 0 {
      SameFrontier(rs, n - 1, f, g);
      if Drains(rs[n - 1], f) {
        SameFrames(rs, |rs|, f, g, BatchOf(rs[n - 1]));
        assert HasDrained(rs, n - 1, f, BatchOf(rs[n - 1])) <==> HasDrained(rs, n - 1, g, BatchOf(rs[n - 1]));
      }
    }
  }

  /**
   With a frontier at or below the first record, recovering the recovered image from the
   same truncatable journal changes neither image nor header.
   */
  lemma RecoveringTwice(h: FileHeader, rs: seq<LogRecord>, cursor: nat, main: seq<Byte>, enc: HeaderCodec)
    requires Laid(rs, JOURNAL_HEADER_SIZE, cursor) && h.appliedLsn <= JOURNAL_HEADER_SIZE
    requires Truncatable(rs, h.appliedLsn) && Sized(enc)
    ensures var image, g := WriteAll(main, RecoveryWrites(h, rs, enc)), FinalHeader(h, rs);
      && WriteAll(image, RecoveryWrites(g, rs, enc)) == image
      && FinalHeader(g, rs) == g && Truncatable(rs, g.appliedLsn)
  {
    forall i | 0 <= i < |rs| ensures Above(rs[i], h.appliedLsn) && Above(rs[i], JOURNAL_HEADER_SIZE) {
      EndsAboveHeader(rs, cursor, i);
    }
    SameFrontier(rs, |rs|, h.appliedLsn, JOURNAL_HEADER_SIZE);
    var cs := Commits(rs, h.appliedLsn);
    HeaderTsAfter(h, cs, |cs|);
    HeaderStaysIff(h, rs, cursor);
    RecoveringAgainIff(h, rs, rs, enc);
    assert Harmless(RecoveryWrites(h, rs, enc), RecoveryWrites(FinalHeader(h, rs), rs, enc));
  }

  // ---------------------------------------------------------------------------
  // Why the frontier must not be above the first record
  // ---------------------------------------------------------------------------

  function OldCatalog(): LogRecord {
    LogRecord(32, 200, 1, Ts(1, 0), CatalogCommit(Some(([PageImage(5, [1])], FileHeader(ZERO, 32, 0, [])))))
  }

  function NewBoundary(): LogRecord {
    LogRecord(200, 300, 0, ZERO, CheckpointBoundary(Some(BoundaryContent(1, FileHeader(ZERO, 200, 0, [])))))
  }

  /** Above frontier 200 only the boundary counts; above the rewound frontier the catalog counts again. */
  lemma RewindCommits(rs: seq<LogRecord>, n: nat)
    requires rs == [OldCatalog(), NewBoundary()] && n == |rs|
    ensures Commits(rs, 200) == [] && Commits(rs, JOURNAL_HEADER_SIZE) == [OldCatalog()]
    ensures DrainWrites(rs, n, 200) == DrainWrites(rs, n, JOURNAL_HEADER_SIZE) == []
    ensures Truncatable(rs, 200) && LatestHeader(rs, n, JOURNAL_HEADER_SIZE).Some?
  {
    assert !Above(rs[0], 200) && Above(rs[0], JOURNAL_HEADER_SIZE) && IsCommit(rs[0]) && !IsCommit(rs[1]);
    var one := [OldCatalog()];
    CommitsStep(rs, 0, JOURNAL_HEADER_SIZE);
    CommitsStep(rs, 1, JOURNAL_HEADER_SIZE);
    CommitsStep(rs, 0, 200);
    CommitsStep(rs, 1, 200);
    assert [] + one == one;
    assert one[..0] == [];
    NoFrames(rs, n, 200);
    NoFrames(rs, n, JOURNAL_HEADER_SIZE);
  }

  lemma NoFrames(rs: seq<LogRecord>, n: nat, frontier: nat)
    requires rs == [OldCatalog(), NewBoundary()] && n == |rs|
    ensures DrainWrites(rs, n, frontier) == []
  {
    if DrainWrites(rs, n, frontier) != [] {
      var w := DrainWrites(rs, n, frontier)[0];
      OnlyCompletedBatches(rs, n, frontier, w);
      var i :| 0 <= i < n && Drains(rs[i], frontier) && w in FramesOf(rs, n, frontier, BatchOf(rs[i]));
      FramesOfMember(rs, n, frontier, BatchOf(rs[i]), w);
    }
  }

  lemma RewoundByte(g: FileHeader, rs: seq<LogRecord>, enc: HeaderCodec, a: nat)
    requires rs == [OldCatalog(), NewBoundary()] && a == 5 * PAGE_SIZE_LEAF
    requires g.appliedLsn == JOURNAL_HEADER_SIZE && Sized(enc)
    ensures LastByte(RecoveryWrites(g, rs, enc), a) == Some(1)
  {
    RewindCommits(rs, |rs|);
    var page, mid, last := PageImage(5, [1]), HeaderPage(HeaderAfter(g, [OldCatalog()], 1), enc), HeaderPage(FinalHeader(g, rs), enc);
    assert CatalogWrites(g, [OldCatalog()], 1, enc) == [page, mid];
    var ws := [page, mid, last];
    assert RecoveryWrites(g, rs, enc) == ws;
    assert ws[..2] == [page, mid] && [page, mid][..1] == [page];
    assert !Covers(last, a) && !Covers(mid, a) && Covers(page, a);
    assert LastByte([page], a) == Some(1);
    assert LastByte([page, mid], a) == LastByte([page], a);
    assert LastByte(ws, a) == LastByte([page, mid], a);
  }

  lemma FirstRecovery(h: FileHeader, rs: seq<LogRecord>, enc: HeaderCodec, a: nat)
    requires rs == [OldCatalog(), NewBoundary()] && h.appliedLsn == 200 && a == 5 * PAGE_SIZE_LEAF
    requires Sized(enc)
    ensures LastByte(RecoveryWrites(h, rs, enc), a).None? && FinalHeader(h, rs).appliedLsn == JOURNAL_HEADER_SIZE
  {
    RewindCommits(rs, |rs|);
    var last := HeaderPage(FinalHeader(h, rs), enc);
    assert RecoveryWrites(h, rs, enc) == [last];
    assert !Covers(last, a) && [last][..0] == [];
  }

  lemma RewindOk(h: FileHeader, rs: seq<LogRecord>)
    requires rs == [OldCatalog(), NewBoundary()] && h.appliedLsn == 200
    ensures Laid(rs, JOURNAL_HEADER_SIZE, 300) && LogOk(h, rs) && Truncatable(rs, 200)
  {
    RewindCommits(rs, |rs|);
  }

  lemma RewindChanges(h: FileHeader, rs: seq<LogRecord>, main: seq<Byte>, enc: HeaderCodec, a: nat)
    requires rs == [OldCatalog(), NewBoundary()] && h.appliedLsn == 200 && a == 5 * PAGE_SIZE_LEAF
    requires At(main, a) != 1 && Sized(enc)
    ensures var image := WriteAll(main, RecoveryWrites(h, rs, enc));
      WriteAll(image, RecoveryWrites(FinalHeader(h, rs), rs, enc)) != image
  {
    var g := FinalHeader(h, rs);
    var first, second := RecoveryWrites(h, rs, enc), RecoveryWrites(g, rs, enc);
    FirstRecovery(h, rs, enc, a);
    WriteAllByte(main, first, a);
    RewoundByte(g, rs, enc, a);
    WriteAllByte(WriteAll(main, first), second, a);
  }

  /**
   With a frontier inside the log the first recovery rewinds it before the journal is reset, and a
   second one then replays what was below it: here a page is set back to an old catalog's image.
   */
  lemma RecoveringTwiceCanRewind(main: seq<Byte>, enc: HeaderCodec)
    requires At(main, 5 * PAGE_SIZE_LEAF) != 1 && Sized(enc)
    ensures exists h: FileHeader, rs: seq<LogRecord>, cursor ::
      && Laid(rs, JOURNAL_HEADER_SIZE, cursor) && LogOk(h, rs) && Truncatable(rs, h.appliedLsn) && h.appliedLsn <= cursor
      && var image := WriteAll(main, RecoveryWrites(h, rs, enc));
         WriteAll(image, RecoveryWrites(FinalHeader(h, rs), rs, enc)) != image
  {
    var h, rs := FileHeader(ZERO, 200, 0, []), [OldCatalog(), NewBoundary()];
    RewindOk(h, rs);
    RewindChanges(h, rs, main, enc, 5 * PAGE_SIZE_LEAF);
  }
}
