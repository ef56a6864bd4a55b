/** Which frames and which commits the recovered main file contains. */
module RecoveryImage {
  import opened Timestamps
  import opened JournalScan
  import opened RecoverySpec
  import opened Sorting

  // ---------------------------------------------------------------------------
  // Which frames, which commits
  // ---------------------------------------------------------------------------

  lemma {:induction false} FramesOfMember(rs: seq<LogRecord>, n: nat, frontier: nat, batch: nat, w: PageImage)
    requires n <= |rs|
    ensures w in FramesOf(rs, n, frontier, batch) <==>
      exists i :: 0 <= i < n && IsFrameOf(rs[i], frontier, batch) && rs[i].payload.frame.value.image == w
  {
    if n > 0 { FramesOfMember(rs, n - 1, frontier, batch, w); }
  }

  /** A page image that a frame of the first `n` boundaries' batches carries. */
  predicate Completed(rs: seq<LogRecord>, n: nat, frontier: nat, w: PageImage)
    requires n <= |rs|
  {
    exists i :: 0 <= i < n && Drains(rs[i], frontier) && w in FramesOf(rs, |rs|, frontier, BatchOf(rs[i]))
  }

  /** Frames of completed batches are all written, and frames of unfinished batches never are. */
  lemma {:induction false} OnlyCompletedBatches(rs: seq<LogRecord>, n: nat, frontier: nat, w: PageImage)
    requires n <= |rs|
    ensures w in DrainWrites(rs, n, frontier) <==> Completed(rs, n, frontier, w)
  {
    if n > 0 {
      OnlyCompletedBatches(rs, n - 1, frontier, w);
      if Drains(rs[n - 1], frontier) {
        var batch := BatchOf(rs[n - 1]);
        if HasDrained(rs, n - 1, frontier, batch) && w in FramesOf(rs, |rs|, frontier, batch) {
          var i :| 0 <= i < n - 1 && Drains(rs[i], frontier) && BatchOf(rs[i]) == batch;
          assert Completed(rs, n - 1, frontier, w);
        }
      }
    }
  }

  /** Commits are replayed in strictly increasing publication order, exactly those above the frontier. */
  lemma ReplayOrder(rs: seq<LogRecord>, frontier: nat)
    requires CommitsOk(Commits(rs, frontier))
    ensures var cs := Commits(rs, frontier);
      && (forall i, j :: 0 <= i < j < |cs| ==> cs[i].publishSeq < cs[j].publishSeq)
      && forall r :: r in cs <==> r in rs && IsCommit(r) && Above(r, frontier)
  {
    var cs := Commits(rs, frontier);
    SortOrders(CommitsIn(rs, |rs|, frontier), PublishedBefore);
    forall i, j | 0 <= i < j < |cs| ensures cs[i].publishSeq < cs[j].publishSeq {
      assert CommitOk(cs, j) && !Repeats(cs, j) && PublishedBefore(cs[i], cs[j]);
    }
    forall r ensures r in cs <==> r in rs && IsCommit(r) && Above(r, frontier) { CommitsMember(rs, frontier, r); }
  }

  predicate HasFrame(fs: seq<(nat, Ts)>, ts: Ts) { exists i :: 0 <= i < |fs| && fs[i].1 == ts }

  /** One logical frame per commit timestamp, and one for every CRUD commit's. */
  lemma {:induction false} FramesByTimestamp(cs: seq<LogRecord>, n: nat)
    requires n <= |cs|
    ensures var fs := FramesAfter(cs, n);
      && (forall i, j :: 0 <= i < j < |fs| ==> fs[i].1 != fs[j].1)
      && forall k :: 0 <= k < n && cs[k].payload.CrudCommit? ==> HasFrame(fs, cs[k].commitTs)
  {
    if n > 0 {
      FramesByTimestamp(cs, n - 1);
      var before, fs, c := FramesAfter(cs, n - 1), FramesAfter(cs, n), cs[n - 1];
      assert before <= fs;
      forall k | 0 <= k < n && cs[k].payload.CrudCommit? ensures HasFrame(fs, cs[k].commitTs) {
        if k < n - 1 || HasFrame(before, c.commitTs) {
          FrameStays(before, fs, cs[k].commitTs);
        } else {
          assert fs[|before|].1 == c.commitTs;
        }
      }
    }
  }

  lemma FrameStays(before: seq<(nat, Ts)>, fs: seq<(nat, Ts)>, ts: Ts)
    requires before <= fs && HasFrame(before, ts)
    ensures HasFrame(fs, ts)
  {
    var i :| 0 <= i < |before| && before[i].1 == ts;
    assert fs[i] == before[i];
  }

  /** Each frame comes from the first publication with its timestamp. */
  lemma {:induction false} FramesFirstWin(cs: seq<LogRecord>, n: nat)
    requires n <= |cs|
    ensures forall i :: 0 <= i < |FramesAfter(cs, n)| ==> IsFirstWith(cs, n, FramesAfter(cs, n)[i])
  {
    if n > 0 {
      FramesFirstWin(cs, n - 1);
      FramesByTimestamp(cs, n - 1);
      var before, fs := FramesAfter(cs, n - 1), FramesAfter(cs, n);
      forall i | 0 <= i < |fs| ensures IsFirstWith(cs, n, fs[i]) {
        if i < |before| { assert fs[i] == before[i] && IsFirstWith(cs, n - 1, before[i]); }
      }
    }
  }

  /** `f` is the first of the CRUD commits with its timestamp. */
  predicate IsFirstWith(cs: seq<LogRecord>, n: nat, f: (nat, Ts))
    requires n <= |cs|
  {
    exists k :: 0 <= k < n && cs[k].payload.CrudCommit? && f == (cs[k].start, cs[k].commitTs)
      && forall j :: 0 <= j < k && cs[j].payload.CrudCommit? ==> cs[j].commitTs != f.1
  }

  lemma CommitsStep(rs: seq<LogRecord>, n: nat, frontier: nat)
    requires n < |rs|
    ensures CommitsIn(rs, n + 1, frontier)
         == CommitsIn(rs, n, frontier) + if IsCommit(rs[n]) && Above(rs[n], frontier) then [rs[n]] else []
    ensures CommitsIn(rs, 0, frontier) == []
  {
  }

  lemma {:induction false} HeaderTsAfter(h: FileHeader, cs: seq<LogRecord>, n: nat)
    requires n <= |cs|
    ensures h.lastCheckpointTs.Le(HeaderAfter(h, cs, n).lastCheckpointTs)
    ensures forall i :: 0 <= i < n && IsCatalog(cs[i]) ==>
      CatalogHeader(cs[i]).lastCheckpointTs.Le(HeaderAfter(h, cs, n).lastCheckpointTs)
    ensures forall t: Ts :: h.lastCheckpointTs.Le(t) && CatalogTsBelow(cs, n, t) ==> HeaderAfter(h, cs, n).lastCheckpointTs.Le(t)
  {
    if n > 0 { HeaderTsAfter(h, cs, n - 1); }
  }

  predicate CatalogTsBelow(cs: seq<LogRecord>, n: nat, t: Ts)
    requires n <= |cs|
  {
    forall i :: 0 <= i < n && IsCatalog(cs[i]) ==> CatalogHeader(cs[i]).lastCheckpointTs.Le(t)
  }
}
