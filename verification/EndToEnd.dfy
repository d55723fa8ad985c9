/** Scanning and searching together: what a search finds at any moment of any run. */
module EndToEnd {
  import opened LogLines
  import opened TextIndexer
  import opened Records
  import opened ResumeProof
  import opened ScanSteps
  import opened ScanRuns
  import opened LogSearch
  import opened IndexedScan
  import opened WindowExactness
  import Etag

  /** A prefix of a log in which the count forces no entry has none either. */
  lemma UnforcedPrefix(setup: Setup, p: Path, d: Bytes, n: nat)
    requires setup.cfg.interval > 0 && n <= |d| && !IsGzip(p) && Unforced(setup, p, d)
    ensures Unforced(setup, p, d[..n])
  {
    hide LinesFrom, Run, Forced;
    var before, after := LinesFrom(d[..n], 0), LinesFrom(d, 0);
    LinesOfPrefix(d[..n], d);
    forall k | 0 <= k < |before| ensures !Forced(setup.cfg, Run(setup.cfg, FRESH, before[..k]), before[k]) {
      assert before[..k] == after[..k] && before[k] == after[k];
    }
  }

  /** On the files of a run no query meets a split bucket. */
  lemma RunQueriesAreClean(setup: Setup, p: Path, d: Bytes, s: nat, e: nat)
    requires Sound(setup) && !IsGzip(p) && Unforced(setup, p, d) && Regular(setup.cfg, d)
    ensures CleanQuery(setup.cfg, TextIndexer.Index(setup.cfg, d), s, e)
  {
    hide TextIndexer.Index, LinesFrom, NeverForced, StartsClean, Regular;
    forall a: nat, b: nat | IsWindow(TextIndexer.Index(setup.cfg, d), s, e, a, b)
      ensures StartsClean(setup.cfg, TextIndexer.Index(setup.cfg, d), s, a)
    {
      UnforcedStartsClean(setup.cfg, d, s, e, a, b);
    }
  }

  /** The version of a live text file that the entries in memory are the index of. */
  lemma VersionServed(setup: Setup, run: seq<Sys>, p: Path) returns (st: Stamp, n: nat)
    requires Sound(setup) && IsRun(setup, run)
    requires var s := run[|run| - 1];
      p in s.disk && p in s.index && s.index[p].fileIndex.Some? && s.index[p].inode == s.disk[p].inode && !IsGzip(p)
    ensures var s := run[|run| - 1];
      && ExactFor(setup, s, p, s.index[p].fileIndex.value, st, n)
      && Unforced(setup, p, s.disk[p].bytes[..n])
      && s.index[p].fileIndex.value.entries == TextIndexer.Index(setup.cfg, s.disk[p].bytes[..n])
  {
    assert run != [];
    hide TextIndexer.Index, Unforced, IsRun;
    var s := run[|run| - 1];
    RunKeeps(setup, run);
    assert InfoOk(setup, s, p, s.index[p]) && FileOk(setup, s, p);
    st, n :| ExactFor(setup, s, p, s.index[p].fileIndex.value, st, n);
    UnforcedPrefix(setup, p, s.disk[p].bytes, n);
  }

  /** A search with the entries in memory, at any moment of any run: whatever has happened to the
      files, the results are the first matches of a full scan of the file as it was at some point, no
      shorter than when the entries' etag was taken, provided that version was regular. */
  method SearchAnytime(ix: FileIndexer, ghost run: seq<Sys>, disk: Disk, ghost seen: set<Stamp>,
                       searcher: LogSearcher, ctx: SearchContext, p: Path)
    returns (found: bool, ghost st: Stamp, ghost n: nat)
    requires Sound(ix.setup) && IsRun(ix.setup, run) && View(ix, disk, seen) == run[|run| - 1]
    requires p in disk && p in ix.index && ix.index[p].fileIndex.Some? && ix.index[p].inode == disk[p].inode
    requires !IsGzip(p) && searcher.cfg == ix.setup.cfg
    requires ctx.View() == IDLE && ctx.matchedLines == [] && ctx.status == 0 && ctx.searchers != []
    modifies ctx
    ensures st in seen && st.path == p && st.size <= n <= |disk[p].bytes|
    ensures ix.index[p].fileIndex.value.indexEtag == ix.setup.etag(st.size, st.mtime)
    ensures Regular(searcher.cfg, disk[p].bytes[..n]) && ctx.startTime <= ctx.endTime ==>
      var all := AllRecords(searcher.cfg, disk[p].bytes[..n], ctx.startTime, ctx.endTime);
      if found then ctx.status == 0 && FirstMatches(ctx, Filter(Accepted(ctx.searchers), all)) else all == []
  {
    ghost var setup, sys := ix.setup, run[|run| - 1];
    var d, entries := disk[p].bytes, ix.index[p].fileIndex.value.entries;
    st, n := VersionServed(setup, run, p);
    hide TextIndexer.Index, Regular, AllRecords, Accepted, Filter, FirstMatches;
    hide CleanQuery, Sound, IsRun, Exact, SplitsAtFloor;
    found := SearchPath(searcher, ctx, entries, d, d[..n]);
    if Regular(searcher.cfg, d[..n]) {
      RunQueriesAreClean(setup, p, d[..n], ctx.startTime, ctx.endTime);
    }
  }

  lemma PassServes(setup: Setup, run: seq<Sys>, p: Path)
    requires Sound(setup) && IsRun(setup, run)
    requires p in run[|run| - 1].disk && setup.eligible(p) && !IsGzip(p)
    ensures var s := run[|run| - 1];
      var s' := Pass(setup, s);
      && p in s'.index && s'.index[p].fileIndex.Some?
      && s'.index[p].fileIndex.value.entries == TextIndexer.Index(setup.cfg, s.disk[p].bytes)
      && Unforced(setup, p, s.disk[p].bytes)
  {
    assert run != [];
    hide TextIndexer.Index, Unforced, IsRun, Pass;
    EveryRunIndexesExactly(setup, run);
    RunKeeps(setup, run);
    assert FileOk(setup, run[|run| - 1], p);
  }

  /** After any run, one quiet pass and then a search: for every eligible regular text file the
      results are the first matches of a full scan of the file as it is. */
  method SearchAfterPass(ix: FileIndexer, ghost run: seq<Sys>, disk: Disk, ghost seen: set<Stamp>,
                         searcher: LogSearcher, ctx: SearchContext, p: Path)
    returns (found: bool)
    requires Sound(ix.setup) && IsRun(ix.setup, run) && View(ix, disk, seen) == run[|run| - 1]
    requires p in disk && ix.setup.eligible(p) && !IsGzip(p) && searcher.cfg == ix.setup.cfg
    requires ctx.View() == IDLE && ctx.matchedLines == [] && ctx.status == 0 && ctx.searchers != []
    modifies ix, ctx
    ensures Regular(searcher.cfg, disk[p].bytes) && ctx.startTime <= ctx.endTime ==>
      var all := AllRecords(searcher.cfg, disk[p].bytes, ctx.startTime, ctx.endTime);
      if found then ctx.status == 0 && FirstMatches(ctx, Filter(Accepted(ctx.searchers), all)) else all == []
  {
    var d := disk[p].bytes;
    PassServes(ix.setup, run, p);
    hide TextIndexer.Index, Regular, AllRecords, Accepted, Filter, FirstMatches;
    hide CleanQuery, Sound, IsRun, Exact, SplitsAtFloor, Pass;
    ScanPass(ix, disk, seen);
    found := SearchPath(searcher, ctx, ix.index[p].fileIndex.value.entries, d, d);
    if Regular(searcher.cfg, d) {
      RunQueriesAreClean(ix.setup, p, d, ctx.startTime, ctx.endTime);
    }
  }

  // ----- The etag of the program

  /** The etag is the one the program computes. */
  ghost predicate ProgramEtag(setup: Setup) {
    forall size: nat, mtime: nat :: Etag.Fits(size, mtime) ==> setup.etag(size, mtime) == Etag.EtagOf(size, mtime)
  }

  /** With the program's etag a run only has to assume something of changes of both size and
      modification time: that those do not collide. A change of one of them always shows. */
  lemma EtagTellsIff(setup: Setup, s: Sys, p: Path, f: File)
    requires ProgramEtag(setup) && Etag.Fits(|f.bytes|, f.mtime)
    requires forall st :: st in s.seen ==> Etag.Fits(st.size, st.mtime)
    ensures EtagTells(setup, s, p, f) <==>
      forall st :: st in s.seen && st.path == p && st.inode == f.inode && st.size != |f.bytes| && st.mtime != f.mtime ==>
        setup.etag(st.size, st.mtime) != setup.etag(|f.bytes|, f.mtime)
  {
    hide Etag.EtagOf, Etag.Fits;
    forall st | st in s.seen && st.path == p && st.inode == f.inode && st.size != |f.bytes| && st.mtime == f.mtime
      ensures setup.etag(st.size, st.mtime) != setup.etag(|f.bytes|, f.mtime)
    {
      Etag.EtagChanges(st.size, st.mtime, |f.bytes|, f.mtime);
    }
  }
}
