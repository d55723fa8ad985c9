/** Every run of the scanner, over files that only grow or are replaced, keeps the index exact. */
module ScanRuns {
  import opened LogLines
  import opened TextIndexer
  import opened ScanSteps
  import opened IndexShape
  import opened ResumeProof
  import opened Buckets
  import opened GrownIndex
  import GzipIndexer

  /** A size and modification time that the file at `path` with `inode` has had. */
  datatype Stamp = Stamp(path: Path, inode: nat, size: nat, mtime: nat)

  /** The whole system: the disk, the scanner's memory, its cache file, and what has been seen of
      each file so far. */
  datatype Sys = Sys(disk: Disk, index: Index, updated: nat, cache: Option<Index>, seen: set<Stamp>)

  /** The index of a file built from scratch. */
  function Exact(setup: Setup, p: Path, bytes: Bytes): seq<TimeIndex>
    requires setup.cfg.interval > 0
  {
    if IsGzip(p) then GzipIndexer.ChunkedIndex(setup.cfg, setup.inflate(bytes)) else TextIndexer.Index(setup.cfg, bytes)
  }

  // ----- Assumptions on the files

  /** Intervals and thresholds are positive, recognised times reach one interval, and eligible
      files are found under configured roots. */
  ghost predicate Sound(setup: Setup) {
    && setup.cfg.interval > 0 && setup.cfg.threshold > 0
    && (forall p :: setup.eligible(p) ==> setup.rootOf(p) in setup.roots)
    && forall l :: setup.cfg.stamp(l) == 0 || setup.cfg.stamp(l) >= setup.cfg.interval
  }

  /** The line count forces no entry in a text file. */
  ghost predicate Unforced(setup: Setup, p: Path, bytes: Bytes)
    requires setup.cfg.interval > 0
  {
    IsGzip(p) || NeverForced(setup.cfg, FRESH, LinesFrom(bytes, 0))
  }

  function StampOf(p: Path, f: File): Stamp {
    Stamp(p, f.inode, |f.bytes|, f.mtime)
  }

  function StampsOf(disk: Disk): (r: set<Stamp>)
    ensures forall p :: p in disk ==> StampOf(p, disk[p]) in r
    ensures forall st :: st in r ==> st.path in disk && st == StampOf(st.path, disk[st.path])
  {
    set p | p in disk :: StampOf(p, disk[p])
  }

  /** A file known under its inode has not been away and has only grown. */
  ghost predicate OnlyGrew(s: Sys, p: Path, f: File) {
    (exists st :: st in s.seen && st.path == p && st.inode == f.inode) ==>
      p in s.disk && s.disk[p].inode == f.inode && s.disk[p].bytes <= f.bytes
  }

  /** The etag of a file tells its size from every size it has had. */
  ghost predicate EtagTells(setup: Setup, s: Sys, p: Path, f: File) {
    forall st :: st in s.seen && st.path == p && st.inode == f.inode ==>
      setup.etag(st.size, st.mtime) == setup.etag(|f.bytes|, f.mtime) ==> st.size == |f.bytes|
  }

  ghost predicate Continues(setup: Setup, s: Sys, p: Path, f: File) {
    OnlyGrew(s, p, f) && EtagTells(setup, s, p, f)
  }

  /** Any number of files may be created, grow, be replaced under a new inode or be deleted. */
  ghost predicate Allowed(setup: Setup, s: Sys, disk: Disk)
    requires setup.cfg.interval > 0
  {
    forall p :: p in disk ==> Continues(setup, s, p, disk[p]) && Unforced(setup, p, disk[p].bytes)
  }

  // ----- Steps

  function Changed(s: Sys, disk: Disk): Sys {
    s.(disk := disk, seen := s.seen + StampsOf(disk))
  }

  function Scan(setup: Setup, s: Sys): Sys {
    s.(index := Scanned(setup, s.disk, s.index))
  }

  function Update(setup: Setup, s: Sys): Sys
    requires setup.cfg.interval > 0
  {
    s.(index := Updated(setup, s.disk, s.index), updated := |StalePaths(s.index)|)
  }

  function Prune(s: Sys): Sys {
    s.(index := Pruned(s.disk, s.index))
  }

  function Save(s: Sys): Sys {
    if s.updated == 0 then s else s.(cache := Some(s.index))
  }

  function Load(setup: Setup, s: Sys): Sys {
    s.(index := Loaded(setup, s.cache, s.index))
  }

  /** The process ends and starts again with only the cache file left. */
  function Restart(s: Sys): Sys {
    s.(index := map[], updated := 0)
  }

  /** One pass of the scan loop on a quiet disk. */
  function Pass(setup: Setup, s: Sys): Sys
    requires setup.cfg.interval > 0
  {
    Save(Prune(Update(setup, Scan(setup, s))))
  }

  /** The first pass after a start: the cache is loaded over the scan. */
  function FirstPass(setup: Setup, s: Sys): Sys
    requires setup.cfg.interval > 0
  {
    Save(Prune(Update(setup, Load(setup, Scan(setup, s)))))
  }

  /** One step of a run: steps of a pass may interleave with changes of the disk in any way. */
  ghost predicate Next(setup: Setup, s: Sys, s': Sys)
    requires setup.cfg.interval > 0
  {
    || (Allowed(setup, s, s'.disk) && s' == Changed(s, s'.disk))
    || s' == Scan(setup, s)
    || s' == Update(setup, s)
    || s' == Prune(s)
    || s' == Save(s)
    || s' == Load(setup, s)
    || s' == Restart(s)
  }

  const EMPTY: Sys := Sys(map[], map[], 0, None, {})

  ghost predicate IsRun(setup: Setup, run: seq<Sys>)
    requires setup.cfg.interval > 0
  {
    && run != [] && run[0] == EMPTY
    && forall i :: 0 <= i < |run| - 1 ==> Next(setup, run[i], run[i + 1])
  }

  // ----- The invariant

  /** The file on disk is the one the record is about. */
  predicate Alive(disk: Disk, p: Path, inode: nat) {
    p in disk && disk[p].inode == inode
  }

  /** A live record's entries are exact for the first `n` bytes, and its etag was computed for a size
      of at most `n`. */
  ghost predicate ExactFor(setup: Setup, s: Sys, p: Path, fi: FileIndex, st: Stamp, n: nat)
    requires setup.cfg.interval > 0 && p in s.disk
  {
    && st in s.seen && st.path == p && st.inode == s.disk[p].inode
    && fi.indexEtag == setup.etag(st.size, st.mtime)
    && st.size <= n <= |s.disk[p].bytes|
    && fi.entries == Exact(setup, p, s.disk[p].bytes[..n])
  }

  ghost predicate InfoOk(setup: Setup, s: Sys, p: Path, info: FileInfo)
    requires setup.cfg.interval > 0
  {
    && Stamp(p, info.inode, info.size, info.mtime) in s.seen
    && info.etag == setup.etag(info.size, info.mtime) && info.gzip == IsGzip(p) && info.root == setup.rootOf(p)
    && (Alive(s.disk, p, info.inode) && info.fileIndex.Some? ==>
          exists st, n: nat :: ExactFor(setup, s, p, info.fileIndex.value, st, n))
  }

  ghost predicate IndexOk(setup: Setup, s: Sys, index: Index)
    requires setup.cfg.interval > 0
  {
    forall p :: p in index ==> InfoOk(setup, s, p, index[p])
  }

  /** What has been seen of a file on disk is no larger than the file, and its etag is unambiguous. */
  ghost predicate FileOk(setup: Setup, s: Sys, p: Path)
    requires setup.cfg.interval > 0 && p in s.disk
  {
    && StampOf(p, s.disk[p]) in s.seen && Unforced(setup, p, s.disk[p].bytes)
    && forall st :: st in s.seen && st.path == p && st.inode == s.disk[p].inode ==>
         && st.size <= |s.disk[p].bytes|
         && (setup.etag(st.size, st.mtime) == setup.etag(|s.disk[p].bytes|, s.disk[p].mtime) ==>
             st.size == |s.disk[p].bytes|)
  }

  ghost predicate Inv(setup: Setup, s: Sys)
    requires setup.cfg.interval > 0
  {
    && (forall p :: p in s.disk ==> FileOk(setup, s, p))
    && IndexOk(setup, s, s.index)
    && (s.cache.Some? ==> IndexOk(setup, s, s.cache.value))
  }

  // ----- Every step keeps the invariant

  lemma ChangedKeepsInfo(setup: Setup, s: Sys, disk: Disk, p: Path, info: FileInfo)
    requires setup.cfg.interval > 0 && Allowed(setup, s, disk) && InfoOk(setup, s, p, info)
    ensures InfoOk(setup, Changed(s, disk), p, info)
  {
    var s' := Changed(s, disk);
    if Alive(disk, p, info.inode) && info.fileIndex.Some? {
      assert Continues(setup, s, p, disk[p]);
      var st, n: nat :| ExactFor(setup, s, p, info.fileIndex.value, st, n);
      assert disk[p].bytes[..n] == s.disk[p].bytes[..n];
      assert ExactFor(setup, s', p, info.fileIndex.value, st, n);
    }
  }

  lemma ChangedKeepsFiles(setup: Setup, s: Sys, disk: Disk, p: Path)
    requires setup.cfg.interval > 0 && Allowed(setup, s, disk) && Inv(setup, s) && p in disk
    ensures FileOk(setup, Changed(s, disk), p)
  {
    assert Continues(setup, s, p, disk[p]);
    forall st | st in Changed(s, disk).seen && st.path == p && st.inode == disk[p].inode
      ensures st.size <= |disk[p].bytes|
    {
      if st in s.seen {
        assert FileOk(setup, s, p);
      }
    }
  }

  lemma ChangedKeeps(setup: Setup, s: Sys, disk: Disk)
    requires setup.cfg.interval > 0 && Allowed(setup, s, disk) && Inv(setup, s)
    ensures Inv(setup, Changed(s, disk))
  {
    hide InfoOk, Allowed, FileOk;
    forall p | p in disk ensures FileOk(setup, Changed(s, disk), p) {
      ChangedKeepsFiles(setup, s, disk, p);
    }
    forall p | p in s.index ensures InfoOk(setup, Changed(s, disk), p, s.index[p]) {
      ChangedKeepsInfo(setup, s, disk, p, s.index[p]);
    }
    if s.cache.Some? {
      forall p | p in s.cache.value ensures InfoOk(setup, Changed(s, disk), p, s.cache.value[p]) {
        ChangedKeepsInfo(setup, s, disk, p, s.cache.value[p]);
      }
    }
  }

  /** The invariant of records depends only on the disk and on what has been seen. */
  lemma InfoOkElsewhere(setup: Setup, s: Sys, s': Sys, p: Path, info: FileInfo)
    requires setup.cfg.interval > 0 && s.disk == s'.disk && s.seen == s'.seen && InfoOk(setup, s, p, info)
    ensures InfoOk(setup, s', p, info)
  {
    if Alive(s.disk, p, info.inode) && info.fileIndex.Some? {
      var st, n: nat :| ExactFor(setup, s, p, info.fileIndex.value, st, n);
      assert ExactFor(setup, s', p, info.fileIndex.value, st, n);
    }
  }

  lemma FileOkElsewhere(setup: Setup, s: Sys, s': Sys)
    requires setup.cfg.interval > 0 && s.disk == s'.disk && s.seen == s'.seen
    requires forall p :: p in s.disk ==> FileOk(setup, s, p)
    ensures forall p :: p in s'.disk ==> FileOk(setup, s', p)
  {
    forall p | p in s'.disk ensures FileOk(setup, s', p) {
      assert FileOk(setup, s, p);
    }
  }

  lemma MergeKeepsInfo(setup: Setup, s: Sys, p: Path)
    requires setup.cfg.interval > 0 && Inv(setup, s) && p in s.disk
    ensures InfoOk(setup, s, p, Merge(Stat(setup, p, s.disk[p]), s.index, p))
  {
    assert FileOk(setup, s, p);
    if p in s.index {
      assert InfoOk(setup, s, p, s.index[p]);
    }
  }

  lemma SameCache(setup: Setup, s: Sys, s': Sys)
    requires setup.cfg.interval > 0 && Inv(setup, s)
    requires s.disk == s'.disk && s.seen == s'.seen && s.cache == s'.cache
    ensures forall p :: p in s'.disk ==> FileOk(setup, s', p)
    ensures s'.cache.Some? ==> IndexOk(setup, s', s'.cache.value)
  {
    hide InfoOk, FileOk;
    FileOkElsewhere(setup, s, s');
    if s.cache.Some? {
      forall p | p in s.cache.value ensures InfoOk(setup, s', p, s.cache.value[p]) {
        InfoOkElsewhere(setup, s, s', p, s.cache.value[p]);
      }
    }
  }

  lemma ScanKeeps(setup: Setup, s: Sys)
    requires setup.cfg.interval > 0 && Inv(setup, s)
    ensures Inv(setup, Scan(setup, s))
  {
    hide InfoOk, FileOk;
    var s' := Scan(setup, s);
    forall p | p in s'.index ensures InfoOk(setup, s', p, s'.index[p]) {
      if p in Found(setup, s.disk) {
        MergeKeepsInfo(setup, s, p);
      }
      InfoOkElsewhere(setup, s, s', p, s'.index[p]);
    }
    SameCache(setup, s, s');
  }

  /** On a system with sound settings an index never ends in a repeated zero. */
  lemma SoundNeverRepeats(setup: Setup, d: Bytes)
    requires Sound(setup)
    ensures !RepeatsZero(TextIndexer.Index(setup.cfg, d))
  {
    var ls := LinesFrom(d, 0);
    RegularEntries(setup.cfg, ls);
    var entries, m := TextIndexer.Index(setup.cfg, d), MarkedLines(setup.cfg, ls);
    if |entries| > 1 {
      FloorReaches(setup.cfg, setup.cfg.stamp(ls[m[|entries| - 2]].text));
    }
  }

  lemma FromNothing(cfg: Config, d: Bytes)
    requires cfg.interval > 0
    ensures IndexFrom(cfg, d, None) == TextIndexer.Index(cfg, d)
  {
  }

  /** Indexing a live file, from nothing or from an exact index of a prefix, gives its exact index. */
  lemma EntriesAreExact(setup: Setup, s: Sys, p: Path, info: FileInfo)
    requires Sound(setup) && Inv(setup, s) && InfoOk(setup, s, p, info) && Alive(s.disk, p, info.inode)
    ensures Entries(setup, p, info, s.disk) == Exact(setup, p, s.disk[p].bytes)
  {
    hide TextIndexer.Index, IndexFrom, NeverForced;
    assert FileOk(setup, s, p);
    var d := s.disk[p].bytes;
    if !info.gzip && info.fileIndex.Some? {
      var st, n: nat :| ExactFor(setup, s, p, info.fileIndex.value, st, n);
      SoundNeverRepeats(setup, d[..n]);
      ResumeEqualsRebuild(setup.cfg, d[..n], d);
    } else {
      FromNothing(setup.cfg, d);
    }
  }

  lemma RefreshedKeepsInfo(setup: Setup, s: Sys, p: Path, info: FileInfo)
    requires Sound(setup) && Inv(setup, s) && InfoOk(setup, s, p, info)
    ensures InfoOk(setup, s, p, Refreshed(setup, p, info, s.disk))
  {
    hide Entries, Exact;
    if Stale(info) && Alive(s.disk, p, info.inode) {
      EntriesAreExact(setup, s, p, info);
      assert FileOk(setup, s, p);
      var d := s.disk[p].bytes;
      assert d[..|d|] == d;
      assert ExactFor(setup, s, p, Refreshed(setup, p, info, s.disk).fileIndex.value,
        Stamp(p, info.inode, info.size, info.mtime), |d|);
    }
  }

  lemma UpdateKeeps(setup: Setup, s: Sys)
    requires Sound(setup) && Inv(setup, s)
    ensures Inv(setup, Update(setup, s))
  {
    hide InfoOk, FileOk, Refreshed;
    var s' := Update(setup, s);
    forall p | p in s'.index ensures InfoOk(setup, s', p, s'.index[p]) {
      RefreshedKeepsInfo(setup, s, p, s.index[p]);
      InfoOkElsewhere(setup, s, s', p, s'.index[p]);
    }
    SameCache(setup, s, s');
  }

  /** Steps that only drop records or copy them between memory and cache. */
  lemma CopiesKeep(setup: Setup, s: Sys, s': Sys)
    requires setup.cfg.interval > 0 && Inv(setup, s) && s.disk == s'.disk && s.seen == s'.seen
    requires forall p :: p in s'.index ==>
      (p in s.index && s'.index[p] == s.index[p]) ||
      (s.cache.Some? && p in s.cache.value && s'.index[p] == s.cache.value[p])
    requires s'.cache == s.cache || s'.cache == Some(s.index)
    ensures Inv(setup, s')
  {
    hide InfoOk, FileOk;
    FileOkElsewhere(setup, s, s');
    forall p | p in s'.index ensures InfoOk(setup, s', p, s'.index[p]) {
      InfoOkElsewhere(setup, s, s', p, s'.index[p]);
    }
    if s'.cache.Some? {
      forall p | p in s'.cache.value ensures InfoOk(setup, s', p, s'.cache.value[p]) {
        InfoOkElsewhere(setup, s, s', p, s'.cache.value[p]);
      }
    }
  }

  lemma NextKeeps(setup: Setup, s: Sys, s': Sys)
    requires Sound(setup) && Inv(setup, s) && Next(setup, s, s')
    ensures Inv(setup, s')
  {
    hide Inv, Allowed, Scanned, Updated;
    if s' == Scan(setup, s) {
      ScanKeeps(setup, s);
    } else if s' == Update(setup, s) {
      UpdateKeeps(setup, s);
    } else if s' == Prune(s) || s' == Save(s) || s' == Load(setup, s) || s' == Restart(s) {
      CopiesKeep(setup, s, s');
    } else {
      ChangedKeeps(setup, s, s'.disk);
    }
  }

  /** The invariant holds at the end of every run. */
  lemma {:induction false} RunKeeps(setup: Setup, run: seq<Sys>)
    requires Sound(setup) && IsRun(setup, run)
    ensures Inv(setup, run[|run| - 1])
    decreases |run|
  {
    hide Next;
    var n := |run| - 1;
    if n > 0 {
      hide Inv;
      RunKeeps(setup, run[..n]);
      NextKeeps(setup, run[n - 1], run[n]);
    }
  }

  // ----- What a pass achieves

  /** The record describes the file as it is. */
  predicate Describes(info: FileInfo, f: File) {
    info.inode == f.inode && info.size == |f.bytes| && info.mtime == f.mtime
  }

  /** The record describes the file as it is, and its entries are the file's exact index. */
  ghost predicate Current(setup: Setup, s: Sys, p: Path)
    requires setup.cfg.interval > 0 && p in s.disk
  {
    && p in s.index && Describes(s.index[p], s.disk[p]) && !Stale(s.index[p])
    && s.index[p].fileIndex.value.entries == Exact(setup, p, s.disk[p].bytes)
  }

  /** Bringing a record that describes its file up to date makes it exact. */
  lemma RefreshedIsExact(setup: Setup, s: Sys, p: Path, info: FileInfo)
    requires Sound(setup) && Inv(setup, s) && p in s.disk && InfoOk(setup, s, p, info) && Describes(info, s.disk[p])
    ensures var r := Refreshed(setup, p, info, s.disk);
      Describes(r, s.disk[p]) && !Stale(r) && r.fileIndex.value.entries == Exact(setup, p, s.disk[p].bytes)
  {
    hide Entries, Exact;
    var d := s.disk[p].bytes;
    if Stale(info) {
      EntriesAreExact(setup, s, p, info);
    } else {
      var st, n: nat :| ExactFor(setup, s, p, info.fileIndex.value, st, n);
      assert FileOk(setup, s, p);
      assert d[..n] == d;
    }
  }

  lemma ScanDescribes(setup: Setup, s: Sys, p: Path)
    requires p in Found(setup, s.disk)
    ensures p in Scan(setup, s).index && Describes(Scan(setup, s).index[p], s.disk[p])
  {
  }

  lemma InvInfo(setup: Setup, s: Sys, p: Path)
    requires setup.cfg.interval > 0 && Inv(setup, s) && p in s.index
    ensures InfoOk(setup, s, p, s.index[p])
  {
  }

  lemma RefreshedIsFresh(setup: Setup, p: Path, info: FileInfo, disk: Disk)
    requires setup.cfg.interval > 0
    ensures !Stale(Refreshed(setup, p, info, disk))
  {
  }

  /** What the scan leaves in memory: a file it finds is described as it is, with the entries it had
      if it is still the same file and with none otherwise; all other records stay. */
  lemma ScanKeepsEntries(setup: Setup, s: Sys, p: Path)
    ensures var s' := Scan(setup, s);
      if p in s.disk && setup.eligible(p) then
        p in s'.index && Describes(s'.index[p], s.disk[p]) &&
        s'.index[p].fileIndex ==
          (if p in s.index && s.index[p].inode == s.disk[p].inode then s.index[p].fileIndex else None)
      else (p in s'.index <==> p in s.index) && (p in s.index ==> s'.index[p] == s.index[p])
  {
    assert p in Found(setup, s.disk) <==> p in s.disk && setup.eligible(p);
  }

  /** What a pass drops after updating: exactly the records that have entries although their file is
      gone. A record without entries stays even then, and no record that stays is changed. */
  lemma PassDropsExactly(setup: Setup, s: Sys)
    requires setup.cfg.interval > 0
    ensures var u, s' := Update(setup, Scan(setup, s)), Pass(setup, s);
      && s'.index.Keys <= u.index.Keys
      && (forall p :: p in u.index ==>
            (p !in s'.index <==>
               p !in s.disk && u.index[p].fileIndex.Some? && u.index[p].fileIndex.value.entries != []))
      && (forall p :: p in s'.index ==> s'.index[p] == u.index[p])
  {
    hide Scanned, Updated;
  }

  lemma GoneFileUpdated(setup: Setup, s: Sys, p: Path)
    requires setup.cfg.interval > 0 && p in s.index && p !in s.disk
    ensures var info, u := s.index[p], Update(setup, s);
      p in u.index && u.index[p] == if Stale(info) then info.(fileIndex := Some(FileIndex(info.etag, []))) else info
  {
  }

  /** A file that goes away before the pass gets to it: its record stays, now without entries, if it
      was waiting to be indexed or had no entries anyway, and is dropped otherwise. */
  lemma GoneFileAfterPass(setup: Setup, s: Sys, p: Path)
    requires setup.cfg.interval > 0 && p in s.index && p !in s.disk
    ensures var info, s' := s.index[p], Pass(setup, s);
      && (p in s'.index <==> Stale(info) || info.fileIndex.value.entries == [])
      && (p in s'.index ==> s'.index[p] == info.(fileIndex := Some(FileIndex(info.etag, []))))
  {
    hide Scanned, Updated, StalePaths;
    ScanKeepsEntries(setup, s, p);
    PassDropsExactly(setup, s);
    GoneFileUpdated(setup, Scan(setup, s), p);
  }

  /** A pass writes the cache exactly when it indexed something: a pass that only drops records of
      deleted files leaves them in the cache. */
  lemma PassCachesIff(setup: Setup, s: Sys)
    requires setup.cfg.interval > 0
    ensures var s' := Pass(setup, s);
      if exists p :: p in Scan(setup, s).index && Stale(Scan(setup, s).index[p])
      then s'.cache == Some(s'.index) else s'.cache == s.cache
  {
    hide Scanned, Updated, Stale;
    var stale := StalePaths(Scan(setup, s).index);
    if p :| p in Scan(setup, s).index && Stale(Scan(setup, s).index[p]) {
      assert p in stale;
    } else {
      assert stale == {};
    }
  }

  /** A pass on a quiet disk leaves every eligible file with the exact index of its bytes, and no
      entries for files that are gone. */
  lemma PassIsExact(setup: Setup, s: Sys)
    requires Sound(setup) && Inv(setup, s)
    ensures var s' := Pass(setup, s);
      && Inv(setup, s') && s'.disk == s.disk
      && (forall p :: p in s.disk && setup.eligible(p) ==> Current(setup, s', p))
      && (forall p :: p in s'.index ==>
            !Stale(s'.index[p]) && (s'.index[p].fileIndex.value.entries != [] ==> p in s.disk))
  {
    hide Inv, InfoOk, Exact, Entries, Describes, Refreshed;
    var a := Scan(setup, s);
    var b := Update(setup, a);
    ScanKeeps(setup, s);
    UpdateKeeps(setup, a);
    CopiesKeep(setup, b, Prune(b));
    CopiesKeep(setup, Prune(b), Pass(setup, s));
    forall p | p in s.disk && setup.eligible(p) ensures Current(setup, Pass(setup, s), p) {
      assert p in Found(setup, s.disk);
      ScanDescribes(setup, s, p);
      InvInfo(setup, a, p);
      RefreshedIsExact(setup, a, p, a.index[p]);
    }
    forall p | p in b.index ensures !Stale(b.index[p]) {
      RefreshedIsFresh(setup, p, a.index[p], s.disk);
    }
    PassDropsExactly(setup, s);
  }

  lemma ScanChangesNothing(setup: Setup, s: Sys)
    requires setup.cfg.interval > 0
    requires forall p :: p in Found(setup, s.disk) ==> Current(setup, s, p)
    ensures Scanned(setup, s.disk, s.index) == s.index
  {
    hide Exact, Stale;
    forall p | p in Found(setup, s.disk)
      ensures p in s.index && Merge(Stat(setup, p, s.disk[p]), s.index, p) == s.index[p]
    {
      assert Current(setup, s, p);
    }
  }

  lemma UpdateChangesNothing(setup: Setup, disk: Disk, index: Index)
    requires setup.cfg.interval > 0
    requires forall p :: p in index ==> !Stale(index[p]) && Kept(p, index[p], disk)
    ensures Updated(setup, disk, index) == index && StalePaths(index) == {} && Pruned(disk, index) == index
  {
    hide Entries;
  }

  /** A second pass on the same quiet disk re-indexes nothing and changes nothing. */
  lemma SecondPassDoesNothing(setup: Setup, s: Sys)
    requires Sound(setup) && Inv(setup, s)
    ensures var s' := Pass(setup, s); Pass(setup, s') == s'.(updated := 0)
  {
    hide Inv, Scanned, Updated, Pruned, StalePaths, Current, Exact;
    var s' := Pass(setup, s);
    PassIsExact(setup, s);
    ScanChangesNothing(setup, s');
    UpdateChangesNothing(setup, s'.disk, s'.index);
  }

  /** At the end of any run, one quiet pass makes the index exact and a second one does nothing. */
  lemma EveryRunIndexesExactly(setup: Setup, run: seq<Sys>)
    requires Sound(setup) && IsRun(setup, run)
    ensures var s := run[|run| - 1];
      var s' := Pass(setup, s);
      && (forall p :: p in s.disk && setup.eligible(p) ==>
            p in s'.index && s'.index[p].fileIndex.Some? &&
            s'.index[p].fileIndex.value.entries == Exact(setup, p, s.disk[p].bytes))
      && (forall p :: p in s'.index && p !in s.disk ==>
            s'.index[p].fileIndex.Some? && s'.index[p].fileIndex.value.entries == [])
      && Pass(setup, s') == s'.(updated := 0)
  {
    hide Inv, Pass, Exact;
    var s := run[|run| - 1];
    RunKeeps(setup, run);
    PassIsExact(setup, s);
    SecondPassDoesNothing(setup, s);
    forall p | p in s.disk && setup.eligible(p)
      ensures p in Pass(setup, s).index && Pass(setup, s).index[p].fileIndex.Some?
    {
      assert Current(setup, Pass(setup, s), p);
    }
  }

  // ----- The first pass after a restart

  /** What the scan and the loaded cache leave in memory after a restart. */
  lemma LoadedIs(setup: Setup, s: Sys, p: Path)
    requires Sound(setup) && Inv(setup, s) && s.index == map[] && p in s.disk && setup.eligible(p)
    ensures var b := Load(setup, Scan(setup, s));
      if s.cache.None? then p in b.index && Describes(b.index[p], s.disk[p])
      else (p in b.index <==> p in s.cache.value) && (p in b.index ==> b.index[p] == s.cache.value[p])
  {
    assert p in Found(setup, s.disk);
    if s.cache.Some? && p in s.cache.value {
      assert InfoOk(setup, s, p, s.cache.value[p]);
    }
  }

  lemma LoadCopies(setup: Setup, s: Sys)
    ensures var a := Scan(setup, s);
      var b := Load(setup, a);
      forall p :: p in b.index ==>
        (p in a.index && b.index[p] == a.index[p]) ||
        (a.cache.Some? && p in a.cache.value && b.index[p] == a.cache.value[p])
  {
    hide Scanned;
  }

  /** A restart brings no record back for a file that was not found, or whose cached record lies
      under a root that is no longer configured. */
  lemma OnlyFoundFilesReturn(setup: Setup, s: Sys, p: Path)
    requires s.index == map[] && p in Load(setup, Scan(setup, s)).index
    ensures p in s.disk && setup.eligible(p)
    ensures s.cache.Some? ==> p in s.cache.value && s.cache.value[p].root in setup.roots
  {
    assert p in Scanned(setup, s.disk, s.index);
    assert p in Found(setup, s.disk);
  }

  lemma LoadKeeps(setup: Setup, s: Sys)
    requires Sound(setup) && Inv(setup, s)
    ensures Inv(setup, Load(setup, Scan(setup, s)))
  {
    hide Inv, Scanned, Loaded;
    ScanKeeps(setup, s);
    LoadCopies(setup, s);
    CopiesKeep(setup, Scan(setup, s), Load(setup, Scan(setup, s)));
  }

  /** The first pass after a restart makes the record of a file current if and only if there is no
      cache, or the cached record already describes the file as it is: the cache replaces what was
      scanned. */
  lemma FirstPassExactIff(setup: Setup, s: Sys, p: Path)
    requires Sound(setup) && Inv(setup, s) && s.index == map[] && p in s.disk && setup.eligible(p)
    ensures Current(setup, FirstPass(setup, s), p) <==>
      s.cache.None? || (p in s.cache.value && Describes(s.cache.value[p], s.disk[p]))
  {
    hide Inv, InfoOk, Exact, Scanned, Loaded, Entries;
    var b := Load(setup, Scan(setup, s));
    LoadKeeps(setup, s);
    LoadedIs(setup, s, p);
    if p in b.index && Describes(b.index[p], s.disk[p]) {
      InvInfo(setup, b, p);
      RefreshedIsExact(setup, b, p, b.index[p]);
    }
  }

  /** The entries in memory are the exact index of the file as it is, whatever else the record says. */
  ghost predicate ServesExact(setup: Setup, s: Sys, p: Path)
    requires setup.cfg.interval > 0 && p in s.disk
  {
    p in s.index && s.index[p].fileIndex.Some? &&
    s.index[p].fileIndex.value.entries == Exact(setup, p, s.disk[p].bytes)
  }

  ghost predicate Unchanged(cfg: Config, d: Bytes, n: nat)
    requires cfg.interval > 0
  {
    n <= |d| && LinesFrom(d[..n], 0) <= LinesFrom(d, 0) && KeepsIndex(cfg, LinesFrom(d[..n], 0), LinesFrom(d, 0))
  }

  /** The entries are exact for a prefix of the file whose index the rest of the file does not change. */
  ghost predicate StillExact(setup: Setup, s: Sys, p: Path, fi: FileIndex)
    requires setup.cfg.interval > 0 && p in s.disk
  {
    exists st, n: nat :: ExactFor(setup, s, p, fi, st, n) && Unchanged(setup.cfg, s.disk[p].bytes, n)
  }

  /** What the first pass leaves of a record it has loaded. */
  lemma FirstPassRefreshes(setup: Setup, s: Sys, p: Path)
    requires setup.cfg.interval > 0 && p in s.disk
    ensures var b, s' := Load(setup, Scan(setup, s)), FirstPass(setup, s);
      s'.disk == s.disk && (p in s'.index <==> p in b.index) &&
      (p in b.index ==> s'.index[p] == Refreshed(setup, p, b.index[p], s.disk))
  {
    hide Scanned, Loaded, Refreshed;
  }

  lemma ServedIffStillExact(setup: Setup, s: Sys, p: Path, info: FileInfo)
    requires Sound(setup) && Inv(setup, s) && p in s.disk && !IsGzip(p)
    requires InfoOk(setup, s, p, info) && Alive(s.disk, p, info.inode)
    ensures var r := Refreshed(setup, p, info, s.disk);
      r.fileIndex.Some? && (r.fileIndex.value.entries == Exact(setup, p, s.disk[p].bytes) <==>
        Stale(info) || StillExact(setup, s, p, info.fileIndex.value))
  {
    hide Entries, TextIndexer.Index, LinesFrom, KeepsIndex, Inv;
    if Stale(info) {
      EntriesAreExact(setup, s, p, info);
    } else {
      var d, fi := s.disk[p].bytes, info.fileIndex.value;
      forall st, n: nat | ExactFor(setup, s, p, fi, st, n)
        ensures fi.entries == Exact(setup, p, d) <==> Unchanged(setup.cfg, d, n)
      {
        GrownIndexSameIff(setup.cfg, d[..n], d);
      }
    }
  }

  lemma StillExactElsewhere(setup: Setup, s: Sys, s': Sys, p: Path, info: FileInfo)
    requires setup.cfg.interval > 0 && s.disk == s'.disk && s.seen == s'.seen && p in s.disk
    ensures !Stale(info) ==>
      (StillExact(setup, s, p, info.fileIndex.value) <==> StillExact(setup, s', p, info.fileIndex.value))
  {
    hide Exact, Unchanged;
    if !Stale(info) {
      var fi, d := info.fileIndex.value, s.disk[p].bytes;
      if StillExact(setup, s, p, fi) {
        var st, n: nat :| ExactFor(setup, s, p, fi, st, n) && Unchanged(setup.cfg, d, n);
        assert ExactFor(setup, s', p, fi, st, n);
      }
      if StillExact(setup, s', p, fi) {
        var st, n: nat :| ExactFor(setup, s', p, fi, st, n) && Unchanged(setup.cfg, d, n);
        assert ExactFor(setup, s, p, fi, st, n);
      }
    }
  }

  /** For a text file that is still the one its cached record is about: the entries that the first
      pass serves are exact if and only if there is no cache, or the cached entries are stale by
      their own etag, or the file has since got no line that changes its index. */
  lemma FirstPassEntriesExactIff(setup: Setup, s: Sys, p: Path)
    requires Sound(setup) && Inv(setup, s) && s.index == map[] && p in s.disk && setup.eligible(p) && !IsGzip(p)
    requires s.cache.Some? && p in s.cache.value ==> Alive(s.disk, p, s.cache.value[p].inode)
    ensures ServesExact(setup, FirstPass(setup, s), p) <==>
      s.cache.None? ||
      (p in s.cache.value &&
       (Stale(s.cache.value[p]) || StillExact(setup, s, p, s.cache.value[p].fileIndex.value)))
  {
    hide Inv, InfoOk, Exact, Scanned, Loaded, Refreshed, StillExact, FirstPass;
    var b := Load(setup, Scan(setup, s));
    LoadKeeps(setup, s);
    LoadedIs(setup, s, p);
    FirstPassRefreshes(setup, s, p);
    if p in b.index {
      InvInfo(setup, b, p);
      if s.cache.None? {
        RefreshedIsExact(setup, b, p, b.index[p]);
      } else {
        ServedIffStillExact(setup, b, p, b.index[p]);
        StillExactElsewhere(setup, s, b, p, b.index[p]);
      }
    }
  }

  /** Until the next pass the index then serves the cached entries, whatever the file holds now;
      a record whose root is no longer configured is dropped, and its file is not served at all. */
  lemma FirstPassServesCache(setup: Setup, s: Sys, p: Path)
    requires setup.cfg.interval > 0 && s.index == map[] && p in s.disk && setup.eligible(p)
    requires s.cache.Some? && p in s.cache.value && !Stale(s.cache.value[p])
    ensures var s' := FirstPass(setup, s);
      if s.cache.value[p].root in setup.roots then p in s'.index && s'.index[p] == s.cache.value[p]
      else p !in s'.index
  {
    assert p in Found(setup, s.disk);
  }

  // ----- The scanner's passes

  /** The state of a scanner next to a disk. */
  ghost function View(ix: FileIndexer, disk: Disk, seen: set<Stamp>): Sys
    reads ix
  {
    Sys(disk, ix.index, ix.updatedCount, ix.cache, seen)
  }

  /** One turn of the scan loop. */
  method ScanPass(ix: FileIndexer, disk: Disk, ghost seen: set<Stamp>)
    requires ix.setup.cfg.interval > 0
    modifies ix
    ensures View(ix, disk, seen) == Pass(ix.setup, old(View(ix, disk, seen)))
  {
    ix.ScanRoot(disk);
    ix.UpdateFileIndex(disk);
    ix.RemoveUnusedIndexes(disk);
    ix.SaveIndexToCache();
  }

  /** The first pass after a start (`init_indexes`). */
  method InitIndexes(ix: FileIndexer, disk: Disk, ghost seen: set<Stamp>)
    requires ix.setup.cfg.interval > 0
    modifies ix
    ensures View(ix, disk, seen) == FirstPass(ix.setup, old(View(ix, disk, seen)))
  {
    ix.ScanRoot(disk);
    ix.LoadIndexFromCache();
    ix.UpdateFileIndex(disk);
    ix.RemoveUnusedIndexes(disk);
    ix.SaveIndexToCache();
  }
}
