/** The file scanner (`FileIndexer`): the in-memory index, its cache on disk, and the steps of a
    scan pass. */
module ScanSteps {
  import opened LogLines
  import opened TextIndexer
  import GzipIndexer

  type Path = string
  type Tag = Bytes

  /** A regular file as the directory walk finds it. */
  datatype File = File(inode: nat, mtime: nat, bytes: Bytes)

  type Disk = map<Path, File>

  /** The configuration: its roots, the path filters of all roots together, and the root a path is
      found under. The etag of (size, mtime) stays abstract, and so does decompression: a compressed
      file is read as some list of chunks that its bytes determine. */
  datatype Setup = Setup(
    cfg: Config, etag: (nat, nat) -> Tag, roots: set<Path>, eligible: Path -> bool, rootOf: Path -> Path,
    inflate: Bytes -> seq<Bytes>)

  datatype FileIndex = FileIndex(indexEtag: Tag, entries: seq<TimeIndex>)

  datatype FileInfo = FileInfo(
    size: nat, mtime: nat, inode: nat, etag: Tag, gzip: bool, root: Path, fileIndex: Option<FileIndex>)

  type Index = map<Path, FileInfo>

  function Lower(c: char): char {
    if 'A' <= c <= 'Z' then c - 'A' + 'a' else c
  }

  /** Whether the name ends in `.gz`, in any case. */
  predicate IsGzip(p: Path) {
    var n := |p|;
    n >= 3 && p[n - 3] == '.' && Lower(p[n - 2]) == 'g' && Lower(p[n - 1]) == 'z'
  }

  /** These are the names that end in `.gz`, `.GZ`, `.Gz` or `.gZ`, and no others. */
  lemma GzipNames(p: Path)
    ensures IsGzip(p) <==> exists base: Path :: p in {base + ".gz", base + ".GZ", base + ".Gz", base + ".gZ"}
  {
    if IsGzip(p) {
      var n := |p|;
      assert p == p[..n - 3] + [p[n - 3], p[n - 2], p[n - 1]];
      assert p[n - 2] == 'g' || p[n - 2] == 'G';
      assert p[n - 1] == 'z' || p[n - 1] == 'Z';
      var base := p[..n - 3];
      assert p in {base + ".gz", base + ".GZ", base + ".Gz", base + ".gZ"};
    }
  }

  /** A file's record before it is indexed. */
  function Stat(setup: Setup, p: Path, f: File): FileInfo {
    FileInfo(|f.bytes|, f.mtime, f.inode, setup.etag(|f.bytes|, f.mtime), IsGzip(p), setup.rootOf(p), None)
  }

  // ----- One file

  /** A new inode starts over; a new size or mtime keeps the old index for resuming. */
  function Merge(info: FileInfo, index: Index, p: Path): FileInfo {
    if p !in index || index[p].inode != info.inode then info
    else if index[p].size != info.size || index[p].mtime != info.mtime
    then info.(fileIndex := index[p].fileIndex)
    else index[p]
  }

  predicate Stale(info: FileInfo) {
    info.fileIndex.None? || info.fileIndex.value.indexEtag != info.etag
  }

  function Prior(info: FileInfo): Option<seq<TimeIndex>> {
    if info.fileIndex.None? then None else Some(info.fileIndex.value.entries)
  }

  /** The entries indexing gives now; a file that cannot be opened gets none. */
  function Entries(setup: Setup, p: Path, info: FileInfo, disk: Disk): seq<TimeIndex>
    requires setup.cfg.interval > 0
  {
    if p !in disk then []
    else if info.gzip then GzipIndexer.ChunkedIndex(setup.cfg, setup.inflate(disk[p].bytes))
    else IndexFrom(setup.cfg, disk[p].bytes, Prior(info))
  }

  function Refreshed(setup: Setup, p: Path, info: FileInfo, disk: Disk): FileInfo
    requires setup.cfg.interval > 0
  {
    if Stale(info) then info.(fileIndex := Some(FileIndex(info.etag, Entries(setup, p, info, disk)))) else info
  }

  predicate Kept(p: Path, info: FileInfo, disk: Disk) {
    info.fileIndex.None? || info.fileIndex.value.entries == [] || p in disk
  }

  // ----- The whole index

  function Found(setup: Setup, disk: Disk): (ps: set<Path>)
    ensures forall p :: p in ps <==> p in disk && setup.eligible(p)
  {
    set p | p in disk && setup.eligible(p)
  }

  function Scanned(setup: Setup, disk: Disk, index: Index): Index {
    map p | p in index.Keys + Found(setup, disk) ::
      if p in Found(setup, disk) then Merge(Stat(setup, p, disk[p]), index, p) else index[p]
  }

  function Updated(setup: Setup, disk: Disk, index: Index): Index
    requires setup.cfg.interval > 0
  {
    map p | p in index :: Refreshed(setup, p, index[p], disk)
  }

  function StalePaths(index: Index): set<Path> {
    set p | p in index && Stale(index[p])
  }

  function Pruned(disk: Disk, index: Index): Index {
    map p | p in index && Kept(p, index[p], disk) :: index[p]
  }

  /** The cached records of files that the scan has found again, under roots that are still
      configured; without a cache, the scan. */
  function Loaded(setup: Setup, cache: Option<Index>, index: Index): Index {
    match cache
    case None => index
    case Some(c) => map p | p in c && p in index && c[p].root in setup.roots :: c[p]
  }

  // ----- Progress of the loops over the files

  /** The index when all paths but those in `todo` have been walked. */
  ghost predicate WalkedSoFar(setup: Setup, disk: Disk, was: Index, now: Index, todo: set<Path>) {
    && now.Keys == was.Keys + (Found(setup, disk) - todo)
    && forall p :: p in now ==>
         now[p] == if p in Found(setup, disk) - todo then Merge(Stat(setup, p, disk[p]), was, p) else was[p]
  }

  lemma WalkedOne(setup: Setup, disk: Disk, was: Index, now: Index, todo: set<Path>, p: Path)
    requires WalkedSoFar(setup, disk, was, now, todo) && p in todo && p in disk
    ensures !setup.eligible(p) ==> WalkedSoFar(setup, disk, was, now, todo - {p})
    ensures setup.eligible(p) ==>
      WalkedSoFar(setup, disk, was, now[p := Merge(Stat(setup, p, disk[p]), now, p)], todo - {p})
  {
    hide Stat;
  }

  /** The index when all files but those in `todo` have been refreshed. */
  ghost predicate RefreshedSoFar(setup: Setup, disk: Disk, was: Index, now: Index, todo: set<Path>)
    requires setup.cfg.interval > 0
  {
    && todo <= was.Keys && now.Keys == was.Keys
    && forall p :: p in was ==> now[p] == if p in todo then was[p] else Refreshed(setup, p, was[p], disk)
  }

  lemma RefreshedOne(setup: Setup, disk: Disk, was: Index, now: Index, todo: set<Path>, p: Path)
    requires setup.cfg.interval > 0 && RefreshedSoFar(setup, disk, was, now, todo) && p in todo
    ensures p in now && p in was && now[p] == was[p]
    ensures RefreshedSoFar(setup, disk, was, now[p := Refreshed(setup, p, now[p], disk)], todo - {p})
  {
    hide Refreshed, Stale;
  }

  lemma CountOne(was: Index, todo: set<Path>, p: Path)
    requires p in todo && p in was
    ensures var stale := StalePaths(was);
      |stale - (todo - {p})| == |stale - todo| + (if Stale(was[p]) then 1 else 0)
  {
    hide Stale;
    var stale := StalePaths(was);
    assert stale - (todo - {p}) == (stale - todo) + (if Stale(was[p]) then {p} else {});
  }

  lemma AllRefreshed(setup: Setup, disk: Disk, was: Index, now: Index)
    requires setup.cfg.interval > 0 && RefreshedSoFar(setup, disk, was, now, {})
    ensures now == Updated(setup, disk, was)
    ensures StalePaths(was) - {} == StalePaths(was)
  {
    hide Refreshed, Stale;
  }

  lemma NoneRefreshed(setup: Setup, disk: Disk, index: Index)
    requires setup.cfg.interval > 0
    ensures RefreshedSoFar(setup, disk, index, index, index.Keys)
    ensures StalePaths(index) - index.Keys == {}
  {
    hide Refreshed, Stale;
  }

  // ----- The scanner object

  class FileIndexer {
    const setup: Setup
    var index: Index
    var updatedCount: nat
    /** The cache file: absent until the first save. */
    var cache: Option<Index>

    constructor (setup: Setup, cache: Option<Index>)
      ensures this.setup == setup && this.cache == cache && index == map[] && updatedCount == 0
    {
      this.setup, this.cache := setup, cache;
      index, updatedCount := map[], 0;
    }

    /** Walk the directory and insert or update one record per eligible file. */
    method ScanRoot(disk: Disk)
      modifies this`index
      ensures index == Scanned(setup, disk, old(index))
    {
      hide Stat;
      ghost var was := index;
      var todo := disk.Keys;
      while todo != {}
        invariant todo <= disk.Keys && WalkedSoFar(setup, disk, was, index, todo)
        decreases |todo|
      {
        hide WalkedSoFar;
        var p :| p in todo;
        WalkedOne(setup, disk, was, index, todo, p);
        todo := todo - {p};
        if setup.eligible(p) {
          var info := Stat(setup, p, disk[p]);
          if p !in index || index[p].inode != info.inode {
            index := index[p := info];
          } else if index[p].size != info.size || index[p].mtime != info.mtime {
            index := index[p := info.(fileIndex := index[p].fileIndex)];
          } else {
            assert index[p := index[p]] == index;
          }
        }
      }
    }

    /** Choose the indexer by file type; a file that cannot be opened gives no entries. */
    method IndexFile(p: Path, info: FileInfo, disk: Disk) returns (outputs: seq<TimeIndex>)
      requires setup.cfg.interval > 0
      ensures outputs == Entries(setup, p, info, disk)
    {
      outputs := [];
      if p in disk {
        if info.gzip {
          outputs := GzipIndexer.UpdateFileIndexIgzip(setup.cfg, setup.inflate(disk[p].bytes));
        } else {
          outputs := UpdateFileIndexTxt(setup.cfg, disk[p].bytes, Prior(info));
        }
      }
    }

    /** Index one file if its record has no index or an index of another etag. */
    method RefreshFile(p: Path, disk: Disk) returns (updated: bool)
      requires setup.cfg.interval > 0 && p in index
      modifies this`index
      ensures index == old(index)[p := Refreshed(setup, p, old(index)[p], disk)]
      ensures updated == Stale(old(index)[p])
    {
      hide Entries;
      var info := index[p];
      updated := info.fileIndex.None? || info.fileIndex.value.indexEtag != info.etag;
      if updated {
        var outputs := IndexFile(p, info, disk);
        index := index[p := info.(fileIndex := Some(FileIndex(info.etag, outputs)))];
      }
    }

    method UpdateFileIndex(disk: Disk)
      requires setup.cfg.interval > 0
      modifies this`index, this`updatedCount
      ensures index == Updated(setup, disk, old(index))
      ensures updatedCount == |StalePaths(old(index))|
    {
      hide Stale, Refreshed, StalePaths, Updated;
      updatedCount := 0;
      var todo := index.Keys;
      ghost var was := index;
      NoneRefreshed(setup, disk, was);
      while todo != {}
        invariant RefreshedSoFar(setup, disk, was, index, todo)
        invariant updatedCount == |StalePaths(was) - todo|
        decreases |todo|
      {
        hide RefreshedSoFar;
        var p :| p in todo;
        RefreshedOne(setup, disk, was, index, todo, p);
        CountOne(was, todo, p);
        todo := todo - {p};
        var updated := RefreshFile(p, disk);
        if updated {
          updatedCount := updatedCount + 1;
        }
      }
      AllRefreshed(setup, disk, was, index);
    }

    /** Drop the records of deleted files, except those without entries. */
    method RemoveUnusedIndexes(disk: Disk)
      modifies this`index
      ensures index == Pruned(disk, old(index))
      ensures forall p :: p in index && index[p].fileIndex.Some? && index[p].fileIndex.value.entries != [] ==> p in disk
    {
      var todo := index.Keys;
      while todo != {}
        invariant todo <= index.Keys <= old(index).Keys
        invariant forall p :: p in old(index) ==> (p in index <==> p in todo || Kept(p, old(index)[p], disk))
        invariant forall p :: p in index ==> index[p] == old(index)[p]
        decreases |todo|
      {
        var p :| p in todo;
        todo := todo - {p};
        var info := index[p];
        if info.fileIndex.Some? && info.fileIndex.value.entries != [] && p !in disk {
          index := index - {p};
        }
      }
    }

    method SaveIndexToCache()
      modifies this`cache
      ensures cache == if updatedCount == 0 then old(cache) else Some(index)
    {
      if updatedCount == 0 {
        return;
      }
      cache := Some(index);
    }

    method LoadIndexFromCache()
      modifies this`index
      ensures index == Loaded(setup, cache, old(index))
    {
      if cache.None? {
        return;
      }
      var saved := cache.value;
      index := map p | p in saved && p in index && saved[p].root in setup.roots :: saved[p];
    }
  }
}
