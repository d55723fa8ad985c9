/** A concrete run: a log grows while the agent is down, and the first pass after the restart
    serves the old index. */
module RestartWitness {
  import opened LogLines
  import opened TextIndexer
  import opened ScanSteps
  import opened ScanRuns
  import ResumeProof

  const PATH: Path := "a"
  const OLD: Bytes := [97, 10]
  const NEW: Bytes := [97, 10, 97, 10]

  /** Every line `a` has time 600; an etag that tells sizes apart; every file is eligible. */
  const SETUP: Setup := Setup(
    Config((l: Bytes) => if l == [97] then 600 else 0, 300, 50000),
    (size: nat, mtime: nat) => seq(size, i => 0),
    {"r"},
    (p: Path) => true,
    (p: Path) => "r",
    (b: Bytes) => [])

  const BEFORE: Disk := map[PATH := File(1, 1, OLD)]
  const AFTER: Disk := map[PATH := File(1, 2, NEW)]

  lemma Logs()
    ensures LinesFrom(OLD, 0) == [Line(0, [97])]
    ensures LinesFrom(NEW, 0) == [Line(0, [97]), Line(2, [97])]
  {
    NextNewlineIs(OLD, 0, 1);
    NextNewlineIs(OLD, 2, 2);
    FirstLine(OLD, 0);
    FirstLine(OLD, 2);
    NextNewlineIs(NEW, 0, 1);
    NextNewlineIs(NEW, 2, 3);
    NextNewlineIs(NEW, 4, 4);
    FirstLine(NEW, 0);
    FirstLine(NEW, 2);
    FirstLine(NEW, 4);
    assert OLD[0..1] == NEW[0..1] == NEW[2..3] == [97];
  }

  const A: Line := Line(0, [97])
  const B: Line := Line(2, [97])
  const ONE: ScanState := ScanState([TimeIndex(600, 0)], 600, 1, 0, A, false)
  const OLD_ENTRIES: seq<TimeIndex> := [TimeIndex(600, 0), TimeIndex(600, 0)]
  const NEW_ENTRIES: seq<TimeIndex> := [TimeIndex(600, 0), TimeIndex(600, 2)]

  lemma Steps()
    ensures Step(SETUP.cfg, FRESH, A) == ONE
    ensures Step(SETUP.cfg, ONE, B) == ScanState([TimeIndex(600, 0)], 600, 2, 0, B, false)
  {
  }

  lemma Runs()
    ensures Run(SETUP.cfg, FRESH, [A]) == ONE
    ensures Run(SETUP.cfg, FRESH, [A, B]) == ScanState([TimeIndex(600, 0)], 600, 2, 0, B, false)
  {
    hide Step;
    Steps();
    RunFirst(SETUP.cfg, FRESH, A, []);
    RunFirst(SETUP.cfg, FRESH, A, [B]);
    RunFirst(SETUP.cfg, ONE, B, []);
    assert [A] + [] == [A] && [A] + [B] == [A, B] && [B] + [] == [B];
  }

  lemma Indexes()
    ensures TextIndexer.Index(SETUP.cfg, OLD) == OLD_ENTRIES
    ensures TextIndexer.Index(SETUP.cfg, NEW) == NEW_ENTRIES
  {
    hide Run, LinesFrom;
    Logs();
    Runs();
  }

  // ----- The states of the run

  const TAG: Tag := [0, 0]
  const SCANNED: FileInfo := FileInfo(2, 1, 1, TAG, false, "r", None)
  const INDEXED: FileInfo := FileInfo(2, 1, 1, TAG, false, "r", Some(FileIndex(TAG, OLD_ENTRIES)))
  const SEEN: set<Stamp> := {Stamp(PATH, 1, 2, 1)}

  const S1: Sys := Sys(BEFORE, map[], 0, None, SEEN)
  const S2: Sys := Sys(BEFORE, map[PATH := SCANNED], 0, None, SEEN)
  const S3: Sys := Sys(BEFORE, map[PATH := INDEXED], 1, None, SEEN)
  const S4: Sys := Sys(BEFORE, map[PATH := INDEXED], 1, Some(map[PATH := INDEXED]), SEEN)
  const S5: Sys := Sys(AFTER, map[PATH := INDEXED], 1, Some(map[PATH := INDEXED]), SEEN + {Stamp(PATH, 1, 4, 2)})
  const S6: Sys := Sys(AFTER, map[], 0, Some(map[PATH := INDEXED]), SEEN + {Stamp(PATH, 1, 4, 2)})

  /** Start; a log appears, is scanned, indexed and saved; it grows; the process restarts. */
  const HISTORY: seq<Sys> := [EMPTY, S1, S2, S3, S4, S5, S6]

  lemma DiskChanges()
    ensures S1 == Changed(EMPTY, BEFORE) && S5 == Changed(S4, AFTER)
  {
    assert StampsOf(BEFORE) == SEEN;
    assert StampsOf(AFTER) == {Stamp(PATH, 1, 4, 2)};
  }

  lemma LogIsScanned()
    ensures S2 == Scan(SETUP, S1)
  {
    assert Found(SETUP, BEFORE) == {PATH};
    assert SETUP.etag(2, 1) == TAG;
  }

  lemma LogIsIndexed()
    ensures S3 == Update(SETUP, S2)
  {
    hide TextIndexer.Index, IndexFrom;
    Indexes();
    FromNothing(SETUP.cfg, OLD);
    assert Refreshed(SETUP, PATH, SCANNED, BEFORE) == INDEXED;
    assert StalePaths(S2.index) == {PATH};
  }

  lemma NeverForcedHere()
    ensures Sound(SETUP) && Unforced(SETUP, PATH, OLD) && Unforced(SETUP, PATH, NEW)
  {
    hide LinesFrom, ResumeProof.NeverForced;
    Logs();
    ResumeProof.ShortLogsNeverForced(SETUP.cfg, [A]);
    ResumeProof.ShortLogsNeverForced(SETUP.cfg, [A, B]);
  }

  lemma ChangesAllowed()
    ensures Allowed(SETUP, EMPTY, BEFORE) && Allowed(SETUP, S4, AFTER)
  {
    hide Unforced;
    NeverForcedHere();
    assert |SETUP.etag(2, 1)| == 2 && |SETUP.etag(4, 2)| == 4;
    assert OLD <= NEW;
    assert Continues(SETUP, S4, PATH, AFTER[PATH]);
  }

  lemma HistorySteps()
    ensures Next(SETUP, EMPTY, S1) && Next(SETUP, S1, S2) && Next(SETUP, S2, S3) && Next(SETUP, S3, S4)
    ensures Next(SETUP, S4, S5) && Next(SETUP, S5, S6)
  {
    hide Scan, Update, Changed, Allowed;
    ChangesAllowed();
    DiskChanges();
    LogIsScanned();
    LogIsIndexed();
    assert S4 == Save(S3);
    assert S6 == Restart(S5);
  }

  lemma HistoryIsRun()
    ensures Sound(SETUP) && IsRun(SETUP, HISTORY)
  {
    NeverForcedHere();
    HistorySteps();
    hide Next, Sound, Unforced;
  }

  lemma OldIndexIsServed()
    ensures var s := FirstPass(SETUP, S6); PATH in s.index && s.index[PATH] == INDEXED
  {
    hide FirstPass;
    assert !Stale(INDEXED);
    FirstPassServesCache(SETUP, S6, PATH);
  }

  lemma ExactIndexes()
    ensures Exact(SETUP, PATH, OLD) == OLD_ENTRIES && Exact(SETUP, PATH, NEW) == NEW_ENTRIES != OLD_ENTRIES
  {
    hide TextIndexer.Index;
    Indexes();
  }

  /** After the restart the first pass, on a quiet disk, leaves the old entries in place. */
  lemma RestartServesOldIndex()
    ensures Sound(SETUP) && IsRun(SETUP, HISTORY)
    ensures var s := FirstPass(SETUP, S6);
      && PATH in s.index && s.index[PATH].fileIndex.Some?
      && s.index[PATH].fileIndex.value.entries == Exact(SETUP, PATH, OLD) != Exact(SETUP, PATH, AFTER[PATH].bytes)
  {
    hide FirstPass, IsRun, Sound, Exact;
    HistoryIsRun();
    OldIndexIsServed();
    ExactIndexes();
  }
}
