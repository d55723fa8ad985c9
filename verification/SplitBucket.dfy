/** Two concrete logs on which the index falls short: a query that starts inside a bucket split by
    the line count, and a resumed scan over times below one interval. */
module SplitBucket {
  import opened LogLines
  import opened TextIndexer
  import opened Records
  import opened LogSearch
  import opened IndexedScan
  import ResumeProof

  /** Three one-letter lines with the times 11, 15 and 18. */
  const SPLIT_LOG: Bytes := [97, 10, 98, 10, 99, 10]

  const A: Line := Line(0, [97])
  const B: Line := Line(2, [98])
  const C: Line := Line(4, [99])

  function SplitStamp(l: Bytes): nat {
    if l == [97] then 11 else if l == [98] then 15 else if l == [99] then 18 else 0
  }

  /** An interval of 10, and an entry forced by every single line. */
  const SPLIT: Config := Config(SplitStamp, 10, 1)

  lemma SplitLines()
    ensures LinesFrom(SPLIT_LOG, 0) == [A, B, C]
    ensures WindowTexts(SPLIT_LOG, 4, 4) == [[99]]
  {
    var d := SPLIT_LOG;
    NextNewlineIs(d, 0, 1);
    NextNewlineIs(d, 2, 3);
    NextNewlineIs(d, 4, 5);
    NextNewlineIs(d, 6, 6);
    FirstLine(d, 0);
    FirstLine(d, 2);
    FirstLine(d, 4);
    FirstLine(d, 6);
    assert d[0..1] == [97] && d[2..3] == [98] && d[4..5] == [99];
    WindowNext(d, 4, 4);
  }

  lemma SplitIndex()
    ensures Index(SPLIT, SPLIT_LOG) == [TimeIndex(10, 0), TimeIndex(10, 2), TimeIndex(10, 4), TimeIndex(18, 4)]
  {
    SplitLines();
    RunFirst(SPLIT, FRESH, A, [B, C]);
    assert [A] + [B, C] == [A, B, C];
    var st1 := Step(SPLIT, FRESH, A);
    assert st1 == ScanState([TimeIndex(10, 0)], 10, 1, 0, A, false);
    RunFirst(SPLIT, st1, B, [C]);
    var st2 := Step(SPLIT, st1, B);
    assert st2 == ScanState([TimeIndex(10, 0), TimeIndex(10, 2)], 10, 1, 0, B, false);
    RunFirst(SPLIT, st2, C, []);
    assert [C] + [] == [C];
  }

  lemma SplitRecords()
    ensures Texts([A, B, C]) == [[97], [98], [99]]
    ensures Grouped(SPLIT, Texts([A, B, C])) == [Record(11, [97]), Record(15, [98]), Record(18, [99])]
  {
    var ts: seq<Bytes> := [[97], [98], [99]];
    assert Texts([A, B, C]) == ts;
    assert ts[1..] == [[98], [99]] && [[98], [99]][1..] == [[99]] && [[99]][1..] == [];
    assert Grouped(SPLIT, [[99]]) == [Record(18, [99])];
    assert Grouped(SPLIT, [[98], [99]]) == [Record(15, [98])] + Grouped(SPLIT, [[99]]);
    assert Grouped(SPLIT, ts) == [Record(11, [97])] + Grouped(SPLIT, [[98], [99]]);
  }

  lemma SplitRegular()
    ensures Regular(SPLIT, SPLIT_LOG)
  {
    SplitLines();
    SplitRecords();
    assert Continuations(SPLIT, Texts([A, B, C])) == 0;
  }

  lemma SplitWindowIsEmpty()
    ensures WindowRecords(SPLIT, SPLIT_LOG, 4, 4, 14, 16) == []
  {
    SplitLines();
    assert ParseStep(SPLIT, 14, 16, IDLE, [99]) == IDLE;
    assert [[99]][1..] == [];
    assert Assemble(SPLIT, 14, 16, IDLE, [[99]]) == Assemble(SPLIT, 14, 16, IDLE, []);
  }

  lemma SplitRecordInRange()
    ensures AllRecords(SPLIT, SPLIT_LOG, 14, 16) == [Record(15, [98])]
  {
    SplitLines();
    SplitRecords();
    var w := Within(14, 16);
    var a, b, c := Record(11, [97]), Record(15, [98]), Record(18, [99]);
    FilterFirst(w, a, [b, c]);
    FilterFirst(w, b, [c]);
    FilterFirst(w, c, []);
    assert [a] + [b, c] == [a, b, c] && [b] + [c] == [b, c] && [c] + [] == [c];
  }

  /** The log is as regular as can be, yet the query from 14 to 16 starts at the third entry and
      misses the record of time 15: its bucket was split, and entries keep the floored time. */
  lemma SplitBucketHidesRecord()
    ensures Regular(SPLIT, SPLIT_LOG)
    ensures IsWindow(Index(SPLIT, SPLIT_LOG), 14, 16, 2, 3) && !StartsClean(SPLIT, Index(SPLIT, SPLIT_LOG), 14, 2)
    ensures Index(SPLIT, SPLIT_LOG)[2].offset == Index(SPLIT, SPLIT_LOG)[3].offset == 4
    ensures AllRecords(SPLIT, SPLIT_LOG, 14, 16) == [Record(15, [98])]
    ensures WindowRecords(SPLIT, SPLIT_LOG, 4, 4, 14, 16) == []
  {
    hide Index, Regular, AllRecords, WindowRecords, Run, LinesFrom, Grouped;
    SplitIndex();
    SplitRegular();
    SplitRecordInRange();
    SplitWindowIsEmpty();
  }

  /** A log of one line with time 5, below an interval of 300. */
  const EARLY_LOG: Bytes := [97, 10]

  const EARLY: Config := Config((l: Bytes) => if l == [97] then 5 else 0, 300, 50000)

  /** Resuming the index of an unchanged log can differ from rebuilding it. */
  lemma EarlyLogResumesWrong()
    ensures ResumeProof.RepeatsZero(Index(EARLY, EARLY_LOG))
    ensures IndexFrom(EARLY, EARLY_LOG, Some(Index(EARLY, EARLY_LOG))) != Index(EARLY, EARLY_LOG)
  {
    var d := EARLY_LOG;
    NextNewlineIs(d, 0, 1);
    NextNewlineIs(d, 2, 2);
    FirstLine(d, 0);
    FirstLine(d, 2);
    assert d[0..1] == [97];
    assert LinesFrom(d, 0) == [A];
    RunFirst(EARLY, FRESH, A, []);
    assert [A] + [] == [A];
    assert Index(EARLY, d) == [TimeIndex(0, 0), TimeIndex(5, 0)];
    ResumeProof.ShortLogsNeverForced(EARLY, LinesFrom(d, 0));
    ResumeProof.ResumeEqualsRebuild(EARLY, d, d);
  }
}
