/** The index of a decompressed stream against the index of the same bytes as a text file. */
module StreamVsText {
  import opened LogLines
  import opened TextIndexer
  import opened GzipIndexer

  ghost predicate AllShort(ls: seq<Line>) {
    forall l :: l in ls ==> |l.text| <= MAX_LINE_SIZE
  }

  /** Both scans have the same entries and remember the same newest timestamped line; the text scan
      counts a line before the threshold test and the stream scan after it. */
  ghost predicate Agree(cfg: Config, x: ScanState, y: ChunkState) {
    && !x.stopped && x.outputs == y.outputs && x.bucket == y.bucket && x.skipped == y.skipped
    && (x.outputs != [] ==> x.since == y.since + 1 && cfg.stamp(y.last.text) != 0)
    && (x.outputs == [] ==> x.bucket == 0)
    && (cfg.stamp(x.last.text) != 0 ==> x.last == y.last && x.outputs != [])
  }

  lemma StepAgrees(cfg: Config, x: ScanState, y: ChunkState, l: Line)
    requires cfg.interval > 0 && cfg.stamp([]) == 0 && |l.text| <= MAX_LINE_SIZE && Agree(cfg, x, y)
    ensures !Step(cfg, x, l).stopped ==> Agree(cfg, Step(cfg, x, l), TakeLine(cfg, y, l))
    ensures Step(cfg, x, l).stopped <==> cfg.stamp(l.text) == 0 && x.outputs == [] && x.skipped >= MAX_SKIPPED
    ensures !Step(cfg, x, l).stopped ==> Step(cfg, x, l).last == l
  {
  }

  lemma FreshAgrees(cfg: Config)
    requires cfg.stamp([]) == 0
    ensures Agree(cfg, FRESH, START)
  {
  }

  lemma OneLine(cfg: Config, st: ChunkState, l: Line)
    requires cfg.interval > 0
    ensures TakeLines(cfg, st, [l]) == TakeLine(cfg, st, l)
    ensures Leading(cfg, [l]) == if cfg.stamp(l.text) == 0 then 1 else 0
  {
  }

  lemma AgreeMeans(cfg: Config, x: ScanState, y: ChunkState)
    requires Agree(cfg, x, y)
    ensures !x.stopped && x.outputs == y.outputs && x.skipped == y.skipped
  {
  }

  lemma StepStops(cfg: Config, x: ScanState, l: Line)
    requires cfg.interval > 0
    ensures x.stopped ==> Step(cfg, x, l) == x
    ensures !x.stopped && Step(cfg, x, l).stopped ==> Step(cfg, x, l).outputs == x.outputs
  {
  }

  lemma {:induction false} RunsAgree(cfg: Config, ls: seq<Line>)
    requires cfg.interval > 0 && cfg.stamp([]) == 0 && AllShort(ls)
    ensures var x, y := Run(cfg, FRESH, ls), TakeLines(cfg, START, ls);
      if Leading(cfg, ls) > MAX_SKIPPED then x.stopped && x.outputs == []
      else Agree(cfg, x, y) && (ls != [] ==> x.last == ls[|ls| - 1])
    decreases |ls|
  {
    hide Agree, Step, TakeLine;
    if ls == [] {
      assert Agree(cfg, FRESH, START) by { FreshAgrees(cfg); }
    } else {
      var n := |ls| - 1;
      var l, before := ls[n], ls[..n];
      assert ls == before + [l];
      RunsAgree(cfg, before);
      LeadingAppend(cfg, before, [l]);
      TakeLinesAppend(cfg, START, before, [l]);
      OneLine(cfg, TakeLines(cfg, START, before), l);
      if Leading(cfg, before) <= MAX_SKIPPED {
        EntriesIffTimes(cfg, START, before);
        AgreeMeans(cfg, Run(cfg, FRESH, before), TakeLines(cfg, START, before));
        StepAgrees(cfg, Run(cfg, FRESH, before), TakeLines(cfg, START, before), l);
        StepStops(cfg, Run(cfg, FRESH, before), l);
      } else {
        StepStops(cfg, Run(cfg, FRESH, before), l);
      }
    }
  }

  lemma NothingScanned(cfg: Config)
    requires cfg.interval > 0
    ensures Run(cfg, FRESH, []) == FRESH && TakeLines(cfg, START, []) == START && Leading(cfg, []) == 0
  {
  }

  /** On lines of at most 16 KiB, both indexes have the same regular entries; and the whole indexes
      are equal if and only if there are no entries or the last complete line has a time. */
  lemma StreamIndexEqualsTextIndex(cfg: Config, d: Bytes)
    requires cfg.interval > 0 && cfg.stamp([]) == 0 && AllShort(LinesFrom(d, 0))
    ensures var ls := LinesFrom(d, 0);
      && (Leading(cfg, ls) <= MAX_SKIPPED ==> Run(cfg, FRESH, ls).outputs == TakeLines(cfg, START, ls).outputs)
      && (StreamIndex(cfg, d) == Index(cfg, d) <==>
          Index(cfg, d) == [] || (ls != [] && cfg.stamp(ls[|ls| - 1].text) != 0))
  {
    hide LinesFrom, Run, TakeLines, Leading;
    var ls := LinesFrom(d, 0);
    RunsAgree(cfg, ls);
    if ls == [] {
      NothingScanned(cfg);
    }
  }
}
