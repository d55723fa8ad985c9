/** Resuming a text index on a grown file against rebuilding it from scratch. */
module ResumeProof {
  import opened LogLines
  import opened TextIndexer
  import opened IndexShape

  /** An entry that only the line count forces, inside a bucket that already has one. */
  predicate Forced(cfg: Config, st: ScanState, l: Line)
    requires cfg.interval > 0
  {
    Marks(cfg, st, l) && st.bucket != 0 && Floor(cfg, cfg.stamp(l.text)) < st.bucket + cfg.interval
  }

  /** The count threshold never forces an entry while scanning on from `st`. */
  ghost predicate NeverForced(cfg: Config, st: ScanState, ls: seq<Line>)
    requires cfg.interval > 0
  {
    forall k :: 0 <= k < |ls| ==> !Forced(cfg, Run(cfg, st, ls[..k]), ls[k])
  }

  lemma NotForcedAt(cfg: Config, ls: seq<Line>, k: nat)
    requires cfg.interval > 0 && k < |ls| && NeverForced(cfg, FRESH, ls)
    ensures !Forced(cfg, Run(cfg, FRESH, ls[..k]), ls[k])
  {
    hide Run, Forced;
  }

  /** The index ends in a zero-time regular entry and a closing entry for the same line. */
  predicate RepeatsZero(entries: seq<TimeIndex>) {
    var n := |entries|;
    n > 1 && entries[n - 2].timestamp == 0 && entries[n - 2].offset == entries[n - 1].offset
  }

  /** Same entries, bucket and last line; only the counters may be behind. */
  ghost predicate InStep(x: ScanState, y: ScanState) {
    x.outputs != [] && !x.stopped && y == x.(since := y.since, skipped := y.skipped) && y.since <= x.since
  }

  lemma InStepOnce(cfg: Config, x: ScanState, y: ScanState, l: Line)
    requires cfg.interval > 0 && InStep(x, y) && !Forced(cfg, x, l)
    ensures InStep(Step(cfg, x, l), Step(cfg, y, l))
  {
  }

  lemma {:induction false} InStepRun(cfg: Config, x: ScanState, y: ScanState, ls: seq<Line>)
    requires cfg.interval > 0 && InStep(x, y) && NeverForced(cfg, x, ls)
    ensures InStep(Run(cfg, x, ls), Run(cfg, y, ls))
    decreases |ls|
  {
    hide Step, Forced, InStep;
    if ls != [] {
      var n := |ls| - 1;
      forall k | 0 <= k < n ensures !Forced(cfg, Run(cfg, x, ls[..n][..k]), ls[..n][k]) {
        assert ls[..n][..k] == ls[..k];
      }
      InStepRun(cfg, x, y, ls[..n]);
      assert !Forced(cfg, Run(cfg, x, ls[..n]), ls[n]);
      InStepOnce(cfg, Run(cfg, x, ls[..n]), Run(cfg, y, ls[..n]), ls[n]);
    }
  }

  lemma {:induction false} SinceBound(cfg: Config, ls: seq<Line>)
    requires cfg.interval > 0
    ensures Run(cfg, FRESH, ls).since <= |ls|
    decreases |ls|
  {
    if ls != [] {
      SinceBound(cfg, ls[..|ls| - 1]);
    }
  }

  /** The threshold cannot be reached by a log with no more lines than it. */
  lemma {:induction false} ShortLogsNeverForced(cfg: Config, ls: seq<Line>)
    requires cfg.interval > 0 && |ls| <= cfg.threshold
    ensures NeverForced(cfg, FRESH, ls)
  {
    forall k | 0 <= k < |ls| ensures !Forced(cfg, Run(cfg, FRESH, ls[..k]), ls[k]) {
      SinceBound(cfg, ls[..k]);
    }
  }

  lemma NeverForcedTail(cfg: Config, st: ScanState, ls: seq<Line>, i: nat)
    requires cfg.interval > 0 && i <= |ls| && NeverForced(cfg, st, ls)
    ensures NeverForced(cfg, Run(cfg, st, ls[..i]), ls[i..])
  {
    hide Run, Step, Forced;
    forall k | 0 <= k < |ls| - i
      ensures !Forced(cfg, Run(cfg, Run(cfg, st, ls[..i]), ls[i..][..k]), ls[i..][k])
    {
      RunAppend(cfg, st, ls[..i], ls[i..][..k]);
      assert ls[..i] + ls[i..][..k] == ls[..i + k];
      assert !Forced(cfg, Run(cfg, st, ls[..i + k]), ls[i + k]);
    }
  }

  /** The line the resumed scan starts at: the last line kept when the closing entry is
      there, otherwise the line of the last regular entry. */
  ghost function ResumeLine(cfg: Config, ls: seq<Line>): int
    requires cfg.interval > 0
  {
    var st, m := Run(cfg, FRESH, ls), MarkedLines(cfg, ls);
    if Close(cfg, st) != st.outputs then LastKept(ls) else if m == [] then -1 else m[|m| - 1]
  }

  /** The resumed scan starts at that line with every entry before the last. */
  lemma ResumePoint(cfg: Config, ls: seq<Line>)
    requires cfg.interval > 0
    requires |Close(cfg, Run(cfg, FRESH, ls))| > 1
    ensures var st, k := Run(cfg, FRESH, ls), ResumeLine(cfg, ls);
            var entries := Close(cfg, st);
            && 0 <= k < |ls| && Stamped(cfg, ls[k]) && !Run(cfg, FRESH, ls[..k]).stopped
            && entries[|entries| - 1].offset == ls[k].offset
            && (if entries != st.outputs
                then entries[..|entries| - 1] == st.outputs == Run(cfg, FRESH, ls[..k + 1]).outputs
                else entries[..|entries| - 1] == Run(cfg, FRESH, ls[..k]).outputs
                     && Marks(cfg, Run(cfg, FRESH, ls[..k]), ls[k]))
  {
    var st, m := Run(cfg, FRESH, ls), MarkedLines(cfg, ls);
    RegularEntries(cfg, ls);
    LastSeen(cfg, ls);
    if Close(cfg, st) == st.outputs {
      OutputsBefore(cfg, ls, |m| - 1);
      MarkedPrefix(cfg, ls, |m| - 1);
    } else {
      var k := LastKept(ls);
      assert ls[..k + 1][..k] == ls[..k];
    }
  }

  /** Resuming at a line whose own entry was dropped repeats the rebuild's step. */
  lemma StepAgain(cfg: Config, x: ScanState, y: ScanState, l: Line)
    requires cfg.interval > 0 && cfg.threshold > 0
    requires Marks(cfg, x, l) && !Forced(cfg, x, l) && x.outputs != []
    requires y == FRESH.(outputs := x.outputs, bucket := x.bucket)
    ensures InStep(Step(cfg, x, l), Step(cfg, y, l))
  {
  }

  /** Resuming at a line whose own entry, if any, was kept adds nothing, except that a zero
      bucket makes the line mark itself once more. */
  lemma StepOver(cfg: Config, x: ScanState, y: ScanState, l: Line)
    requires cfg.interval > 0 && cfg.threshold > 0
    requires Stamped(cfg, l) && !x.stopped && !Forced(cfg, x, l)
    requires Step(cfg, x, l).outputs != []
    requires y == FRESH.(outputs := Step(cfg, x, l).outputs, bucket := Step(cfg, x, l).bucket)
    ensures var x', y' := Step(cfg, x, l), Step(cfg, y, l);
            if x'.bucket == 0 then y'.outputs == x'.outputs + [TimeIndex(0, l.offset)] && Marks(cfg, x, l)
            else InStep(x', y')
  {
  }

  /** Without a closing entry the last two offsets differ. */
  lemma NoRepeat(cfg: Config, ls: seq<Line>)
    requires cfg.interval > 0 && Ordered(ls)
    requires Close(cfg, Run(cfg, FRESH, ls)) == Run(cfg, FRESH, ls).outputs
    ensures !RepeatsZero(Close(cfg, Run(cfg, FRESH, ls)))
  {
    RegularEntries(cfg, ls);
    var m := MarkedLines(cfg, ls);
    if |m| > 1 {
      assert ls[m[|m| - 2]].offset < ls[m[|m| - 1]].offset;
    }
  }

  /** With a closing entry, the scan's outputs and bucket are those right after the closing line,
      and the index repeats a zero exactly when that bucket is zero. */
  lemma ClosingStep(cfg: Config, ls: seq<Line>)
    requires cfg.interval > 0
    requires |Close(cfg, Run(cfg, FRESH, ls))| > 1
    requires Close(cfg, Run(cfg, FRESH, ls)) != Run(cfg, FRESH, ls).outputs
    ensures var st, k := Run(cfg, FRESH, ls), ResumeLine(cfg, ls);
            && 0 <= k < |ls|
            && var x' := Step(cfg, Run(cfg, FRESH, ls[..k]), ls[k]);
               && x'.outputs == st.outputs && x'.bucket == st.bucket == st.outputs[|st.outputs| - 1].timestamp
               && (RepeatsZero(Close(cfg, st)) <==> x'.bucket == 0)
  {
    var k := LastKept(ls);
    RegularEntries(cfg, ls);
    LastSeen(cfg, ls);
    assert ls[..k + 1][..k] == ls[..k];
    ResumePoint(cfg, ls);
  }

  /** Whatever the resumed scan does at its first line, it is then in step with the rebuild,
      unless the zero bucket makes it repeat that line's entry. */
  lemma FirstStep(cfg: Config, ls: seq<Line>, y: ScanState)
    requires cfg.interval > 0 && cfg.threshold > 0 && Ordered(ls)
    requires |Close(cfg, Run(cfg, FRESH, ls))| > 1
    requires var entries := Close(cfg, Run(cfg, FRESH, ls));
             var n := |entries| - 1;
             y == FRESH.(outputs := entries[..n], bucket := entries[n - 1].timestamp)
    requires var k := ResumeLine(cfg, ls); 0 <= k < |ls| ==> !Forced(cfg, Run(cfg, FRESH, ls[..k]), ls[k])
    ensures var k := ResumeLine(cfg, ls);
            && 0 <= k < |ls|
            && var x', y' := Step(cfg, Run(cfg, FRESH, ls[..k]), ls[k]), Step(cfg, y, ls[k]);
               if RepeatsZero(Close(cfg, Run(cfg, FRESH, ls)))
               then !x'.stopped && y'.outputs == x'.outputs + [TimeIndex(0, ls[k].offset)]
               else InStep(x', y')
  {
    var k := ResumeLine(cfg, ls);
    var st := Run(cfg, FRESH, ls);
    ResumePoint(cfg, ls);
    var x := Run(cfg, FRESH, ls[..k]);
    RegularEntries(cfg, ls[..k]);
    if Close(cfg, st) == st.outputs {
      StepAgain(cfg, x, y, ls[k]);
      NoRepeat(cfg, ls);
    } else {
      ClosingStep(cfg, ls);
      StepOver(cfg, x, y, ls[k]);
    }
  }

  /** Scanning only adds entries, and only at offsets of the lines scanned. */
  lemma {:induction false} RunGrows(cfg: Config, st: ScanState, ls: seq<Line>, o: nat)
    requires cfg.interval > 0
    requires forall i :: 0 <= i < |ls| ==> ls[i].offset != o
    ensures var r := Run(cfg, st, ls).outputs;
            st.outputs <= r && forall i :: |st.outputs| <= i < |r| ==> r[i].offset != o
    decreases |ls|
  {
    if ls != [] {
      RunGrows(cfg, st, ls[..|ls| - 1], o);
    }
  }

  /** Scanning on from states in step closes with the same index. */
  lemma InStepClose(cfg: Config, x: ScanState, y: ScanState, ls: seq<Line>)
    requires cfg.interval > 0 && InStep(x, y) && NeverForced(cfg, x, ls)
    ensures Close(cfg, Run(cfg, x, ls)) == Close(cfg, Run(cfg, y, ls))
  {
    InStepRun(cfg, x, y, ls);
  }

  /** A repeated entry is never mended by what follows. */
  lemma RepeatStays(cfg: Config, x: ScanState, y: ScanState, ls: seq<Line>, o: nat)
    requires cfg.interval > 0 && y.outputs == x.outputs + [TimeIndex(0, o)]
    requires forall i :: 0 <= i < |ls| ==> ls[i].offset != o
    ensures Close(cfg, Run(cfg, x, ls)) != Close(cfg, Run(cfg, y, ls))
  {
    RunGrows(cfg, x, ls, o);
    RunGrows(cfg, y, ls, o);
    var n := |x.outputs|;
    assert Close(cfg, Run(cfg, y, ls))[n] == TimeIndex(0, o);
    if n < |Close(cfg, Run(cfg, x, ls))| {
      assert Close(cfg, Run(cfg, x, ls))[n] != TimeIndex(0, o);
    }
  }

  /** The run over `ls` is the run over its first k + 1 lines followed by the rest. */
  lemma RunSplit(cfg: Config, st: ScanState, ls: seq<Line>, k: nat)
    requires cfg.interval > 0 && k < |ls|
    ensures Run(cfg, st, ls) == Run(cfg, Step(cfg, Run(cfg, st, ls[..k]), ls[k]), ls[k + 1..])
    ensures Run(cfg, st, ls[..k + 1]) == Step(cfg, Run(cfg, st, ls[..k]), ls[k])
  {
    RunAppend(cfg, st, ls[..k + 1], ls[k + 1..]);
    assert ls == ls[..k + 1] + ls[k + 1..];
    assert ls[..k + 1][..k] == ls[..k];
  }

  /** The theorem below at the level of lines: `y` is the resumed scan's initial state. */
  lemma ResumeOverLines(cfg: Config, before: seq<Line>, after: seq<Line>, y: ScanState)
    requires cfg.interval > 0 && cfg.threshold > 0 && before <= after && Ordered(after)
    requires |Close(cfg, Run(cfg, FRESH, before))| > 1
    requires var entries := Close(cfg, Run(cfg, FRESH, before));
             var n := |entries| - 1;
             y == FRESH.(outputs := entries[..n], bucket := entries[n - 1].timestamp)
    requires NeverForced(cfg, FRESH, after)
    ensures var k := ResumeLine(cfg, before);
            && 0 <= k < |before|
            && (Close(cfg, Run(cfg, y, after[k..])) == Close(cfg, Run(cfg, FRESH, after)) <==>
                !RepeatsZero(Close(cfg, Run(cfg, FRESH, before))))
  {
    hide Run, Step;
    var k := ResumeLine(cfg, before);
    ResumePoint(cfg, before);
    assert before[..k] == after[..k] && before[k] == after[k];
    assert !Forced(cfg, Run(cfg, FRESH, after[..k]), after[k]);
    FirstStep(cfg, before, y);
    RunSplit(cfg, FRESH, after, k);
    RunFirst(cfg, y, after[k], after[k + 1..]);
    assert after[k..] == [after[k]] + after[k + 1..];
    var x', y', rest := Step(cfg, Run(cfg, FRESH, after[..k]), after[k]), Step(cfg, y, after[k]), after[k + 1..];
    if RepeatsZero(Close(cfg, Run(cfg, FRESH, before))) {
      RepeatStays(cfg, x', y', rest, after[k].offset);
    } else {
      NeverForcedTail(cfg, FRESH, after, k + 1);
      InStepClose(cfg, x', y', rest);
    }
  }

  /** For every file and every grown version of it, even when the old one ended inside a line:
      as long as the count threshold forces no entry, resuming from the old index gives the
      index of the whole new file if and only if the old index does not repeat a zero. */
  lemma ResumeEqualsRebuild(cfg: Config, d: Bytes, d': Bytes)
    requires cfg.interval > 0 && cfg.threshold > 0 && d <= d'
    requires NeverForced(cfg, FRESH, LinesFrom(d', 0))
    ensures IndexFrom(cfg, d', Some(Index(cfg, d))) == Index(cfg, d') <==> !RepeatsZero(Index(cfg, d))
  {
    hide Run, Close, LinesFrom, NeverForced, ResumeLine;
    var before, after := LinesFrom(d, 0), LinesFrom(d', 0);
    var entries := Index(cfg, d);
    if |entries| > 1 {
      LinesOrdered(d, 0);
      LinesOrdered(d', 0);
      LinesOfPrefix(d, d');
      ResumePoint(cfg, before);
      var k := ResumeLine(cfg, before);
      assert before[k] == after[k];
      LinesFromLine(d', 0, k);
      ResumeOverLines(cfg, before, after, StartState(d', Some(entries)));
    }
  }
}
