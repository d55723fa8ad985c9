/** How large the text index of a log can get. */
module IndexSize {
  import opened LogLines
  import opened TextIndexer
  import opened IndexShape
  import opened ResumeProof
  import opened Buckets

  /** Times never go back, and none is below one interval. */
  ghost predicate Forward(cfg: Config, ls: seq<Line>) {
    && (forall i, j :: 0 <= i < j < |ls| && Stamped(cfg, ls[i]) && Stamped(cfg, ls[j]) ==>
          cfg.stamp(ls[i].text) <= cfg.stamp(ls[j].text))
    && forall i :: 0 <= i < |ls| && Stamped(cfg, ls[i]) ==> cfg.stamp(ls[i].text) >= cfg.interval
  }

  /** How many lines the scan counts as timestamped. */
  function StampedCount(cfg: Config, ls: seq<Line>): nat {
    if ls == [] then 0
    else StampedCount(cfg, ls[..|ls| - 1]) + (if Stamped(cfg, ls[|ls| - 1]) then 1 else 0)
  }

  /** How many entries only the line count forced. */
  function SplitCount(cfg: Config, ls: seq<Line>): nat
    requires cfg.interval > 0
  {
    if ls == [] then 0
    else
      var n := |ls| - 1;
      SplitCount(cfg, ls[..n]) + (if Forced(cfg, Run(cfg, FRESH, ls[..n]), ls[n]) then 1 else 0)
  }

  /** Every entry after the first either moved the bucket on by an interval or used up a whole
      threshold of lines. */
  ghost predicate Budget(cfg: Config, st: ScanState, stamped: nat, splits: nat) {
    st.outputs != [] ==>
      && splits < |st.outputs|
      && (|st.outputs| - 1 - splits) * cfg.interval <= st.bucket - st.outputs[0].timestamp
      && splits * cfg.threshold + st.since <= stamped
  }

  lemma StepBudget(cfg: Config, st: ScanState, l: Line, stamped: nat, splits: nat)
    requires cfg.interval > 0 && Budget(cfg, st, stamped, splits)
    requires st.outputs == [] ==> splits == 0 && st.bucket == 0
    requires st.outputs != [] ==> st.bucket > 0
    requires Stamped(cfg, l) ==> cfg.stamp(l.text) >= cfg.interval && Floor(cfg, cfg.stamp(l.text)) >= st.bucket
    ensures Budget(cfg, Step(cfg, st, l),
      stamped + (if Stamped(cfg, l) then 1 else 0), splits + (if Forced(cfg, st, l) then 1 else 0))
  {
    var b, i, t := Floor(cfg, cfg.stamp(l.text)), cfg.interval, cfg.threshold;
    if Marks(cfg, st, l) && st.outputs != [] {
      var moves := |st.outputs| - 1 - splits;
      if Forced(cfg, st, l) {
        assert (splits + 1) * t == splits * t + t;
      } else {
        assert (moves + 1) * i == moves * i + i;
      }
    }
  }

  /** The newest bucket is the floor of an earlier line's time. */
  lemma BucketIsEarlier(cfg: Config, ls: seq<Line>)
    requires cfg.interval > 0 && ls != [] && Forward(cfg, ls) && Stamped(cfg, ls[|ls| - 1])
    ensures Floor(cfg, cfg.stamp(ls[|ls| - 1].text)) >= Run(cfg, FRESH, ls[..|ls| - 1]).bucket
  {
    hide Floor, Run;
    var n := |ls| - 1;
    var m := MarkedLines(cfg, ls[..n]);
    RegularEntries(cfg, ls[..n]);
    if m != [] {
      var k := m[|m| - 1];
      assert ls[..n][k] == ls[k];
      FloorMonotone(cfg, cfg.stamp(ls[k].text), cfg.stamp(ls[n].text));
    }
  }

  /** The newest bucket of a forward log is not zero once there is an entry. */
  lemma BucketPositive(cfg: Config, ls: seq<Line>)
    requires cfg.interval > 0 && Forward(cfg, ls)
    ensures var st := Run(cfg, FRESH, ls); if st.outputs == [] then st.bucket == 0 else st.bucket > 0
  {
    hide Floor, Run;
    RegularEntries(cfg, ls);
    var m := MarkedLines(cfg, ls);
    if m != [] {
      FloorReaches(cfg, cfg.stamp(ls[m[|m| - 1]].text));
    }
  }

  lemma OutputsKept(cfg: Config, st: ScanState, l: Line)
    requires cfg.interval > 0
    ensures Step(cfg, st, l).outputs == [] ==> st.outputs == [] && !Marks(cfg, st, l)
    ensures Forced(cfg, st, l) ==> Marks(cfg, st, l)
  {
  }

  lemma {:induction false} RunBudget(cfg: Config, ls: seq<Line>)
    requires cfg.interval > 0 && Forward(cfg, ls)
    ensures Budget(cfg, Run(cfg, FRESH, ls), StampedCount(cfg, ls), SplitCount(cfg, ls))
    ensures Run(cfg, FRESH, ls).outputs == [] ==> SplitCount(cfg, ls) == 0
    decreases |ls|
  {
    if ls != [] {
      hide Floor, Step, Budget, Forced;
      var n := |ls| - 1;
      var st := Run(cfg, FRESH, ls[..n]);
      RunBudget(cfg, ls[..n]);
      BucketPositive(cfg, ls[..n]);
      if Stamped(cfg, ls[n]) {
        BucketIsEarlier(cfg, ls);
      }
      StepBudget(cfg, st, ls[n], StampedCount(cfg, ls[..n]), SplitCount(cfg, ls[..n]));
      OutputsKept(cfg, st, ls[n]);
    }
  }

  lemma QuotientBound(j: nat, i: nat, x: int)
    requires i > 0 && j * i <= x
    ensures j <= x / i
  {
    assert j * i >= 0 && i * (x / i) + x % i == x;
    MulOrder(i, x / i + 1, j);
  }

  /** With the times of a log going forward, its index has at most a first and a closing entry, one
      for every interval between the first and the last bucket, and one for every threshold of
      timestamped lines. */
  lemma IndexSizeBound(cfg: Config, d: Bytes)
    requires cfg.interval > 0 && cfg.threshold > 0 && Forward(cfg, LinesFrom(d, 0))
    requires Index(cfg, d) != []
    ensures var ls := LinesFrom(d, 0);
      var first, last := Index(cfg, d)[0].timestamp, Run(cfg, FRESH, ls).bucket;
      |Index(cfg, d)| <= 2 + (last - first) / cfg.interval + StampedCount(cfg, ls) / cfg.threshold
  {
    hide Run, LinesFrom;
    var ls := LinesFrom(d, 0);
    var st, splits := Run(cfg, FRESH, ls), SplitCount(cfg, ls);
    RunBudget(cfg, ls);
    var moves := |st.outputs| - 1 - splits;
    QuotientBound(moves, cfg.interval, st.bucket - st.outputs[0].timestamp);
    QuotientBound(splits, cfg.threshold, StampedCount(cfg, ls));
  }

  /** On every file, regular entries have strictly increasing offsets, and every entry's offset,
      the closing one's included, is the start of a timestamped line. */
  lemma EntriesStartLines(cfg: Config, d: Bytes)
    requires cfg.interval > 0
    ensures var ls, entries := LinesFrom(d, 0), Index(cfg, d);
      var regular := |Run(cfg, FRESH, ls).outputs|;
      && regular <= |entries| <= regular + 1
      && (forall i, j :: 0 <= i < j < regular ==> entries[i].offset < entries[j].offset)
      && (forall i :: 0 <= i < |entries| ==>
            exists k :: 0 <= k < |ls| && Stamped(cfg, ls[k]) && ls[k].offset == entries[i].offset)
  {
    var ls, entries := LinesFrom(d, 0), Index(cfg, d);
    var st, m := Run(cfg, FRESH, ls), MarkedLines(cfg, ls);
    RegularEntries(cfg, ls);
    LinesOrdered(d, 0);
    if entries != st.outputs {
      LastSeen(cfg, ls);
    }
    forall i | 0 <= i < |entries|
      ensures exists k :: 0 <= k < |ls| && Stamped(cfg, ls[k]) && ls[k].offset == entries[i].offset
    {
      var k := if i < |m| then m[i] else LastKept(ls);
      assert 0 <= k < |ls| && Stamped(cfg, ls[k]) && ls[k].offset == entries[i].offset;
    }
  }
}
