/** The sparse time index of a plain text log (`FileIndexer::update_file_index_txt_mmap`).

    The indexer keeps one (time bucket, byte offset) entry per interval or per
    `threshold` timestamped lines, then a closing entry for the last line. */
module TextIndexer {
  import opened LogLines

  /** Timestamp recognition stays abstract: `stamp` maps a line to its time, 0 meaning none. */
  datatype Config = Config(stamp: Bytes -> nat, interval: nat, threshold: nat)

  datatype TimeIndex = TimeIndex(timestamp: nat, offset: nat)

  datatype Option<T> = None | Some(value: T)

  const MAX_LINE_SIZE: nat := 16 * 1024
  const MAX_SKIPPED: nat := 5000

  /** The variables of the scanning loop; `last` starts as the empty line and `stopped`
      records that the loop gave up on a file without timestamps. */
  datatype ScanState = ScanState(
    outputs: seq<TimeIndex>, bucket: nat, since: nat, skipped: nat, last: Line, stopped: bool)

  const FRESH: ScanState := ScanState([], 0, 0, 0, Line(0, []), false)

  /** Time `t` rounded down to its bucket. */
  function Floor(cfg: Config, t: nat): (b: nat)
    requires cfg.interval > 0
    ensures b <= t < b + cfg.interval
  {
    t - t % cfg.interval
  }

  predicate Stamped(cfg: Config, l: Line) {
    |l.text| <= MAX_LINE_SIZE && cfg.stamp(l.text) != 0
  }

  /** Whether a timestamped line gets an entry of its own. */
  predicate Marks(cfg: Config, st: ScanState, l: Line)
    requires cfg.interval > 0
  {
    !st.stopped && Stamped(cfg, l) &&
    (st.bucket == 0 || Floor(cfg, cfg.stamp(l.text)) >= st.bucket + cfg.interval || st.since >= cfg.threshold)
  }

  function Step(cfg: Config, st: ScanState, l: Line): ScanState
    requires cfg.interval > 0
  {
    if st.stopped then st
    else if |l.text| > MAX_LINE_SIZE then st.(skipped := st.skipped + 1)
    else if cfg.stamp(l.text) == 0 then
      st.(skipped := st.skipped + 1, last := l, stopped := st.skipped + 1 > MAX_SKIPPED && st.outputs == [])
    else
      var b := Floor(cfg, cfg.stamp(l.text));
      if Marks(cfg, st, l) then
        st.(outputs := st.outputs + [TimeIndex(b, l.offset)], bucket := b, since := 1, last := l)
      else
        st.(since := st.since + 1, last := l)
  }

  function Run(cfg: Config, st: ScanState, ls: seq<Line>): ScanState
    requires cfg.interval > 0
  {
    if ls == [] then st else Step(cfg, Run(cfg, st, ls[..|ls| - 1]), ls[|ls| - 1])
  }

  /** The closing entry keeps the exact time of the last line, when it has one. */
  function Close(cfg: Config, st: ScanState): seq<TimeIndex> {
    if st.outputs != [] && st.last.text != [] && cfg.stamp(st.last.text) != 0
    then st.outputs + [TimeIndex(cfg.stamp(st.last.text), st.last.offset)]
    else st.outputs
  }

  /** An existing index of two or more entries lets the scan resume at its last entry. */
  predicate Resumes(d: Bytes, prev: Option<seq<TimeIndex>>) {
    prev.Some? && |prev.value| > 1 && prev.value[|prev.value| - 1].offset < |d|
  }

  function StartState(d: Bytes, prev: Option<seq<TimeIndex>>): ScanState {
    if Resumes(d, prev)
    then var n := |prev.value| - 1; FRESH.(outputs := prev.value[..n], bucket := prev.value[n - 1].timestamp)
    else FRESH
  }

  function StartOffset(d: Bytes, prev: Option<seq<TimeIndex>>): (o: nat)
    ensures o <= |d|
  {
    if Resumes(d, prev) then prev.value[|prev.value| - 1].offset else 0
  }

  /** What indexing the bytes `d` gives when the file already had the index `prev`. */
  function IndexFrom(cfg: Config, d: Bytes, prev: Option<seq<TimeIndex>>): seq<TimeIndex>
    requires cfg.interval > 0
  {
    Close(cfg, Run(cfg, StartState(d, prev), LinesFrom(d, StartOffset(d, prev))))
  }

  /** The from-scratch index. */
  function Index(cfg: Config, d: Bytes): seq<TimeIndex>
    requires cfg.interval > 0
  {
    IndexFrom(cfg, d, None)
  }

  lemma {:induction false} RunAppend(cfg: Config, st: ScanState, a: seq<Line>, b: seq<Line>)
    requires cfg.interval > 0
    ensures Run(cfg, st, a + b) == Run(cfg, Run(cfg, st, a), b)
    decreases |b|
  {
    if b == [] {
      assert a + b == a;
    } else {
      var n := |b| - 1;
      assert (a + b)[..|a| + n] == a + b[..n];
      RunAppend(cfg, st, a, b[..n]);
    }
  }

  lemma RunFirst(cfg: Config, st: ScanState, l: Line, ls: seq<Line>)
    requires cfg.interval > 0
    ensures Run(cfg, st, [l] + ls) == Run(cfg, Step(cfg, st, l), ls)
  {
    RunAppend(cfg, st, [l], ls);
    assert [l][..0] == [];
    assert Run(cfg, st, [l]) == Step(cfg, Run(cfg, st, []), l);
  }

  /** The same run, read straight off the bytes of the file. */
  function ScanRest(cfg: Config, st: ScanState, d: Bytes, from: nat): ScanState
    requires cfg.interval > 0 && from <= |d|
    decreases |d| - from
  {
    var k := NextNewline(d, from);
    if k == |d| then st else ScanRest(cfg, Step(cfg, st, Line(from, d[from..k])), d, k + 1)
  }

  lemma {:induction false} ScanRestIsRun(cfg: Config, st: ScanState, d: Bytes, from: nat)
    requires cfg.interval > 0 && from <= |d|
    ensures ScanRest(cfg, st, d, from) == Run(cfg, st, LinesFrom(d, from))
    decreases |d| - from
  {
    var k := NextNewline(d, from);
    if k < |d| {
      var l := Line(from, d[from..k]);
      RunFirst(cfg, st, l, LinesFrom(d, k + 1));
      ScanRestIsRun(cfg, Step(cfg, st, l), d, k + 1);
    }
  }

  lemma {:induction false} StoppedStays(cfg: Config, st: ScanState, d: Bytes, from: nat)
    requires cfg.interval > 0 && from <= |d| && st.stopped
    ensures ScanRest(cfg, st, d, from) == st
    decreases |d| - from
  {
    var k := NextNewline(d, from);
    if k < |d| {
      StoppedStays(cfg, st, d, k + 1);
    }
  }

  lemma ScanNext(cfg: Config, st: ScanState, d: Bytes, from: nat)
    requires cfg.interval > 0 && from <= |d|
    ensures var k := NextNewline(d, from);
            ScanRest(cfg, st, d, from) ==
            if k == |d| then st else ScanRest(cfg, Step(cfg, st, Line(from, d[from..k])), d, k + 1)
    ensures from == |d| ==> ScanRest(cfg, st, d, from) == st
  {
  }

  /** The scanning loop over the mapped bytes of the file, from a line start; `goal` is the
      state the specification ends in. */
  method ScanLines(cfg: Config, d: Bytes, start: nat, entries: seq<TimeIndex>, bucket0: nat, ghost goal: ScanState)
    returns (outputs: seq<TimeIndex>, lineStart: nat, lastLine: Bytes, lastOffset: nat)
    requires cfg.interval > 0 && start <= |d|
    requires goal == ScanRest(cfg, FRESH.(outputs := entries, bucket := bucket0), d, start)
    ensures goal.outputs == outputs && goal.last == Line(lastOffset, lastLine)
    ensures lineStart == 0 && outputs != [] ==> lastLine == []
  {
    hide ScanRest, Floor, NextNewline;
    ghost var st := FRESH.(outputs := entries, bucket := bucket0);
    outputs := entries;
    var lastBucket: nat, since: nat, skipped: nat := bucket0, 0, 0;
    lineStart := start;
    lastLine, lastOffset := [], 0;
    while lineStart < |d|
      invariant 0 <= lineStart <= |d|
      invariant st == ScanState(outputs, lastBucket, since, skipped, Line(lastOffset, lastLine), false)
      invariant ScanRest(cfg, st, d, lineStart) == goal
      invariant lineStart == 0 ==> lastLine == []
      decreases |d| - lineStart
    {
      ScanNext(cfg, st, d, lineStart);
      var lineEnd := NextNewline(d, lineStart);
      if lineEnd == |d| {
        return;
      }
      var line := d[lineStart..lineEnd];
      st := Step(cfg, st, Line(lineStart, line));
      if |line| > MAX_LINE_SIZE {
        lineStart := lineEnd + 1;
        skipped := skipped + 1;
        continue;
      }
      lastLine, lastOffset := line, lineStart;
      var ts := cfg.stamp(line);
      if ts == 0 {
        skipped := skipped + 1;
        if skipped > MAX_SKIPPED && outputs == [] {
          StoppedStays(cfg, st, d, lineEnd + 1);
          return;
        }
        lineStart := lineEnd + 1;
        continue;
      }
      var bucket := Floor(cfg, ts);
      if lastBucket == 0 || bucket >= lastBucket + cfg.interval || since >= cfg.threshold {
        outputs := outputs + [TimeIndex(bucket, lineStart)];
        since := 0;
        lastBucket := bucket;
      }
      since := since + 1;
      lineStart := lineEnd + 1;
    }
    ScanNext(cfg, st, d, lineStart);
  }

  /** Resume from the existing index when there is one, scan, and add the closing entry. */
  method UpdateFileIndexTxt(cfg: Config, d: Bytes, prev: Option<seq<TimeIndex>>) returns (outputs: seq<TimeIndex>)
    requires cfg.interval > 0
    ensures outputs == IndexFrom(cfg, d, prev)
  {
    outputs := [];
    var lineStart: nat, lastBucket: nat := 0, 0;
    if prev.Some? && |prev.value| > 1 {
      var entries := prev.value;
      if entries[|entries| - 1].offset < |d| {
        lineStart := entries[|entries| - 1].offset;
        outputs := entries[..|entries| - 1];
        lastBucket := outputs[|outputs| - 1].timestamp;
      }
    }
    ScanRestIsRun(cfg, StartState(d, prev), d, lineStart);
    ghost var goal := ScanRest(cfg, StartState(d, prev), d, lineStart);
    var lastLine, lastOffset;
    outputs, lineStart, lastLine, lastOffset := ScanLines(cfg, d, lineStart, outputs, lastBucket, goal);
    if outputs != [] && lastLine != [] {
      var offset := 0;
      if lineStart != 0 {
        offset := lastOffset;
      }
      var bucket := cfg.stamp(lastLine);
      if bucket != 0 {
        outputs := outputs + [TimeIndex(bucket, offset)];
      }
    }
  }
}
