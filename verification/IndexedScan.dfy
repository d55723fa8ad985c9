/** A search through the index window finds what a scan of the whole file finds. */
module IndexedScan {
  import opened LogLines
  import opened TextIndexer
  import opened IndexShape
  import opened Records
  import opened LogSearch
  import opened Buckets
  import ResumeProof

  function Texts(ls: seq<Line>): (ts: seq<Bytes>)
    ensures |ts| == |ls|
    ensures forall i :: 0 <= i < |ls| ==> ts[i] == ls[i].text
  {
    seq(|ls|, i requires 0 <= i < |ls| => ls[i].text)
  }

  /** The reference: the in-range records of the whole file. */
  ghost function AllRecords(cfg: Config, d: Bytes, s: nat, e: nat): seq<Record> {
    Filter(Within(s, e), Grouped(cfg, Texts(LinesFrom(d, 0))))
  }

  /** Logs the index can serve: times never go back, no timestamped line is over-long, at most
      5000 lines come before the first timestamp, and the last line is complete and timestamped. */
  ghost predicate Regular(cfg: Config, d: Bytes) {
    var ls := LinesFrom(d, 0);
    && cfg.interval > 0 && cfg.stamp([]) == 0
    && d != [] && d[|d| - 1] == NEWLINE
    && Sorted(cfg, Texts(ls))
    && (forall i :: 0 <= i < |ls| && Header(cfg, ls[i].text) ==> |ls[i].text| <= MAX_LINE_SIZE)
    && Continuations(cfg, Texts(ls)) <= MAX_SKIPPED
    && ls != [] && Header(cfg, ls[|ls| - 1].text)
  }

  ghost predicate Stampable(cfg: Config, ls: seq<Line>) {
    && Sorted(cfg, Texts(ls))
    && forall i :: 0 <= i < |ls| && Header(cfg, ls[i].text) ==> |ls[i].text| <= MAX_LINE_SIZE
  }

  // ----- What the scan knows after any prefix

  /** The bucket covers every time seen so far, and without entries no time has been seen. */
  ghost predicate Caught(cfg: Config, st: ScanState, ls: seq<Line>)
    requires cfg.interval > 0
  {
    && !st.stopped && Multiple(cfg.interval, st.bucket) && (st.bucket != 0 ==> st.outputs != [])
    && forall i :: 0 <= i < |ls| && Header(cfg, ls[i].text) ==>
         st.outputs != [] && cfg.stamp(ls[i].text) < st.bucket + cfg.interval
  }

  lemma StampablePrefix(cfg: Config, ls: seq<Line>, k: nat)
    requires k <= |ls| && Stampable(cfg, ls)
    ensures Stampable(cfg, ls[..k])
  {
    assert Texts(ls[..k]) == Texts(ls)[..k];
  }

  /** One step keeps the bucket, or moves it to the line's own; either way it covers the line. */
  lemma StepBucket(cfg: Config, st: ScanState, l: Line)
    requires cfg.interval > 0 && !st.stopped && Multiple(cfg.interval, st.bucket)
    requires st.bucket != 0 ==> st.outputs != []
    requires Header(cfg, l.text) ==> |l.text| <= MAX_LINE_SIZE
    ensures var st' := Step(cfg, st, l);
      && Multiple(cfg.interval, st'.bucket) && st.outputs <= st'.outputs
      && (st'.bucket == st.bucket || Header(cfg, l.text))
      && (Header(cfg, l.text) ==> st'.outputs != [] && cfg.stamp(l.text) < st'.bucket + cfg.interval)
      && (st'.bucket != 0 ==> st'.outputs != [])
  {
    var t := cfg.stamp(l.text);
    FloorMultiple(cfg, t);
    if Header(cfg, l.text) && !Marks(cfg, st, l) {
      FloorStep(cfg, t, st.bucket);
    }
  }

  lemma StepCaught(cfg: Config, st: ScanState, ls: seq<Line>)
    requires cfg.interval > 0 && ls != [] && Stampable(cfg, ls)
    requires Caught(cfg, st, ls[..|ls| - 1])
    requires !Step(cfg, st, ls[|ls| - 1]).stopped
    ensures Caught(cfg, Step(cfg, st, ls[|ls| - 1]), ls)
  {
    hide Floor, Step, Marks;
    var n := |ls| - 1;
    var l := ls[n];
    StepBucket(cfg, st, l);
    forall i | 0 <= i < n && Header(cfg, ls[i].text)
      ensures st.outputs != [] && cfg.stamp(ls[i].text) < st.bucket + cfg.interval
      ensures Header(cfg, l.text) ==> cfg.stamp(ls[i].text) <= cfg.stamp(l.text)
    {
      assert ls[..n][i] == ls[i];
      assert Texts(ls)[i] == ls[i].text && Texts(ls)[n] == l.text;
    }
  }

  lemma {:induction false} ContinuationsPrefix(cfg: Config, ts: seq<Bytes>, k: nat)
    requires k <= |ts|
    ensures var n := Continuations(cfg, ts);
      Continuations(cfg, ts[..k]) == if n < k then n else k
    decreases k
  {
    if k > 0 && !Header(cfg, ts[0]) {
      ContinuationsPrefix(cfg, ts[1..], k - 1);
      assert ts[..k][1..] == ts[1..][..k - 1];
    }
  }

  /** The scan does not give up while few lines precede the first timestamp. */
  lemma {:induction false} RunCaught(cfg: Config, ls: seq<Line>)
    requires cfg.interval > 0 && Stampable(cfg, ls) && Continuations(cfg, Texts(ls)) <= MAX_SKIPPED
    ensures var st := Run(cfg, FRESH, ls);
      Caught(cfg, st, ls) && (st.outputs == [] ==> st.skipped <= |ls| && Continuations(cfg, Texts(ls)) == |ls|)
    decreases |ls|
  {
    if ls == [] {
      assert 0 == cfg.interval * 0;
    } else {
      var n := |ls| - 1;
      var ts := Texts(ls);
      StampablePrefix(cfg, ls, n);
      assert Texts(ls[..n]) == ts[..n];
      ContinuationsPrefix(cfg, ts, n);
      RunCaught(cfg, ls[..n]);
      StepCaught(cfg, Run(cfg, FRESH, ls[..n]), ls);
    }
  }

  // ----- Where the entries of a regular log stand

  ghost predicate IsHeader(cfg: Config, ls: seq<Line>, k: nat)
    requires k < |ls|
  {
    Header(cfg, ls[k].text)
  }

  ghost predicate OnHeader(cfg: Config, ls: seq<Line>, entry: TimeIndex, k: nat) {
    k < |ls| && IsHeader(cfg, ls, k) && entry.offset == ls[k].offset && entry.timestamp <= cfg.stamp(ls[k].text)
  }

  /** Entry i belongs to the header line `at[i]`, at or after its bucket; the last entry is the
      closing one, for the last line, with its exact time. */
  ghost predicate OnHeaders(cfg: Config, ls: seq<Line>, entries: seq<TimeIndex>, at: seq<nat>) {
    var n := |entries| - 1;
    && n >= 1 && |at| == n + 1
    && (forall i :: 0 <= i <= n ==> OnHeader(cfg, ls, entries[i], at[i]))
    && at[n] == |ls| - 1 && entries[n].timestamp == cfg.stamp(ls[at[n]].text)
  }

  /** Neither lines nor times go back from one entry to the next. */
  ghost predicate InOrder(entries: seq<TimeIndex>, at: seq<nat>)
    requires |entries| == |at|
  {
    forall i, j :: 0 <= i < j < |at| ==> at[i] <= at[j] && entries[i].timestamp <= entries[j].timestamp
  }

  /** All headers before a regular entry's line are earlier than one interval after the entry
      before it; before the first entry there are none. */
  ghost predicate NoGaps(cfg: Config, ls: seq<Line>, entries: seq<TimeIndex>, at: seq<nat>)
    requires |entries| == |at|
  {
    forall i, k :: 0 <= i < |at| - 1 && 0 <= k < at[i] && k < |ls| && IsHeader(cfg, ls, k) ==>
      i > 0 && cfg.stamp(ls[k].text) < entries[i - 1].timestamp + cfg.interval
  }

  ghost predicate Placed(cfg: Config, ls: seq<Line>, entries: seq<TimeIndex>, at: seq<nat>) {
    OnHeaders(cfg, ls, entries, at) && InOrder(entries, at) && NoGaps(cfg, ls, entries, at)
  }

  lemma SortedLines(cfg: Config, ls: seq<Line>, i: nat, j: nat)
    requires i <= j < |ls| && Sorted(cfg, Texts(ls)) && IsHeader(cfg, ls, i) && IsHeader(cfg, ls, j)
    ensures cfg.stamp(ls[i].text) <= cfg.stamp(ls[j].text)
  {
    assert Texts(ls)[i] == ls[i].text && Texts(ls)[j] == ls[j].text;
  }

  /** Headers before the line of a regular entry lie less than an interval after the previous one. */
  lemma BeforeMark(cfg: Config, ls: seq<Line>, i: nat, k: nat)
    requires cfg.interval > 0 && Stampable(cfg, ls) && Continuations(cfg, Texts(ls)) <= MAX_SKIPPED
    requires i < |MarkedLines(cfg, ls)| && k < MarkedLines(cfg, ls)[i] && k < |ls| && IsHeader(cfg, ls, k)
    ensures i > 0 && i <= |Run(cfg, FRESH, ls).outputs|
    ensures cfg.stamp(ls[k].text) < Run(cfg, FRESH, ls).outputs[i - 1].timestamp + cfg.interval
  {
    hide Run, Continuations, Floor;
    var m := MarkedLines(cfg, ls)[i];
    RegularEntries(cfg, ls);
    OutputsBefore(cfg, ls, i);
    StampablePrefix(cfg, ls, m);
    assert Texts(ls[..m]) == Texts(ls)[..m];
    ContinuationsPrefix(cfg, Texts(ls), m);
    RunCaught(cfg, ls[..m]);
    RegularEntries(cfg, ls[..m]);
    assert ls[..m][k] == ls[k];
  }

  /** The scan of a regular log ends with some regular entry and remembers the last line. */
  lemma ScanEnds(cfg: Config, d: Bytes)
    requires Regular(cfg, d)
    ensures var ls := LinesFrom(d, 0);
      var st, l := Run(cfg, FRESH, ls), ls[|ls| - 1];
      st.outputs != [] && Index(cfg, d) == st.outputs + [TimeIndex(cfg.stamp(l.text), l.offset)]
  {
    hide Run, LinesFrom, Continuations, Sorted;
    var ls := LinesFrom(d, 0);
    RunCaught(cfg, ls);
    LastSeen(cfg, ls);
  }

  lemma MarksInOrder(cfg: Config, ls: seq<Line>)
    requires cfg.interval > 0 && Stampable(cfg, ls)
    ensures |Run(cfg, FRESH, ls).outputs| == |MarkedLines(cfg, ls)|
    ensures InOrder(Run(cfg, FRESH, ls).outputs, MarkedLines(cfg, ls))
  {
    hide Floor, Run;
    var m := MarkedLines(cfg, ls);
    RegularEntries(cfg, ls);
    forall i, j | 0 <= i < j < |m|
      ensures Floor(cfg, cfg.stamp(ls[m[i]].text)) <= Floor(cfg, cfg.stamp(ls[m[j]].text))
    {
      SortedLines(cfg, ls, m[i], m[j]);
      FloorMonotone(cfg, cfg.stamp(ls[m[i]].text), cfg.stamp(ls[m[j]].text));
    }
  }

  lemma EntriesInOrder(cfg: Config, ls: seq<Line>)
    requires cfg.interval > 0 && Stampable(cfg, ls) && ls != [] && IsHeader(cfg, ls, |ls| - 1)
    ensures var st, m, n := Run(cfg, FRESH, ls), MarkedLines(cfg, ls), |ls| - 1;
      var entries, at := st.outputs + [TimeIndex(cfg.stamp(ls[n].text), ls[n].offset)], m + [n];
      |entries| == |at| && InOrder(entries, at)
  {
    hide Floor, Run;
    var m, n := MarkedLines(cfg, ls), |ls| - 1;
    RegularEntries(cfg, ls);
    MarksInOrder(cfg, ls);
    forall i | 0 <= i < |m| ensures Floor(cfg, cfg.stamp(ls[m[i]].text)) <= cfg.stamp(ls[n].text) {
      SortedLines(cfg, ls, m[i], n);
    }
  }

  lemma EntriesOnHeaders(cfg: Config, d: Bytes)
    requires Regular(cfg, d)
    ensures var ls := LinesFrom(d, 0);
      OnHeaders(cfg, ls, Index(cfg, d), MarkedLines(cfg, ls) + [|ls| - 1])
  {
    hide Run, Index, Continuations, MarkedLines, Sorted;
    var ls := LinesFrom(d, 0);
    ScanEnds(cfg, d);
    RegularEntries(cfg, ls);
  }

  lemma EntriesNoGaps(cfg: Config, d: Bytes)
    requires Regular(cfg, d)
    ensures var ls := LinesFrom(d, 0);
      var at := MarkedLines(cfg, ls) + [|ls| - 1];
      |Index(cfg, d)| == |at| && NoGaps(cfg, ls, Index(cfg, d), at)
  {
    hide Run, Index, Continuations, MarkedLines, Sorted;
    var ls := LinesFrom(d, 0);
    var m, entries := MarkedLines(cfg, ls), Index(cfg, d);
    ScanEnds(cfg, d);
    RegularEntries(cfg, ls);
    forall i, k | 0 <= i < |m| && 0 <= k < m[i] && k < |ls| && IsHeader(cfg, ls, k)
      ensures i > 0 && cfg.stamp(ls[k].text) < entries[i - 1].timestamp + cfg.interval
    {
      BeforeMark(cfg, ls, i, k);
    }
  }

  /** Every regular log has at least a first and a closing entry, and all are placed. */
  lemma EntriesPlaced(cfg: Config, d: Bytes)
    requires Regular(cfg, d)
    ensures var ls := LinesFrom(d, 0);
      Placed(cfg, ls, Index(cfg, d), MarkedLines(cfg, ls) + [|ls| - 1])
  {
    hide Run, Index, Continuations, MarkedLines, Sorted, OnHeaders, NoGaps, InOrder;
    EntriesOnHeaders(cfg, d);
    EntriesNoGaps(cfg, d);
    ScanEnds(cfg, d);
    EntriesInOrder(cfg, LinesFrom(d, 0));
  }

  // ----- The window

  /** The one thing a caller must check: the window's first entry is not a count-forced split of
      the bucket that the query starts in. */
  predicate StartsClean(cfg: Config, entries: seq<TimeIndex>, s: nat, a: nat)
    requires a < |entries|
  {
    a == 0 || entries[a - 1].timestamp + cfg.interval <= s
  }

  /** Behind the window there are only headers that are too late. */
  lemma WindowTop(cfg: Config, ls: seq<Line>, entries: seq<TimeIndex>, at: seq<nat>,
                  s: nat, e: nat, a: nat, b: nat)
    requires OnHeaders(cfg, ls, entries, at) && InOrder(entries, at) && Sorted(cfg, Texts(ls))
    requires IsWindow(entries, s, e, a, b)
    ensures at[a] <= at[b] < |ls|
    ensures at[b] == |ls| - 1 || forall k :: at[b] <= k < |ls| && IsHeader(cfg, ls, k) ==> cfg.stamp(ls[k].text) > e
  {
    if b < |entries| - 1 {
      assert !Covers(entries, b, s, e);
      assert entries[b].timestamp > e;
      forall k | at[b] <= k < |ls| && IsHeader(cfg, ls, k) ensures cfg.stamp(ls[k].text) > e {
        SortedLines(cfg, ls, at[b], k);
      }
    }
  }

  /** The window leaves out only headers that are too early or too late. */
  lemma WindowBounds(cfg: Config, ls: seq<Line>, entries: seq<TimeIndex>, at: seq<nat>,
                     s: nat, e: nat, a: nat, b: nat)
    requires Placed(cfg, ls, entries, at) && Sorted(cfg, Texts(ls))
    requires IsWindow(entries, s, e, a, b) && StartsClean(cfg, entries, s, a)
    ensures at[a] <= at[b] < |ls|
    ensures forall k :: 0 <= k < at[a] && IsHeader(cfg, ls, k) ==> cfg.stamp(ls[k].text) < s
    ensures at[b] == |ls| - 1 || forall k :: at[b] <= k < |ls| && IsHeader(cfg, ls, k) ==> cfg.stamp(ls[k].text) > e
  {
    WindowTop(cfg, ls, entries, at, s, e, a, b);
  }

  /** The j-th line from `from` on is the first one, or the one before from the next line on. */
  lemma LaterLine(d: Bytes, from: nat, j: nat)
    requires from <= |d| && j < |LinesFrom(d, from)|
    ensures var ls, k := LinesFrom(d, from), NextNewline(d, from);
      && k < |d| && ls == [Line(from, d[from..k])] + LinesFrom(d, k + 1)
      && (j == 0 ==> ls[j].offset == from)
      && (j > 0 ==> j - 1 < |LinesFrom(d, k + 1)| && ls[j] == LinesFrom(d, k + 1)[j - 1] && k + 1 <= ls[j].offset < |d|)
  {
    hide LinesFrom, NextNewline;
    FirstLine(d, from);
    if j > 0 {
      LinesOrdered(d, NextNewline(d, from) + 1);
    }
  }

  lemma TextsNone()
    ensures Texts([]) == []
  {
  }

  lemma TextsCons(l: Line, ls: seq<Line>)
    ensures Texts([l] + ls) == [l.text] + Texts(ls)
  {
  }

  /** Reading from a line to the start of a later one gives exactly those lines. */
  lemma {:induction false} WindowIsLines(d: Bytes, from: nat, j: nat)
    requires from <= |d| && j < |LinesFrom(d, from)|
    ensures WindowTexts(d, from, LinesFrom(d, from)[j].offset) == Texts(LinesFrom(d, from)[..j + 1])
    decreases |d| - from
  {
    hide LinesFrom, NextNewline, WindowTexts, Texts;
    LaterLine(d, from, j);
    var ls, k := LinesFrom(d, from), NextNewline(d, from);
    var l, more := Line(from, d[from..k]), LinesFrom(d, k + 1);
    WindowNext(d, from, ls[j].offset);
    TextsCons(l, more[..j]);
    assert ls[..j + 1] == [l] + more[..j];
    if j == 0 {
      TextsNone();
      assert more[..0] == [] && [l.text] + [] == [l.text];
    } else {
      WindowIsLines(d, k + 1, j - 1);
    }
  }

  // ----- The search agrees with a full scan

  /** When no neighbouring entries cover the query, every time is too late or every time is too early. */
  lemma {:induction false} NoCover(entries: seq<TimeIndex>, s: nat, e: nat, i: nat)
    requires s <= e && i < |entries| - 1 && !SomeCovers(entries, s, e)
    requires entries[i].timestamp <= e
    ensures entries[|entries| - 1].timestamp < s
    decreases |entries| - i
  {
    assert !Covers(entries, i, s, e);
    if i + 1 < |entries| - 1 {
      NoCover(entries, s, e, i + 1);
    }
  }

  /** No window means that no record of the log is in range. */
  lemma NoWindowNoRecords(cfg: Config, d: Bytes, s: nat, e: nat)
    requires Regular(cfg, d) && s <= e && !SomeCovers(Index(cfg, d), s, e)
    ensures AllRecords(cfg, d, s, e) == []
  {
    hide LinesFrom, Index, MarkedLines, Continuations, Grouped, Filter;
    var ls, entries := LinesFrom(d, 0), Index(cfg, d);
    var at, n := MarkedLines(cfg, ls) + [|ls| - 1], |entries| - 1;
    EntriesPlaced(cfg, d);
    if entries[0].timestamp <= e {
      NoCover(entries, s, e, 0);
    }
    forall k | 0 <= k < |ls| && IsHeader(cfg, ls, k) ensures !(s <= cfg.stamp(ls[k].text) <= e) {
      if k < at[0] {
      } else {
        SortedLines(cfg, ls, at[0], k);
        SortedLines(cfg, ls, k, at[n]);
      }
    }
    NoneWithin(cfg, s, e, Texts(ls));
  }

  /** The bytes between two line starts hold the lines from the one to the other. */
  lemma WindowBytes(d: Bytes, first: nat, last: nat)
    requires first <= last < |LinesFrom(d, 0)|
    ensures var ls := LinesFrom(d, 0);
      && ls[first].offset < |d| && ls[last].offset < |d|
      && WindowTexts(d, ls[first].offset, ls[last].offset) == Texts(ls)[first..last + 1]
  {
    hide WindowTexts;
    var ls := LinesFrom(d, 0);
    LinesFromLine(d, 0, first);
    LinesFromLine(d, 0, last);
    WindowIsLines(d, ls[first].offset, last - first);
    assert ls[first..][..last - first + 1] == ls[first..last + 1];
    assert Texts(ls[first..last + 1]) == Texts(ls)[first..last + 1];
  }

  lemma SortedSlice(cfg: Config, ts: seq<Bytes>, i: nat, j: nat)
    requires i <= j <= |ts| && Sorted(cfg, ts)
    ensures Sorted(cfg, ts[i..j])
  {
  }

  /** Assembling a window that leaves out only out-of-range headers gives all in-range records. */
  lemma WindowAssembly(cfg: Config, ts: seq<Bytes>, s: nat, e: nat, a: nat, b: nat)
    requires cfg.stamp([]) == 0 && Sorted(cfg, ts)
    requires a <= b < |ts| && Header(cfg, ts[a]) && Header(cfg, ts[b])
    requires forall i :: 0 <= i < a && Header(cfg, ts[i]) ==> cfg.stamp(ts[i]) < s
    requires b == |ts| - 1 || forall i :: b <= i < |ts| && Header(cfg, ts[i]) ==> cfg.stamp(ts[i]) > e
    ensures Flush(Assemble(cfg, s, e, IDLE, ts[a..b + 1])) == Filter(Within(s, e), Grouped(cfg, ts))
  {
    hide Assemble, Grouped, Filter, Within;
    SortedSlice(cfg, ts, a, b + 1);
    AssemblyIsGrouping(cfg, s, e, ts[a..b + 1]);
    WindowKeepsRecords(cfg, s, e, ts, a, b);
  }

  /** The window of a query holds exactly the in-range records of the whole file. */
  lemma WindowAgreesWithScan(cfg: Config, d: Bytes, s: nat, e: nat, a: nat, b: nat)
    requires Regular(cfg, d) && IsWindow(Index(cfg, d), s, e, a, b) && StartsClean(cfg, Index(cfg, d), s, a)
    ensures Index(cfg, d)[a].offset < |d| && Index(cfg, d)[b].offset < |d|
    ensures WindowRecords(cfg, d, Index(cfg, d)[a].offset, Index(cfg, d)[b].offset, s, e) == AllRecords(cfg, d, s, e)
  {
    hide Index, Continuations, MarkedLines, Assemble, Grouped, Filter, Within, WindowTexts, NoGaps, LinesFrom;
    var ls, entries := LinesFrom(d, 0), Index(cfg, d);
    var at := MarkedLines(cfg, ls) + [|ls| - 1];
    EntriesPlaced(cfg, d);
    WindowBounds(cfg, ls, entries, at, s, e, a, b);
    assert OnHeader(cfg, ls, entries[a], at[a]) && OnHeader(cfg, ls, entries[b], at[b]);
    WindowBytes(d, at[a], at[b]);
    var ts := Texts(ls);
    forall i | 0 <= i < |ts| && Header(cfg, ts[i]) ensures IsHeader(cfg, ls, i) {}
    WindowAssembly(cfg, ts, s, e, at[a], at[b]);
  }

  // ----- When the window starts clean

  /** The entry a window starts at is before the query, unless it is the first of the file. */
  lemma StartIsEarly(cfg: Config, d: Bytes, s: nat, e: nat, a: nat, b: nat)
    requires Regular(cfg, d) && IsWindow(Index(cfg, d), s, e, a, b) && a > 0
    ensures Index(cfg, d)[a - 1].timestamp <= Index(cfg, d)[a].timestamp < s
    ensures Multiple(cfg.interval, Index(cfg, d)[a - 1].timestamp)
  {
    hide Index, MarkedLines, Continuations, NoGaps, LinesFrom, Run, Sorted, Floor;
    var ls, entries := LinesFrom(d, 0), Index(cfg, d);
    EntriesPlaced(cfg, d);
    assert !Covers(entries, a - 1, s, e) && Covers(entries, a, s, e);
    ScanEnds(cfg, d);
    RegularEntries(cfg, ls);
    FloorMultiple(cfg, cfg.stamp(ls[MarkedLines(cfg, ls)[a - 1]].text));
  }

  /** A query that starts on an interval boundary never meets a split bucket. */
  lemma AlignedStartsClean(cfg: Config, d: Bytes, s: nat, e: nat, a: nat, b: nat)
    requires Regular(cfg, d) && IsWindow(Index(cfg, d), s, e, a, b) && s % cfg.interval == 0
    ensures StartsClean(cfg, Index(cfg, d), s, a)
  {
    hide Index, LinesFrom, Sorted, Continuations;
    if a > 0 {
      StartIsEarly(cfg, d, s, e, a, b);
      DivisionIsMultiple(cfg.interval, s);
      NextMultiple(cfg.interval, Index(cfg, d)[a - 1].timestamp, s);
    }
  }

  /** Without forced entries and zero buckets, entries are a whole interval apart. */
  lemma UnforcedApart(cfg: Config, ls: seq<Line>, a: nat)
    requires cfg.interval > 0 && 0 < a < |MarkedLines(cfg, ls)|
    requires ResumeProof.NeverForced(cfg, FRESH, ls)
    requires forall l :: l in ls && Header(cfg, l.text) ==> cfg.stamp(l.text) >= cfg.interval
    ensures var out := Run(cfg, FRESH, ls).outputs;
      a < |out| && out[a - 1].timestamp + cfg.interval <= out[a].timestamp
  {
    hide Floor, Step, Run, ResumeProof.NeverForced, MarkedLines;
    var m := MarkedLines(cfg, ls);
    RegularEntries(cfg, ls);
    OutputsBefore(cfg, ls, a);
    MarkedPrefix(cfg, ls, a);
    RegularEntries(cfg, ls[..m[a]]);
    ResumeProof.NotForcedAt(cfg, ls, m[a]);
    FloorReaches(cfg, cfg.stamp(ls[m[a - 1]].text));
  }

  lemma WindowRange(entries: seq<TimeIndex>, s: nat, e: nat, a: nat, b: nat)
    requires IsWindow(entries, s, e, a, b)
    ensures a < b < |entries|
  {
  }

  /** No query meets a split bucket when the count forces none and all times reach one interval. */
  lemma UnforcedStartsClean(cfg: Config, d: Bytes, s: nat, e: nat, a: nat, b: nat)
    requires Regular(cfg, d) && IsWindow(Index(cfg, d), s, e, a, b)
    requires ResumeProof.NeverForced(cfg, FRESH, LinesFrom(d, 0))
    requires forall l :: l in LinesFrom(d, 0) && Header(cfg, l.text) ==> cfg.stamp(l.text) >= cfg.interval
    ensures StartsClean(cfg, Index(cfg, d), s, a)
  {
    hide Index, Continuations, LinesFrom, Sorted, IsWindow, Run, ResumeProof.NeverForced;
    if a > 0 {
      WindowRange(Index(cfg, d), s, e, a, b);
      StartIsEarly(cfg, d, s, e, a, b);
      ScanEnds(cfg, d);
      RegularEntries(cfg, LinesFrom(d, 0));
      UnforcedApart(cfg, LinesFrom(d, 0), a);
    }
  }
}
