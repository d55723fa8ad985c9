/** Searching logs that end in continuation lines: their index has no closing entry, and what
    comes after the last regular entry is out of reach. */
module OpenEndedLogs {
  import opened LogLines
  import opened TextIndexer
  import opened IndexShape
  import opened Records
  import opened LogSearch
  import opened IndexedScan
  import opened WindowExactness
  import opened GrownIndex

  /** Like a regular log, but the last line that is not over-long has no time. */
  ghost predicate OpenEnded(cfg: Config, d: Bytes) {
    var ls := LinesFrom(d, 0);
    && cfg.interval > 0 && cfg.stamp([]) == 0
    && d != [] && d[|d| - 1] == NEWLINE
    && Stampable(cfg, ls)
    && Continuations(cfg, Texts(ls)) <= MAX_SKIPPED && Continuations(cfg, Texts(ls)) < |ls|
    && !Closes(cfg, ls)
  }

  /** The entries stand at headers, in order and without gaps. */
  lemma OpenEntries(cfg: Config, d: Bytes)
    requires OpenEnded(cfg, d)
    ensures var ls, entries, m := LinesFrom(d, 0), Index(cfg, d), MarkedLines(cfg, LinesFrom(d, 0));
      && entries != [] && |entries| == |m| && InOrder(entries, m)
      && (forall i :: 0 <= i < |m| ==> OnHeader(cfg, ls, entries[i], m[i]))
      && (forall i, k :: 0 <= i < |m| && 0 <= k < m[i] && k < |ls| && IsHeader(cfg, ls, k) ==>
            i > 0 && cfg.stamp(ls[k].text) < entries[i - 1].timestamp + cfg.interval)
  {
    hide LinesFrom, Run, Continuations, Floor, MarkedLines, Sorted;
    var ls := LinesFrom(d, 0);
    var m := MarkedLines(cfg, ls);
    RunCaught(cfg, ls);
    CloseShape(cfg, ls);
    RegularEntries(cfg, ls);
    MarksInOrder(cfg, ls);
    forall i, k | 0 <= i < |m| && 0 <= k < m[i] && k < |ls| && IsHeader(cfg, ls, k)
      ensures i > 0 && cfg.stamp(ls[k].text) < Index(cfg, d)[i - 1].timestamp + cfg.interval
    {
      BeforeMark(cfg, ls, i, k);
    }
  }

  // ----- What a window returns, and what there is

  /** A window returns the records between its two lines and, if it is in range, the header it ends
      at, cut to one line. A full scan also finds those before, and everything from that header on. */
  lemma WindowParts(cfg: Config, ts: seq<Bytes>, s: nat, e: nat, i: nat, j: nat)
    requires cfg.stamp([]) == 0 && Sorted(cfg, ts) && i <= j < |ts| && Header(cfg, ts[i]) && Header(cfg, ts[j])
    ensures var w := Within(s, e);
      var between := Filter(w, Grouped(cfg, ts[i..j]));
      && Flush(Assemble(cfg, s, e, IDLE, ts[i..j + 1])) == between + InRange(s, e, Record(cfg.stamp(ts[j]), ts[j]))
      && Filter(w, Grouped(cfg, ts)) ==
           Filter(w, Grouped(cfg, ts[..i])) + (between + Filter(w, Grouped(cfg, ts[j..])))
  {
    hide Assemble, Grouped, Filter, Within, Sorted, Flush, Joined, InRange;
    SortedSlice(cfg, ts, i, j + 1);
    AssemblyIsGrouping(cfg, s, e, ts[i..j + 1]);
    var slice, tail := ts[i..j + 1], ts[i..];
    assert slice[..j - i] == ts[i..j] && slice[j - i..] == [ts[j]] + [];
    CutAtHeader(cfg, slice, s, e, j - i);
    LoneHeader(cfg, s, e, ts[j], []);
    JoinedNothing(ts[j]);
    CutAtHeader(cfg, ts, s, e, i);
    assert tail[..j - i] == ts[i..j] && tail[j - i..] == ts[j..];
    CutAtHeader(cfg, tail, s, e, j - i);
  }

  /** After line j there is no header in range, and if line j is one it is a whole record. */
  ghost predicate TailWhole(cfg: Config, ts: seq<Bytes>, s: nat, e: nat, j: nat)
    requires j < |ts|
  {
    && (forall k :: j < k < |ts| && Header(cfg, ts[k]) ==> !(s <= cfg.stamp(ts[k]) <= e))
    && (s <= cfg.stamp(ts[j]) <= e ==> j + 1 == |ts| || Header(cfg, ts[j + 1]))
  }

  lemma {:induction false} JoinedGrows(h: Bytes, more: seq<Bytes>)
    ensures |Joined(h, more)| >= |h| + |more|
    decreases |more|
  {
    if more != [] {
      JoinedGrows(h + [NEWLINE] + more[0], more[1..]);
    }
  }

  /** There is a record in range exactly when there is a header in range. */
  lemma NoRecordsIff(cfg: Config, ts: seq<Bytes>, s: nat, e: nat)
    ensures Filter(Within(s, e), Grouped(cfg, ts)) == [] <==>
      forall k :: 0 <= k < |ts| && Header(cfg, ts[k]) ==> !(s <= cfg.stamp(ts[k]) <= e)
  {
    hide Filter, Grouped, Within;
    if k :| 0 <= k < |ts| && Header(cfg, ts[k]) && s <= cfg.stamp(ts[k]) <= e {
      SomeWithin(cfg, s, e, ts, k);
    } else {
      NoneWithin(cfg, s, e, ts);
    }
  }

  lemma LaterHeaders(cfg: Config, ts: seq<Bytes>, s: nat, e: nat, j: nat)
    requires j < |ts|
    ensures var more := ts[j + 1..];
      var c := Continuations(cfg, more);
      && (c == 0 <==> j + 1 == |ts| || Header(cfg, ts[j + 1]))
      && ((forall k :: 0 <= k < |more[c..]| && Header(cfg, more[c..][k]) ==> !(s <= cfg.stamp(more[c..][k]) <= e)) <==>
          (forall k :: j < k < |ts| && Header(cfg, ts[k]) ==> !(s <= cfg.stamp(ts[k]) <= e)))
  {
    hide Header;
    var more := ts[j + 1..];
    var c := Continuations(cfg, more);
    forall k | 0 <= k < |more[c..]| ensures more[c..][k] == ts[j + 1 + c + k] {}
    forall k | j < k < |ts| && Header(cfg, ts[k]) ensures k >= j + 1 + c && more[c..][k - j - 1 - c] == ts[k] {
      assert more[k - j - 1] == ts[k];
    }
  }

  lemma OneOrNone(x: seq<Record>, y: seq<Record>, rest: seq<Record>)
    requires |x| == |y| <= 1
    ensures x + rest == y <==> rest == [] && x == y
  {
    if rest == [] {
      assert x + rest == x;
    }
  }

  /** From line j on, the records in range are just its own line if and only if the tail is whole. */
  lemma TailWholeIff(cfg: Config, ts: seq<Bytes>, s: nat, e: nat, j: nat)
    requires j < |ts| && Header(cfg, ts[j])
    ensures Filter(Within(s, e), Grouped(cfg, ts[j..])) == InRange(s, e, Record(cfg.stamp(ts[j]), ts[j])) <==>
      TailWhole(cfg, ts, s, e, j)
  {
    hide Filter, Grouped, Joined, Within, Continuations;
    var h, more := ts[j], ts[j + 1..];
    var c := Continuations(cfg, more);
    assert ts[j..] == [h] + more;
    TailRecords(cfg, s, e, h, more);
    JoinedGrows(h, more[..c]);
    JoinedNothing(h);
    assert c == 0 ==> more[..c] == [];
    LaterHeaders(cfg, ts, s, e, j);
    NoRecordsIff(cfg, more[c..], s, e);
    var t := cfg.stamp(h);
    OneOrNone(InRange(s, e, Record(t, Joined(h, more[..c]))), InRange(s, e, Record(t, h)),
      Filter(Within(s, e), Grouped(cfg, more[c..])));
  }

  /** The window of a query in an open-ended log. */
  lemma OpenWindow(cfg: Config, d: Bytes, s: nat, e: nat, a: nat, b: nat)
    requires OpenEnded(cfg, d) && IsWindow(Index(cfg, d), s, e, a, b)
    ensures var entries, ts, m := Index(cfg, d), Texts(LinesFrom(d, 0)), MarkedLines(cfg, LinesFrom(d, 0));
      && |entries| == |m| && m[a] <= m[b] < |ts| && Header(cfg, ts[m[a]]) && Header(cfg, ts[m[b]])
      && entries[a].offset < |d| && entries[b].offset < |d|
      && WindowRecords(cfg, d, entries[a].offset, entries[b].offset, s, e) ==
           Flush(Assemble(cfg, s, e, IDLE, ts[m[a]..m[b] + 1]))
  {
    hide Index, LinesFrom, MarkedLines, Continuations, Sorted, WindowTexts, Assemble;
    var ls, entries, m := LinesFrom(d, 0), Index(cfg, d), MarkedLines(cfg, LinesFrom(d, 0));
    OpenEntries(cfg, d);
    assert OnHeader(cfg, ls, entries[a], m[a]) && OnHeader(cfg, ls, entries[b], m[b]);
    WindowBytes(d, m[a], m[b]);
  }

  /** Before the window of a query that starts clean there is nothing in range. */
  lemma NothingBefore(cfg: Config, d: Bytes, s: nat, e: nat, a: nat)
    requires OpenEnded(cfg, d) && a < |Index(cfg, d)| && StartsClean(cfg, Index(cfg, d), s, a)
    ensures var ls := LinesFrom(d, 0);
      a < |MarkedLines(cfg, ls)| && MarkedLines(cfg, ls)[a] < |ls| &&
      Filter(Within(s, e), Grouped(cfg, Texts(ls)[..MarkedLines(cfg, ls)[a]])) == []
  {
    hide Index, LinesFrom, MarkedLines, Continuations, Sorted, Filter, Grouped, Within, Stampable, InOrder;
    var ls, m := LinesFrom(d, 0), MarkedLines(cfg, LinesFrom(d, 0));
    OpenEntries(cfg, d);
    assert OnHeader(cfg, ls, Index(cfg, d)[a], m[a]);
    var before := Texts(ls)[..m[a]];
    forall i | 0 <= i < |before| && Header(cfg, before[i]) ensures cfg.stamp(before[i]) < s {
      assert before[i] == ls[i].text && IsHeader(cfg, ls, i);
    }
    NoneWithin(cfg, s, e, before);
  }

  // ----- Which queries lose records

  lemma OnlyTailsDiffer(between: seq<Record>, tail: seq<Record>, last: seq<Record>)
    ensures between + last == [] + (between + tail) <==> tail == last
  {
    assert [] + (between + tail) == between + tail;
    SamePrefix(between, tail, last);
  }

  /** A query that starts clean gets the records of a full scan if and only if no header after the
      line of the window's last entry is in range, and that line, if in range, has no continuation. */
  lemma OpenWindowExactIff(cfg: Config, d: Bytes, s: nat, e: nat, a: nat, b: nat)
    requires OpenEnded(cfg, d) && IsWindow(Index(cfg, d), s, e, a, b) && StartsClean(cfg, Index(cfg, d), s, a)
    ensures |Index(cfg, d)| == |MarkedLines(cfg, LinesFrom(d, 0))|
    ensures var j := MarkedLines(cfg, LinesFrom(d, 0))[b];
      j < |LinesFrom(d, 0)| &&
      (WindowExact(cfg, d, s, e, a, b) <==> TailWhole(cfg, Texts(LinesFrom(d, 0)), s, e, j))
  {
    hide Index, LinesFrom, MarkedLines, Continuations, Sorted, Assemble, Filter, Grouped, Within, WindowRecords;
    hide TailWhole, InRange, Flush, InOrder;
    var ls, ts, m := LinesFrom(d, 0), Texts(LinesFrom(d, 0)), MarkedLines(cfg, LinesFrom(d, 0));
    OpenWindow(cfg, d, s, e, a, b);
    WindowParts(cfg, ts, s, e, m[a], m[b]);
    NothingBefore(cfg, d, s, e, a);
    TailWholeIff(cfg, ts, s, e, m[b]);
    OnlyTailsDiffer(Filter(Within(s, e), Grouped(cfg, ts[m[a]..m[b]])), Filter(Within(s, e), Grouped(cfg, ts[m[b]..])),
      InRange(s, e, Record(cfg.stamp(ts[m[b]]), ts[m[b]])));
  }

  lemma NoneBeforeFirst(cfg: Config, d: Bytes, s: nat, e: nat)
    requires OpenEnded(cfg, d) && s <= e && Index(cfg, d) != [] && !SomeCovers(Index(cfg, d), s, e)
    requires e < Index(cfg, d)[|Index(cfg, d)| - 1].timestamp
    ensures AllRecords(cfg, d, s, e) == []
  {
    hide Index, LinesFrom, MarkedLines, Continuations, Sorted, Filter, Grouped, Within;
    var ls, entries, m := LinesFrom(d, 0), Index(cfg, d), MarkedLines(cfg, LinesFrom(d, 0));
    OpenEntries(cfg, d);
    if entries[0].timestamp <= e {
      NoCover(entries, s, e, 0);
    }
    forall k | 0 <= k < |ls| && IsHeader(cfg, ls, k) ensures cfg.stamp(ls[k].text) > e {
      assert OnHeader(cfg, ls, entries[0], m[0]);
      assert k >= m[0];
      SortedLines(cfg, ls, m[0], k);
    }
    NoneWithin(cfg, s, e, Texts(ls));
  }

  lemma EndIsLate(entries: seq<TimeIndex>, at: seq<nat>, s: nat, e: nat, a: nat, b: nat)
    requires |entries| == |at| && InOrder(entries, at) && s <= e && IsWindow(entries, s, e, a, b)
    requires e < entries[|entries| - 1].timestamp
    ensures a < b < |entries| && entries[b].timestamp > e
  {
    if b < |entries| - 1 {
      assert !Covers(entries, b, s, e);
    }
  }

  lemma LateMeansWhole(cfg: Config, ls: seq<Line>, s: nat, e: nat, entry: TimeIndex, j: nat)
    requires Stampable(cfg, ls) && OnHeader(cfg, ls, entry, j) && entry.timestamp > e
    ensures TailWhole(cfg, Texts(ls), s, e, j)
  {
    hide Sorted;
    forall k | j < k < |ls| && Header(cfg, Texts(ls)[k]) ensures cfg.stamp(Texts(ls)[k]) > e {
      assert IsHeader(cfg, ls, k);
      SortedLines(cfg, ls, j, k);
    }
  }

  lemma LateTailWhole(cfg: Config, d: Bytes, s: nat, e: nat, a: nat, b: nat)
    requires OpenEnded(cfg, d) && s <= e && IsWindow(Index(cfg, d), s, e, a, b)
    requires e < Index(cfg, d)[|Index(cfg, d)| - 1].timestamp
    ensures |Index(cfg, d)| == |MarkedLines(cfg, LinesFrom(d, 0))|
    ensures var j := MarkedLines(cfg, LinesFrom(d, 0))[b];
      j < |LinesFrom(d, 0)| && TailWhole(cfg, Texts(LinesFrom(d, 0)), s, e, j)
  {
    hide Index, LinesFrom, MarkedLines, Continuations, Sorted, TailWhole, InOrder, IsWindow, Stampable;
    var ls, entries, m := LinesFrom(d, 0), Index(cfg, d), MarkedLines(cfg, LinesFrom(d, 0));
    OpenEntries(cfg, d);
    EndIsLate(entries, m, s, e, a, b);
    LateMeansWhole(cfg, ls, s, e, entries[b], m[b]);
  }

  /** Queries that end before the last entry lose nothing: they get a window with exactly the
      records in range, or there are none. */
  lemma EarlyQueryExact(cfg: Config, d: Bytes, s: nat, e: nat)
    requires OpenEnded(cfg, d) && s <= e && Index(cfg, d) != []
    requires e < Index(cfg, d)[|Index(cfg, d)| - 1].timestamp
    ensures !SomeCovers(Index(cfg, d), s, e) ==> AllRecords(cfg, d, s, e) == []
    ensures forall a: nat, b: nat :: IsWindow(Index(cfg, d), s, e, a, b) && StartsClean(cfg, Index(cfg, d), s, a) ==>
      WindowExact(cfg, d, s, e, a, b)
  {
    hide Index, LinesFrom, MarkedLines, Continuations, Sorted, Filter, Grouped, Within, WindowRecords, WindowExact;
    if !SomeCovers(Index(cfg, d), s, e) {
      NoneBeforeFirst(cfg, d, s, e);
    }
    forall a: nat, b: nat | IsWindow(Index(cfg, d), s, e, a, b) && StartsClean(cfg, Index(cfg, d), s, a)
      ensures WindowExact(cfg, d, s, e, a, b)
    {
      OpenWindowExactIff(cfg, d, s, e, a, b);
      LateTailWhole(cfg, d, s, e, a, b);
    }
  }

  lemma PartsDiffer(before: seq<Record>, between: seq<Record>, tail: seq<Record>, last: seq<Record>)
    requires tail != [] && |last| <= 1 && tail != last
    ensures before + (between + tail) != between + last
  {
    if |before| + |tail| == |last| {
      assert before == [];
      assert before + (between + tail) == between + tail;
      SamePrefix(between, tail, last);
    }
  }

  lemma LastLineContinues(cfg: Config, ls: seq<Line>, k: nat)
    requires cfg.stamp([]) == 0 && k < |ls| && IsHeader(cfg, ls, k) && Stampable(cfg, ls) && !Closes(cfg, ls)
    requires forall i :: k < i < |ls| ==> !IsHeader(cfg, ls, i)
    ensures k + 1 < |ls|
  {
  }

  lemma LastRecordSpoilsTail(cfg: Config, ts: seq<Bytes>, s: nat, e: nat, j: nat, k: nat)
    requires j <= k && k + 1 < |ts| && Header(cfg, ts[k]) && s <= cfg.stamp(ts[k]) <= e
    requires forall i :: k < i < |ts| ==> !Header(cfg, ts[i])
    ensures !TailWhole(cfg, ts, s, e, j)
  {
  }

  /** The last record of an open-ended log is never found whole: every query that has it in range has
      no window, although there is a record, or a window with other records than a full scan. With a
      single entry no query has a window at all. */
  lemma LastRecordNeverWhole(cfg: Config, d: Bytes, s: nat, e: nat, k: nat)
    requires OpenEnded(cfg, d) && k < |LinesFrom(d, 0)| && IsHeader(cfg, LinesFrom(d, 0), k)
    requires forall i :: k < i < |LinesFrom(d, 0)| ==> !IsHeader(cfg, LinesFrom(d, 0), i)
    requires s <= cfg.stamp(LinesFrom(d, 0)[k].text) <= e
    ensures AllRecords(cfg, d, s, e) != []
    ensures |Index(cfg, d)| == 1 ==> !SomeCovers(Index(cfg, d), s, e)
    ensures forall a: nat, b: nat :: IsWindow(Index(cfg, d), s, e, a, b) ==> !WindowExact(cfg, d, s, e, a, b)
  {
    hide Index, LinesFrom, MarkedLines, Continuations, Sorted, Assemble, Filter, Grouped, Within, WindowRecords, TailWhole;
    var ls, ts, m := LinesFrom(d, 0), Texts(LinesFrom(d, 0)), MarkedLines(cfg, LinesFrom(d, 0));
    SomeWithin(cfg, s, e, ts, k);
    LastLineContinues(cfg, ls, k);
    forall i | k < i < |ts| ensures !Header(cfg, ts[i]) {
      assert !IsHeader(cfg, ls, i);
    }
    forall a: nat, b: nat | IsWindow(Index(cfg, d), s, e, a, b) ensures !WindowExact(cfg, d, s, e, a, b) {
      OpenWindow(cfg, d, s, e, a, b);
      var j := m[b];
      assert j <= k;
      LastRecordSpoilsTail(cfg, ts, s, e, j, k);
      TailWholeIff(cfg, ts, s, e, j);
      WindowParts(cfg, ts, s, e, m[a], j);
      SomeWithin(cfg, s, e, ts[j..], k - j);
      var w := Within(s, e);
      PartsDiffer(Filter(w, Grouped(cfg, ts[..m[a]])), Filter(w, Grouped(cfg, ts[m[a]..j])),
        Filter(w, Grouped(cfg, ts[j..])), InRange(s, e, Record(cfg.stamp(ts[j]), ts[j])));
    }
  }
}
