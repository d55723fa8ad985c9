/** For which logs a search through the index is right for every query. */
module WindowExactness {
  import opened LogLines
  import opened TextIndexer
  import opened IndexShape
  import opened Records
  import opened LogSearch
  import opened IndexedScan

  /** The lines the entries of a regular log stand for, the closing one included. */
  ghost function Places(cfg: Config, d: Bytes): seq<nat>
    requires Regular(cfg, d)
  {
    MarkedLines(cfg, LinesFrom(d, 0)) + [|LinesFrom(d, 0)| - 1]
  }

  /** Line k comes before the j-th entry's line, but is later than that entry's floored time, and
      the entry after it is later than both. */
  ghost predicate Overtakes(cfg: Config, d: Bytes, j: nat, k: nat)
    requires Regular(cfg, d)
  {
    var ls, entries, at := LinesFrom(d, 0), Index(cfg, d), Places(cfg, d);
    && 0 < j < |entries| - 1 && |entries| == |at| && entries[j].timestamp < entries[j + 1].timestamp
    && k < at[j] && k < |ls| && IsHeader(cfg, ls, k) && cfg.stamp(ls[k].text) > entries[j].timestamp
  }

  /** Whenever the count splits a bucket, all the bucket's lines before its last entry are right
      at its floor. */
  ghost predicate SplitsAtFloor(cfg: Config, d: Bytes)
    requires Regular(cfg, d)
  {
    forall j: nat, k: nat :: !Overtakes(cfg, d, j, k)
  }

  ghost predicate WindowExact(cfg: Config, d: Bytes, s: nat, e: nat, a: nat, b: nat)
    requires cfg.interval > 0 && IsWindow(Index(cfg, d), s, e, a, b)
  {
    var entries := Index(cfg, d);
    entries[a].offset <= |d| &&
    WindowRecords(cfg, d, entries[a].offset, entries[b].offset, s, e) == AllRecords(cfg, d, s, e)
  }

  ghost predicate EveryQueryExact(cfg: Config, d: Bytes)
    requires cfg.interval > 0
  {
    forall s: nat, e: nat, a: nat, b: nat ::
      s <= e && IsWindow(Index(cfg, d), s, e, a, b) ==> WindowExact(cfg, d, s, e, a, b)
  }

  /** Cutting the lines in front of a header cuts the records in range. */
  lemma CutAtHeader(cfg: Config, ts: seq<Bytes>, s: nat, e: nat, a: nat)
    requires a < |ts| && Header(cfg, ts[a])
    ensures Filter(Within(s, e), Grouped(cfg, ts)) ==
      Filter(Within(s, e), Grouped(cfg, ts[..a])) + Filter(Within(s, e), Grouped(cfg, ts[a..]))
  {
    hide Grouped, Filter, Within;
    assert ts == ts[..a] + ts[a..];
    GroupedSplit(cfg, ts[..a], ts[a..]);
    FilterAppend(Within(s, e), Grouped(cfg, ts[..a]), Grouped(cfg, ts[a..]));
  }

  /** A header in range is a record in range. */
  lemma SomeWithin(cfg: Config, s: nat, e: nat, ts: seq<Bytes>, k: nat)
    requires k < |ts| && Header(cfg, ts[k]) && s <= cfg.stamp(ts[k]) <= e
    ensures Filter(Within(s, e), Grouped(cfg, ts)) != []
  {
    hide Filter, Grouped;
    var w, tail := Within(s, e), ts[k..];
    CutAtHeader(cfg, ts, s, e, k);
    GroupedOnce(cfg, tail);
    FilterFirst(w, FirstRecord(cfg, tail), Grouped(cfg, tail)[1..]);
    assert Grouped(cfg, tail) == [FirstRecord(cfg, tail)] + Grouped(cfg, tail)[1..];
  }

  lemma TailStaysLate(cfg: Config, ts: seq<Bytes>, e: nat, a: nat, b: nat)
    requires a <= b < |ts|
    requires forall i :: b <= i < |ts| && Header(cfg, ts[i]) ==> cfg.stamp(ts[i]) > e
    ensures forall i :: b - a <= i < |ts| - a && Header(cfg, ts[a..][i]) ==> cfg.stamp(ts[a..][i]) > e
  {
    forall i | b - a <= i < |ts| - a && Header(cfg, ts[a..][i]) ensures cfg.stamp(ts[a..][i]) > e {
      assert ts[a..][i] == ts[a + i];
    }
  }

  lemma TailAssembly(cfg: Config, ts: seq<Bytes>, s: nat, e: nat, a: nat, b: nat)
    requires cfg.stamp([]) == 0 && Sorted(cfg, ts)
    requires a <= b < |ts| && Header(cfg, ts[a]) && Header(cfg, ts[b])
    requires b == |ts| - 1 || forall i :: b <= i < |ts| && Header(cfg, ts[i]) ==> cfg.stamp(ts[i]) > e
    ensures Filter(Within(s, e), Grouped(cfg, ts)) ==
      Filter(Within(s, e), Grouped(cfg, ts[..a])) + Flush(Assemble(cfg, s, e, IDLE, ts[a..b + 1]))
  {
    hide Assemble, Grouped, Filter, Within, Sorted, Flush;
    CutAtHeader(cfg, ts, s, e, a);
    var tail := ts[a..];
    SortedSlice(cfg, ts, a, |ts|);
    assert ts[a..|ts|] == tail && tail[0..b - a + 1] == ts[a..b + 1];
    if b < |ts| - 1 {
      TailStaysLate(cfg, ts, e, a, b);
    }
    WindowAssembly(cfg, tail, s, e, 0, b - a);
  }

  /** Whatever the query, a window search finds exactly the in-range records from the line of the
      window's first entry on; it misses those before it. */
  lemma WindowMissesOnlyEarlier(cfg: Config, d: Bytes, s: nat, e: nat, a: nat, b: nat)
    requires Regular(cfg, d) && IsWindow(Index(cfg, d), s, e, a, b)
    ensures var ls, entries, at := LinesFrom(d, 0), Index(cfg, d), Places(cfg, d);
      && |entries| == |at| && at[a] < |ls| && entries[a].offset < |d| && entries[b].offset < |d|
      && AllRecords(cfg, d, s, e) ==
         Filter(Within(s, e), Grouped(cfg, Texts(ls)[..at[a]])) +
         WindowRecords(cfg, d, entries[a].offset, entries[b].offset, s, e)
  {
    hide Index, Continuations, MarkedLines, Assemble, Grouped, Filter, Within, WindowTexts, NoGaps, LinesFrom;
    var ls, entries, at := LinesFrom(d, 0), Index(cfg, d), Places(cfg, d);
    EntriesPlaced(cfg, d);
    WindowTop(cfg, ls, entries, at, s, e, a, b);
    assert OnHeader(cfg, ls, entries[a], at[a]) && OnHeader(cfg, ls, entries[b], at[b]);
    WindowBytes(d, at[a], at[b]);
    TailAssembly(cfg, Texts(ls), s, e, at[a], at[b]);
  }

  lemma FlooredWindowExact(cfg: Config, d: Bytes, s: nat, e: nat, a: nat, b: nat)
    requires Regular(cfg, d) && SplitsAtFloor(cfg, d) && s <= e && IsWindow(Index(cfg, d), s, e, a, b)
    ensures WindowExact(cfg, d, s, e, a, b)
  {
    hide Index, LinesFrom, Continuations, MarkedLines, Sorted, Filter, Grouped, Within, WindowRecords;
    var ls, entries, at := LinesFrom(d, 0), Index(cfg, d), Places(cfg, d);
    EntriesPlaced(cfg, d);
    WindowMissesOnlyEarlier(cfg, d, s, e, a, b);
    if a > 0 {
      StartIsEarly(cfg, d, s, e, a, b);
    }
    var before := Texts(ls)[..at[a]];
    forall i | 0 <= i < |before| && Header(cfg, before[i]) ensures cfg.stamp(before[i]) < s {
      assert before[i] == ls[i].text && IsHeader(cfg, ls, i);
      assert !Overtakes(cfg, d, a, i);
    }
    NoneWithin(cfg, s, e, before);
  }

  /** The query from just after an overtaken entry's time to the overtaking line's has its window
      start at that entry. */
  lemma OvertakenStart(cfg: Config, d: Bytes, j: nat, k: nat) returns (s: nat, e: nat, b: nat)
    requires Regular(cfg, d) && Overtakes(cfg, d, j, k)
    ensures s <= e == cfg.stamp(LinesFrom(d, 0)[k].text) && IsWindow(Index(cfg, d), s, e, j, b)
  {
    hide Index, LinesFrom, Continuations, MarkedLines, Sorted, OnHeaders, NoGaps;
    var entries := Index(cfg, d);
    s, e := entries[j].timestamp + 1, cfg.stamp(LinesFrom(d, 0)[k].text);
    EntriesPlaced(cfg, d);
    assert Covers(entries, j, s, e);
    WindowExists(entries, s, e);
    var a: nat, b': nat :| a < b' && IsWindow(entries, s, e, a, b');
    assert entries[a + 1].timestamp > entries[j].timestamp;
    assert a == j;
    b := b';
  }

  /** That query loses the overtaking line. */
  lemma SplitHides(cfg: Config, d: Bytes, j: nat, k: nat)
    requires Regular(cfg, d) && Overtakes(cfg, d, j, k)
    ensures !EveryQueryExact(cfg, d)
  {
    hide Index, LinesFrom, Continuations, MarkedLines, Sorted, Filter, Grouped, Within, WindowRecords, IsWindow;
    var s, e, b := OvertakenStart(cfg, d, j, k);
    WindowMissesOnlyEarlier(cfg, d, s, e, j, b);
    var before := Texts(LinesFrom(d, 0))[..Places(cfg, d)[j]];
    assert before[k] == LinesFrom(d, 0)[k].text;
    SomeWithin(cfg, s, e, before, k);
    assert !WindowExact(cfg, d, s, e, j, b);
  }

  /** On a regular log every query gets exactly the records of a full scan if and only if every
      split of a bucket happens at its floor. */
  lemma EveryQueryExactIff(cfg: Config, d: Bytes)
    requires Regular(cfg, d)
    ensures EveryQueryExact(cfg, d) <==> SplitsAtFloor(cfg, d)
  {
    hide Index, WindowExact, LinesFrom, Continuations, Sorted, Overtakes;
    if SplitsAtFloor(cfg, d) {
      forall s: nat, e: nat, a: nat, b: nat | s <= e && IsWindow(Index(cfg, d), s, e, a, b)
        ensures WindowExact(cfg, d, s, e, a, b)
      {
        FlooredWindowExact(cfg, d, s, e, a, b);
      }
    } else {
      var j: nat, k: nat :| Overtakes(cfg, d, j, k);
      SplitHides(cfg, d, j, k);
    }
  }

  // ----- A log that has grown since it was indexed

  function InRange(s: nat, e: nat, r: Record): seq<Record> {
    if s <= r.stamp <= e then [r] else []
  }

  lemma {:induction false} NoHeaders(cfg: Config, ts: seq<Bytes>)
    requires forall i :: 0 <= i < |ts| ==> !Header(cfg, ts[i])
    ensures Continuations(cfg, ts) == |ts|
    decreases |ts|
  {
    if ts != [] {
      NoHeaders(cfg, ts[1..]);
    }
  }

  lemma LoneHeader(cfg: Config, s: nat, e: nat, h: Bytes, more: seq<Bytes>)
    requires Header(cfg, h) && forall i :: 0 <= i < |more| ==> !Header(cfg, more[i])
    ensures Filter(Within(s, e), Grouped(cfg, [h] + more)) == InRange(s, e, Record(cfg.stamp(h), Joined(h, more)))
  {
    hide Joined;
    var ts := [h] + more;
    NoHeaders(cfg, more);
    assert ts[1..] == more && more[..|more|] == more && more[|more|..] == [];
    assert Grouped(cfg, ts) == [Record(cfg.stamp(h), Joined(h, more))] + Grouped(cfg, []);
    FilterFirst(Within(s, e), Record(cfg.stamp(h), Joined(h, more)), []);
  }

  lemma JoinedNothing(h: Bytes)
    ensures Joined(h, []) == h
  {
  }

  /** A header with everything after it: its own record, then the records from the next header on. */
  lemma TailRecords(cfg: Config, s: nat, e: nat, h: Bytes, more: seq<Bytes>)
    requires Header(cfg, h)
    ensures var c := Continuations(cfg, more);
      Filter(Within(s, e), Grouped(cfg, [h] + more)) ==
      InRange(s, e, Record(cfg.stamp(h), Joined(h, more[..c]))) + Filter(Within(s, e), Grouped(cfg, more[c..]))
  {
    hide Joined, Grouped, Filter, Continuations;
    var c := Continuations(cfg, more);
    GroupedOnce(cfg, [h] + more);
    assert ([h] + more)[1..] == more;
    FilterFirst(Within(s, e), Record(cfg.stamp(h), Joined(h, more[..c])), Grouped(cfg, more[c..]));
  }

  lemma RegularEnds(cfg: Config, d: Bytes)
    requires Regular(cfg, d)
    ensures var ts := Texts(LinesFrom(d, 0)); ts != [] && Header(cfg, ts[|ts| - 1])
  {
  }

  lemma OldRecords(cfg: Config, ts: seq<Bytes>, s: nat, e: nat)
    requires ts != [] && Header(cfg, ts[|ts| - 1])
    ensures var n := |ts| - 1;
      Filter(Within(s, e), Grouped(cfg, ts)) ==
      Filter(Within(s, e), Grouped(cfg, ts[..n])) + InRange(s, e, Record(cfg.stamp(ts[n]), ts[n]))
  {
    hide Grouped, Filter, Within, Joined;
    var n := |ts| - 1;
    CutAtHeader(cfg, ts, s, e, n);
    assert ts[n..] == [ts[n]] + [];
    LoneHeader(cfg, s, e, ts[n], []);
    JoinedNothing(ts[n]);
  }

  lemma NewRecords(cfg: Config, ts: seq<Bytes>, more: seq<Bytes>, s: nat, e: nat)
    requires ts != [] && Header(cfg, ts[|ts| - 1])
    ensures var n, c := |ts| - 1, Continuations(cfg, more);
      Filter(Within(s, e), Grouped(cfg, ts + more)) ==
      Filter(Within(s, e), Grouped(cfg, ts[..n])) +
      (InRange(s, e, Record(cfg.stamp(ts[n]), Joined(ts[n], more[..c]))) +
       Filter(Within(s, e), Grouped(cfg, more[c..])))
  {
    hide Grouped, Filter, Within, Joined, Continuations;
    var n := |ts| - 1;
    CutAtHeader(cfg, ts + more, s, e, n);
    assert (ts + more)[..n] == ts[..n] && (ts + more)[n..] == [ts[n]] + more;
    TailRecords(cfg, s, e, ts[n], more);
  }

  /** How the records of a log grow: those before its last line stay, the last line's record gets
      the continuation lines that have arrived, and the records of the new headers follow. */
  lemma GrownRecords(cfg: Config, d0: Bytes, d: Bytes, s: nat, e: nat)
    requires Regular(cfg, d0) && d0 <= d
    ensures LinesFrom(d0, 0) <= LinesFrom(d, 0)
    ensures var ts0 := Texts(LinesFrom(d0, 0));
      var n, more := |ts0| - 1, Texts(LinesFrom(d, 0))[|ts0|..];
      var c, earlier, t := Continuations(cfg, more), Filter(Within(s, e), Grouped(cfg, ts0[..n])), cfg.stamp(ts0[n]);
      && AllRecords(cfg, d0, s, e) == earlier + InRange(s, e, Record(t, ts0[n]))
      && AllRecords(cfg, d, s, e) ==
           earlier + InRange(s, e, Record(t, Joined(ts0[n], more[..c]))) + Filter(Within(s, e), Grouped(cfg, more[c..]))
  {
    hide LinesFrom, Grouped, Filter, Within, Joined, Sorted, Continuations, Regular;
    LinesOfPrefix(d0, d);
    var ts0, ts := Texts(LinesFrom(d0, 0)), Texts(LinesFrom(d, 0));
    RegularEnds(cfg, d0);
    assert ts == ts0 + ts[|ts0|..];
    OldRecords(cfg, ts0, s, e);
    NewRecords(cfg, ts0, ts[|ts0|..], s, e);
  }

  /** A window of the old index reads the same lines from the grown log as from the old one. */
  lemma OldWindowReads(cfg: Config, d0: Bytes, d: Bytes, s: nat, e: nat, a: nat, b: nat)
    requires Regular(cfg, d0) && d0 <= d && IsWindow(Index(cfg, d0), s, e, a, b)
    ensures var entries := Index(cfg, d0);
      && entries[a].offset < |d0| && entries[b].offset < |d0|
      && WindowRecords(cfg, d, entries[a].offset, entries[b].offset, s, e) ==
         WindowRecords(cfg, d0, entries[a].offset, entries[b].offset, s, e)
  {
    hide Index, Continuations, MarkedLines, Assemble, WindowTexts, NoGaps, LinesFrom;
    var ls, entries, at := LinesFrom(d0, 0), Index(cfg, d0), Places(cfg, d0);
    EntriesPlaced(cfg, d0);
    WindowTop(cfg, ls, entries, at, s, e, a, b);
    assert OnHeader(cfg, ls, entries[a], at[a]) && OnHeader(cfg, ls, entries[b], at[b]);
    LinesOfPrefix(d0, d);
    WindowBytes(d0, at[a], at[b]);
    WindowBytes(d, at[a], at[b]);
    assert Texts(LinesFrom(d, 0))[at[a]..at[b] + 1] == Texts(ls)[at[a]..at[b] + 1];
  }

  // ----- The search of one path

  ghost predicate CleanQuery(cfg: Config, entries: seq<TimeIndex>, s: nat, e: nat) {
    forall a: nat, b: nat :: IsWindow(entries, s, e, a, b) ==> StartsClean(cfg, entries, s, a)
  }

  /** Nothing is lost in the window that a query finds in the index of the log. */
  lemma WindowIsRight(cfg: Config, d: Bytes, s: nat, e: nat, a: nat, b: nat)
    requires Regular(cfg, d) && s <= e && IsWindow(Index(cfg, d), s, e, a, b)
    requires CleanQuery(cfg, Index(cfg, d), s, e) || SplitsAtFloor(cfg, d)
    ensures WindowExact(cfg, d, s, e, a, b)
  {
    hide Index, LinesFrom, Sorted, Continuations, WindowRecords, AllRecords, SplitsAtFloor;
    if SplitsAtFloor(cfg, d) {
      FlooredWindowExact(cfg, d, s, e, a, b);
    } else {
      WindowAgreesWithScan(cfg, d, s, e, a, b);
    }
  }

  /** Find the window and search it, as `search` does for each path, with the index of the log `d`
      or of an older version `d0` of it. On a regular log, if the query starts clean or the splits
      are at their floors, the results are those of a scan of the whole version `d0`, up to the
      limit; and when no window is found, no record of it is in range. */
  method SearchPath(searcher: LogSearcher, ctx: SearchContext, entries: seq<TimeIndex>, d: Bytes, ghost d0: Bytes)
    returns (found: bool)
    requires ctx.View() == IDLE && ctx.matchedLines == [] && ctx.status == 0 && ctx.searchers != []
    modifies ctx
    ensures Regular(searcher.cfg, d0) && d0 <= d && entries == Index(searcher.cfg, d0) && ctx.startTime <= ctx.endTime &&
            (CleanQuery(searcher.cfg, entries, ctx.startTime, ctx.endTime) || SplitsAtFloor(searcher.cfg, d0)) ==>
      var all := AllRecords(searcher.cfg, d0, ctx.startTime, ctx.endTime);
      if found then ctx.status == 0 && FirstMatches(ctx, Filter(Accepted(ctx.searchers), all)) else all == []
  {
    hide Index, LinesFrom, Sorted, Continuations, Accepted, Filter, WindowRecords, AllRecords, FirstMatches;
    hide SplitsAtFloor, CleanQuery;
    var s, e := ctx.startTime, ctx.endTime;
    ghost var cfg := searcher.cfg;
    ghost var known := Regular(cfg, d0) && d0 <= d && entries == Index(cfg, d0) && s <= e;
    found := searcher.FindIndexPos(ctx, entries);
    if !found {
      if known {
        NoWindowNoRecords(cfg, d0, s, e);
      }
      return;
    }
    ghost var a: nat, b: nat :| IsWindow(entries, s, e, a, b) &&
      ctx.indexStartPos == entries[a].offset && ctx.indexEndPos == entries[b].offset;
    searcher.SearchFileTxt(ctx, d);
    if known && (CleanQuery(cfg, entries, s, e) || SplitsAtFloor(cfg, d0)) {
      WindowIsRight(cfg, d0, s, e, a, b);
      OldWindowReads(cfg, d0, d, s, e, a, b);
    }
  }
}
