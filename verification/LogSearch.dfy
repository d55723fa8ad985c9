/** Searching one text file through a window of its index (`LogSearcher`). */
module LogSearch {
  import opened LogLines
  import opened TextIndexer
  import opened Records
  import QueryParser
  import QueryMatch
  import QueryMeaning

  const MAX_BATCH_MATCHES: nat := 500

  /** A compiled query; a regular expression is an arbitrary predicate on lines. */
  datatype Searcher =
    | Simple(word: Bytes)
    | Boolean(node: QueryParser.Node)
    | Regex(matches: Bytes -> bool)

  ghost predicate Accepts(q: Searcher, text: Bytes) {
    match q
    case Simple(w) => QueryMatch.Contains(text, w)
    case Boolean(n) => QueryMatch.Holds(n, text)
    case Regex(p) => p(text)
  }

  /** A record is a result when every searcher accepts its text. */
  ghost function Accepted(qs: seq<Searcher>): Record -> bool {
    (r: Record) => forall i :: 0 <= i < |qs| ==> Accepts(qs[i], r.text)
  }

  ghost function AcceptedBy(q: Searcher): Record -> bool {
    (r: Record) => Accepts(q, r.text)
  }

  lemma OneMoreSearcher(qs: seq<Searcher>, q: Searcher, r: Record)
    ensures Accepted(qs + [q])(r) <==> Accepted(qs)(r) && AcceptedBy(q)(r)
  {
    assert forall i :: 0 <= i < |qs| ==> (qs + [q])[i] == qs[i];
    assert (qs + [q])[|qs|] == q;
  }

  /** One more searcher filters the results of the others further; without any, all are results. */
  lemma {:induction false} AcceptedNarrows(qs: seq<Searcher>, q: Searcher, rs: seq<Record>)
    ensures Filter(Accepted(qs + [q]), rs) == Filter(AcceptedBy(q), Filter(Accepted(qs), rs))
    ensures Filter(Accepted([]), rs) == rs
    decreases |rs|
  {
    hide Filter;
    FilterNone(Accepted(qs + [q]), []);
    FilterNone(Accepted(qs), []);
    FilterNone(Accepted([]), []);
    FilterNone(AcceptedBy(q), []);
    if rs != [] {
      var r, rest := rs[0], rs[1..];
      AcceptedNarrows(qs, q, rest);
      assert rs == [r] + rest;
      OneMoreSearcher(qs, q, r);
      FilterFirst(Accepted(qs + [q]), r, rest);
      FilterFirst(Accepted(qs), r, rest);
      FilterFirst(Accepted([]), r, rest);
      var inner := Filter(Accepted(qs), rest);
      FilterFirst(AcceptedBy(q), r, inner);
      assert [] + inner == inner && [] + Filter(AcceptedBy(q), inner) == Filter(AcceptedBy(q), inner);
    }
  }

  /** A simple searcher accepts the texts that can be cut into something, its word and something,
      just as the boolean searcher of that word; a regular expression's verdict is taken as it is. */
  lemma SearcherKinds(w: Bytes, matches: Bytes -> bool, text: Bytes)
    ensures Accepts(Simple(w), text) <==> exists a, b :: text == a + w + b
    ensures Accepts(Simple(w), text) <==> Accepts(Boolean(QueryParser.Leaf(w)), text)
    ensures Accepts(Regex(matches), text) <==> matches(text)
  {
    QueryMeaning.ContainsIff(text, w);
  }

  function First(n: nat, rs: seq<Record>): seq<Record> {
    if |rs| <= n then rs else rs[..n]
  }

  // ----- The index window

  predicate Covers(entries: seq<TimeIndex>, i: nat, s: nat, e: nat)
    requires i + 1 < |entries|
  {
    entries[i].timestamp <= e && entries[i + 1].timestamp >= s
  }

  ghost predicate SomeCovers(entries: seq<TimeIndex>, s: nat, e: nat) {
    exists i: nat :: i + 1 < |entries| && Covers(entries, i, s, e)
  }

  /** The window reaches from the first covering pair of neighbouring entries to the last. */
  ghost predicate IsWindow(entries: seq<TimeIndex>, s: nat, e: nat, a: nat, b: nat) {
    && a < b < |entries| && Covers(entries, a, s, e) && Covers(entries, b - 1, s, e)
    && forall i: nat :: i + 1 < |entries| && Covers(entries, i, s, e) ==> a <= i < b
  }

  lemma {:induction false} FirstCover(entries: seq<TimeIndex>, s: nat, e: nat, i: nat) returns (a: nat)
    requires i + 1 < |entries| && Covers(entries, i, s, e)
    ensures a <= i && Covers(entries, a, s, e)
    ensures forall k: nat :: k + 1 < |entries| && Covers(entries, k, s, e) ==> a <= k
    decreases i
  {
    a := i;
    if exists k: nat :: k < i && Covers(entries, k, s, e) {
      var k: nat :| k < i && Covers(entries, k, s, e);
      a := FirstCover(entries, s, e, k);
    }
  }

  lemma {:induction false} LastCover(entries: seq<TimeIndex>, s: nat, e: nat, i: nat) returns (b: nat)
    requires i + 1 < |entries| && Covers(entries, i, s, e)
    ensures i <= b && b + 1 < |entries| && Covers(entries, b, s, e)
    ensures forall k: nat :: k + 1 < |entries| && Covers(entries, k, s, e) ==> k <= b
    decreases |entries| - i
  {
    b := i;
    if exists k: nat :: i < k && k + 1 < |entries| && Covers(entries, k, s, e) {
      var k: nat :| i < k && k + 1 < |entries| && Covers(entries, k, s, e);
      b := LastCover(entries, s, e, k);
    }
  }

  lemma WindowExists(entries: seq<TimeIndex>, s: nat, e: nat)
    requires SomeCovers(entries, s, e)
    ensures exists a: nat, b: nat :: a < b && IsWindow(entries, s, e, a, b)
  {
    var i: nat :| i + 1 < |entries| && Covers(entries, i, s, e);
    var a := FirstCover(entries, s, e, i);
    var b := LastCover(entries, s, e, i);
    assert IsWindow(entries, s, e, a, b + 1);
  }

  // ----- Reading lines

  /** The lines `getline` gives from `start` until one has been read that ends past `end`; the
      last one need not be terminated. */
  function WindowTexts(d: Bytes, start: nat, end: nat): seq<Bytes>
    requires start <= |d|
    decreases |d| - start
  {
    if start == |d| then []
    else
      var k := NextNewline(d, start);
      [d[start..k]] + if k == |d| || k + 1 > end then [] else WindowTexts(d, k + 1, end)
  }

  /** What the searcher collects from lines before batching and the limit come in. */
  ghost function WindowRecords(cfg: Config, d: Bytes, start: nat, end: nat, s: nat, e: nat): seq<Record>
    requires start <= |d|
  {
    Flush(Assemble(cfg, s, e, IDLE, WindowTexts(d, start, end)))
  }

  class SearchContext {
    const searchers: seq<Searcher>
    const maxResults: nat
    const startTime: nat
    const endTime: nat
    var indexStartPos: nat
    var indexEndPos: nat
    var tmpLine: Bytes
    var tmpTime: nat
    var logLines: seq<Record>
    var matchedLines: seq<Record>
    var status: nat

    constructor (searchers: seq<Searcher>, maxResults: nat, startTime: nat, endTime: nat)
      ensures this.searchers == searchers && this.maxResults == maxResults
      ensures this.startTime == startTime && this.endTime == endTime
      ensures View() == IDLE && matchedLines == [] && status == 0
    {
      this.searchers, this.maxResults := searchers, maxResults;
      this.startTime, this.endTime := startTime, endTime;
      indexStartPos, indexEndPos := 0, 0;
      tmpLine, tmpTime, logLines, matchedLines, status := [], 0, [], [], 0;
    }

    /** The record being assembled and those waiting to be searched. */
    ghost function View(): Assembly
      reads this
    {
      Assembly(tmpLine, tmpTime, logLines)
    }
  }

  /** Below the limit: every match among the searched records has been kept. */
  ghost predicate Progress(ctx: SearchContext, searched: seq<Record>)
    reads ctx`matchedLines
  {
    && ctx.matchedLines == Filter(Accepted(ctx.searchers), searched)
    && (|ctx.matchedLines| < ctx.maxResults || (ctx.maxResults == 0 && searched == []))
  }

  /** The results are the first of `all` up to the limit, with at most one record too many. */
  ghost predicate FirstMatches(ctx: SearchContext, all: seq<Record>)
    reads ctx`matchedLines
  {
    && First(ctx.maxResults, ctx.matchedLines) == First(ctx.maxResults, all)
    && |ctx.matchedLines| <= ctx.maxResults + (if ctx.maxResults == 0 then 2 else 1)
  }

  /** At the limit: the first matches among the searched records, and nothing waiting. */
  ghost predicate Stopped(ctx: SearchContext, searched: seq<Record>)
    reads ctx
  {
    && ctx.logLines == []
    && ctx.maxResults <= |ctx.matchedLines| <= (if ctx.maxResults == 0 then 1 else ctx.maxResults)
    && ctx.maxResults <= |Filter(Accepted(ctx.searchers), searched)|
    && First(ctx.maxResults, ctx.matchedLines) == First(ctx.maxResults, Filter(Accepted(ctx.searchers), searched))
  }

  lemma WindowNext(d: Bytes, start: nat, end: nat)
    requires start <= |d|
    ensures WindowTexts(d, start, end) ==
      if start == |d| then []
      else
        var k := NextNewline(d, start);
        [d[start..k]] + if k == |d| || k + 1 > end then [] else WindowTexts(d, k + 1, end)
  {
  }

  /** Why the final flush keeps the first results right, with the limit reached or not. */
  lemma FinishedIsFirst(p: Record -> bool, max: nat, searched: seq<Record>, rest: seq<Record>,
                        total: seq<Record>, before: seq<Record>, after: seq<Record>)
    requires after ==
      if |before| < max then First(max, before + Filter(p, rest)) else before + Filter(p, First(1, rest))
    requires
      || (total == searched + rest && before == Filter(p, searched) && (|before| < max || (max == 0 && searched == [])))
      || (searched <= total && max <= |before| <= (if max == 0 then 1 else max) && max <= |Filter(p, searched)| &&
          First(max, before) == First(max, Filter(p, searched)))
    ensures First(max, after) == First(max, Filter(p, total))
    ensures |after| <= max + (if max == 0 then 2 else 1)
  {
    FilterShort(p, First(1, rest));
    FilterNone(p, []);
    if |before| < max {
      FilterAppend(p, searched, rest);
    } else {
      FilterAppend(p, searched, total[|searched|..]);
      assert searched <= total ==> total == searched + total[|searched|..];
    }
  }

  /** One line more, with records already searched put in front. */
  lemma AssembleNext(cfg: Config, s: nat, e: nat, a: Assembly, searched: seq<Record>, ts: seq<Bytes>)
    requires ts != []
    ensures var b := ParseStep(cfg, s, e, a, ts[0]);
      Assemble(cfg, s, e, a.(out := searched + a.out), ts) ==
      Assemble(cfg, s, e, b.(out := searched + b.out), ts[1..])
  {
    assert searched + Flush(a) == Flush(a.(out := searched + a.out));
  }

  lemma AssembleNothing(cfg: Config, s: nat, e: nat, a: Assembly)
    ensures Assemble(cfg, s, e, a, []) == a
  {
  }

  lemma {:induction false} AssembleGrows(cfg: Config, s: nat, e: nat, a: Assembly, ts: seq<Bytes>)
    ensures a.out <= Assemble(cfg, s, e, a, ts).out
    decreases |ts|
  {
    if ts != [] {
      AssembleGrows(cfg, s, e, ParseStep(cfg, s, e, a, ts[0]), ts[1..]);
    }
  }

  lemma FilterSnoc(p: Record -> bool, rs: seq<Record>, i: nat)
    requires i < |rs|
    ensures Filter(p, rs[..i + 1]) == Filter(p, rs[..i]) + (if p(rs[i]) then [rs[i]] else [])
  {
    assert rs[..i + 1] == rs[..i] + [rs[i]];
    FilterAppend(p, rs[..i], [rs[i]]);
    FilterFirst(p, rs[i], []);
    assert [rs[i]] + [] == [rs[i]];
  }

  lemma FilterSplit(p: Record -> bool, rs: seq<Record>, i: nat)
    requires i <= |rs|
    ensures Filter(p, rs) == Filter(p, rs[..i]) + Filter(p, rs[i..])
  {
    hide Filter;
    FilterAppend(p, rs[..i], rs[i..]);
    assert rs == rs[..i] + rs[i..];
  }

  /** Stopping after record i because the limit is reached loses nothing below the limit. */
  lemma LimitReached(p: Record -> bool, before: seq<Record>, batch: seq<Record>, i: nat, max: nat)
    requires i <= |batch|
    requires var found := before + Filter(p, batch[..i]);
      || (i == |batch| && (i > 0 ==> |found| < max))
      || (i > 0 && |found| >= max && (i > 1 ==> |before| + |Filter(p, batch[..i - 1])| < max))
    ensures var found := before + Filter(p, batch[..i]);
      if |before| < max then found == First(max, before + Filter(p, batch))
      else found == before + Filter(p, First(1, batch))
  {
    FilterSplit(p, batch, i);
    if i > 0 {
      FilterSnoc(p, batch, i - 1);
    }
  }

  lemma FlushedGoal(goal: Assembly, a: Assembly, searched: seq<Record>)
    ensures goal == a.(out := searched + a.out) ==> Flush(goal) == searched + Flush(a)
    ensures searched <= goal.out ==> searched <= Flush(goal)
  {
  }

  // ----- What every result satisfies

  /** In the time range, and accepted by each of the searchers. */
  ghost predicate AllFit(qs: seq<Searcher>, s: nat, e: nat, rs: seq<Record>) {
    forall r :: r in rs ==> s <= r.stamp <= e && forall q :: q in qs ==> Accepts(q, r.text)
  }

  ghost predicate RangeKept(s: nat, e: nat, a: Assembly) {
    (forall r :: r in a.out ==> s <= r.stamp <= e) && (a.tmp != [] ==> s <= a.tmpStamp <= e)
  }

  lemma StepKeepsRange(cfg: Config, s: nat, e: nat, a: Assembly, line: Bytes)
    requires RangeKept(s, e, a)
    ensures RangeKept(s, e, ParseStep(cfg, s, e, a, line))
  {
  }

  lemma BatchDropped(s: nat, e: nat, a: Assembly)
    requires RangeKept(s, e, a)
    ensures RangeKept(s, e, a.(out := [])) && forall r :: r in a.out ==> s <= r.stamp <= e
  {
  }

  lemma {:induction false} FilteredFit(qs: seq<Searcher>, s: nat, e: nat, rs: seq<Record>)
    requires forall r :: r in rs ==> s <= r.stamp <= e
    ensures AllFit(qs, s, e, Filter(Accepted(qs), rs))
    decreases |rs|
  {
    if rs != [] {
      FilteredFit(qs, s, e, rs[1..]);
    }
  }

  /** Searching a batch keeps all results fitting. */
  lemma FoundFit(qs: seq<Searcher>, s: nat, e: nat, max: nat, before: seq<Record>, batch: seq<Record>)
    requires AllFit(qs, s, e, before) && forall r :: r in batch ==> s <= r.stamp <= e
    ensures AllFit(qs, s, e, First(max, before + Filter(Accepted(qs), batch)))
    ensures AllFit(qs, s, e, before + Filter(Accepted(qs), First(1, batch)))
  {
    hide Filter, Accepted;
    FilteredFit(qs, s, e, batch);
    FilteredFit(qs, s, e, First(1, batch));
  }

  /** What has been collected is in range, and what has been found fits. */
  ghost predicate Fitting(ctx: SearchContext)
    reads ctx
  {
    && RangeKept(ctx.startTime, ctx.endTime, ctx.View())
    && AllFit(ctx.searchers, ctx.startTime, ctx.endTime, ctx.matchedLines)
  }

  class LogSearcher {
    const cfg: Config

    constructor (cfg: Config)
      ensures this.cfg == cfg
    {
      this.cfg := cfg;
    }

    method ParseLine(ctx: SearchContext, line: Bytes)
      modifies ctx`tmpLine, ctx`tmpTime, ctx`logLines
      ensures ctx.View() == ParseStep(cfg, ctx.startTime, ctx.endTime, old(ctx.View()), line)
      ensures old(Fitting(ctx)) ==> Fitting(ctx)
    {
      var ts := cfg.stamp(line);
      if ts == 0 {
        if ctx.tmpLine != [] {
          ctx.tmpLine := ctx.tmpLine + [NEWLINE] + line;
        }
      } else {
        if ts < ctx.startTime {
          return;
        }
        if ctx.tmpLine != [] {
          ctx.logLines := ctx.logLines + [Record(ctx.tmpTime, ctx.tmpLine)];
          ctx.tmpLine := [];
        }
        if ts > ctx.endTime {
          return;
        }
        ctx.tmpLine := line;
        ctx.tmpTime := ts;
      }
    }

    method AcceptsAll(searchers: seq<Searcher>, r: Record) returns (ok: bool)
      ensures ok <==> Accepted(searchers)(r)
    {
      for i := 0 to |searchers|
        invariant forall k :: 0 <= k < i ==> Accepts(searchers[k], r.text)
      {
        var one: bool;
        match searchers[i] {
          case Simple(w) =>
            var pos := QueryMatch.Find(r.text, w);
            one := pos >= 0;
          case Boolean(n) =>
            var matched;
            one, matched := QueryMatch.MatchNode(n, r.text, false, []);
          case Regex(p) =>
            one := p(r.text);
        }
        if !one {
          return false;
        }
      }
      return true;
    }

    /** Search the waiting records in order until the limit is reached; the limit is tested after
        a record is pushed, so a full list can still grow by one. */
    method ExecSearchers(ctx: SearchContext) returns (ok: bool)
      modifies ctx`matchedLines
      ensures ok == (ctx.searchers != [])
      ensures !ok ==> ctx.matchedLines == old(ctx.matchedLines)
      ensures ok && |old(ctx.matchedLines)| < ctx.maxResults ==>
        ctx.matchedLines ==
        First(ctx.maxResults, old(ctx.matchedLines) + Filter(Accepted(ctx.searchers), ctx.logLines))
      ensures ok && |old(ctx.matchedLines)| >= ctx.maxResults ==>
        ctx.matchedLines ==
        old(ctx.matchedLines) + Filter(Accepted(ctx.searchers), First(1, ctx.logLines))
      ensures old(Fitting(ctx)) ==> Fitting(ctx)
    {
      hide Filter, Accepted, First, AllFit, RangeKept;
      if ctx.searchers == [] {
        return false;
      }
      ok := true;
      ghost var p, before, batch := Accepted(ctx.searchers), ctx.matchedLines, ctx.logLines;
      var i := 0;
      FilterNone(p, batch[..0]);
      while i < |ctx.logLines|
        invariant 0 <= i <= |batch| && ctx.logLines == batch
        invariant ctx.matchedLines == before + Filter(p, batch[..i])
        invariant i > 0 ==> |ctx.matchedLines| < ctx.maxResults
      {
        FilterSnoc(p, batch, i);
        var matched := AcceptsAll(ctx.searchers, ctx.logLines[i]);
        if matched {
          ctx.matchedLines := ctx.matchedLines + [ctx.logLines[i]];
        }
        i := i + 1;
        if |ctx.matchedLines| >= ctx.maxResults {
          break;
        }
      }
      LimitReached(p, before, batch, i, ctx.maxResults);
      if old(Fitting(ctx)) {
        BatchDropped(ctx.startTime, ctx.endTime, ctx.View());
        FoundFit(ctx.searchers, ctx.startTime, ctx.endTime, ctx.maxResults, before, batch);
      }
    }

    /** The offsets of the first and last entry whose neighbouring pair covers the time range. */
    method FindIndexPos(ctx: SearchContext, entries: seq<TimeIndex>) returns (found: bool)
      modifies ctx`indexStartPos, ctx`indexEndPos
      ensures found <==> SomeCovers(entries, ctx.startTime, ctx.endTime)
      ensures found ==> exists a: nat, b: nat ::
        (IsWindow(entries, ctx.startTime, ctx.endTime, a, b) &&
         ctx.indexStartPos == entries[a].offset && ctx.indexEndPos == entries[b].offset)
      ensures !found ==> ctx.indexStartPos == old(ctx.indexStartPos) && ctx.indexEndPos == old(ctx.indexEndPos)
    {
      var s, e := ctx.startTime, ctx.endTime;
      found := false;
      if entries == [] {
        return;
      }
      var startIdx: nat, endIdx: nat := 0, 0;
      var i := 0;
      while i < |entries| - 1
        invariant 0 <= i <= |entries| - 1
        invariant !found ==> forall k: nat :: k < i ==> !Covers(entries, k, s, e)
        invariant found ==> startIdx < endIdx <= i && Covers(entries, startIdx, s, e) && Covers(entries, endIdx - 1, s, e)
        invariant found ==> forall k: nat :: k < i && Covers(entries, k, s, e) ==> startIdx <= k < endIdx
      {
        if Covers(entries, i, s, e) {
          if !found {
            startIdx := i;
          }
          endIdx := i + 1;
          found := true;
        }
        i := i + 1;
      }
      if found {
        assert IsWindow(entries, s, e, startIdx, endIdx);
        ctx.indexStartPos := entries[startIdx].offset;
        ctx.indexEndPos := entries[endIdx].offset;
      }
    }

    /** `getline` from inside the file: the line, where the next one starts, and whether the file has
        ended without a newline. */
    method GetLine(d: Bytes, pos: nat, ghost end: nat) returns (line: Bytes, next: nat, last: bool)
      requires pos < |d|
      ensures pos < next && (!last ==> next <= |d|)
      ensures var texts := WindowTexts(d, pos, end);
        texts != [] && texts[0] == line &&
        texts[1..] == if last || next > end then [] else WindowTexts(d, next, end)
    {
      WindowNext(d, pos, end);
      var lineEnd := NextNewline(d, pos);
      line, next, last := d[pos..lineEnd], lineEnd + 1, lineEnd == |d|;
    }

    /** Search a full batch and start a new one. */
    method SearchBatch(ctx: SearchContext, ghost before: seq<Record>) returns (ghost searched: seq<Record>)
      requires ctx.searchers != [] && Progress(ctx, before)
      modifies ctx`logLines, ctx`matchedLines
      ensures searched == before + old(ctx.logLines) && ctx.logLines == []
      ensures if |ctx.matchedLines| >= ctx.maxResults then Stopped(ctx, searched) else Progress(ctx, searched)
      ensures old(Fitting(ctx)) ==> Fitting(ctx)
    {
      hide Accepted, Filter, AllFit, RangeKept;
      FilterAppend(Accepted(ctx.searchers), before, ctx.logLines);
      FilterShort(Accepted(ctx.searchers), First(1, ctx.logLines));
      FilterNone(Accepted(ctx.searchers), []);
      var ok := ExecSearchers(ctx);
      searched := before + ctx.logLines;
      if Fitting(ctx) {
        BatchDropped(ctx.startTime, ctx.endTime, ctx.View());
      }
      ctx.logLines := [];
    }

    /** The reading loop: parse lines and search full batches, until the window has been read
        (`more` is empty) or the limit stops it. Returns the records searched so far. */
    method ReadWindow(ctx: SearchContext, d: Bytes, ghost goal: Assembly) returns (ghost searched: seq<Record>)
      requires ctx.indexStartPos < |d| && ctx.searchers != []
      requires ctx.View() == IDLE && ctx.matchedLines == []
      requires goal == Assemble(cfg, ctx.startTime, ctx.endTime, IDLE,
        WindowTexts(d, ctx.indexStartPos, ctx.indexEndPos))
      modifies ctx`tmpLine, ctx`tmpTime, ctx`logLines, ctx`matchedLines, ctx`status
      ensures ctx.status == old(ctx.status)
      ensures (Progress(ctx, searched) && goal == Assembly(ctx.tmpLine, ctx.tmpTime, searched + ctx.logLines)) ||
        (Stopped(ctx, searched) && searched <= goal.out)
      ensures Fitting(ctx)
    {
      FilteredFit(ctx.searchers, ctx.startTime, ctx.endTime, []);
      hide WindowTexts, Accepted, Filter, Assemble, ParseStep, AllFit;
      searched := [];
      ghost var cur := IDLE;
      var pos := ctx.indexStartPos;
      ghost var texts := WindowTexts(d, pos, ctx.indexEndPos);
      FilterNone(Accepted(ctx.searchers), []);
      while pos < |d|
        invariant pos <= |d|
        invariant texts == WindowTexts(d, pos, ctx.indexEndPos)
        invariant Progress(ctx, searched) && ctx.status == old(ctx.status)
        invariant cur == Assembly(ctx.tmpLine, ctx.tmpTime, searched + ctx.logLines)
        invariant Assemble(cfg, ctx.startTime, ctx.endTime, cur, texts) == goal
        invariant Fitting(ctx)
      {
        hide Fitting, Progress, Stopped;
        var line, next, last := GetLine(d, pos, ctx.indexEndPos);
        AssembleNext(cfg, ctx.startTime, ctx.endTime, ctx.View(), searched, texts);
        texts := texts[1..];
        ParseLine(ctx, line);
        cur := ctx.View().(out := searched + ctx.logLines);
        if last || next > ctx.indexEndPos {
          AssembleNothing(cfg, ctx.startTime, ctx.endTime, cur);
          return;
        }
        pos := next;
        if |ctx.logLines| >= MAX_BATCH_MATCHES {
          AssembleGrows(cfg, ctx.startTime, ctx.endTime, cur, texts);
          searched := SearchBatch(ctx, searched);
          if |ctx.matchedLines| >= ctx.maxResults {
            return;
          }
        }
      }
      WindowNext(d, pos, ctx.indexEndPos);
      AssembleNothing(cfg, ctx.startTime, ctx.endTime, cur);
    }

    /** Search the open record and whatever still waits. */
    method FinishWindow(ctx: SearchContext)
      modifies ctx`tmpLine, ctx`logLines, ctx`matchedLines, ctx`status
      ensures var rest, before := old(Flush(ctx.View())), old(ctx.matchedLines);
        if ctx.searchers == [] then ctx.matchedLines == before
        else
          ctx.status == old(ctx.status) &&
          ctx.matchedLines ==
            if |before| < ctx.maxResults then First(ctx.maxResults, before + Filter(Accepted(ctx.searchers), rest))
            else before + Filter(Accepted(ctx.searchers), First(1, rest))
      ensures old(Fitting(ctx)) ==> Fitting(ctx)
    {
      hide Accepted, AllFit;
      if ctx.tmpLine != [] {
        ctx.logLines := ctx.logLines + [Record(ctx.tmpTime, ctx.tmpLine)];
        ctx.tmpLine := [];
      }
      if ctx.logLines != [] {
        var ok := ExecSearchers(ctx);
        if !ok {
          ctx.status := 1;
          return;
        }
        ctx.logLines := [];
      }
    }

    /** Search the part of the file between the two index offsets. Up to the limit the results are
        exactly the first accepted records of the window; at most one more may follow. On any log
        every result is in the time range and accepted by every searcher. */
    method SearchFileTxt(ctx: SearchContext, d: Bytes)
      requires ctx.View() == IDLE && ctx.matchedLines == [] && ctx.status == 0 && ctx.searchers != []
      modifies ctx`tmpLine, ctx`tmpTime, ctx`logLines, ctx`matchedLines, ctx`status
      ensures ctx.indexStartPos >= |d| || ctx.indexEndPos >= |d| ==> ctx.status == 1 && ctx.matchedLines == []
      ensures ctx.indexStartPos < |d| && ctx.indexEndPos < |d| ==>
        ctx.status == 0 &&
        var all := WindowRecords(cfg, d, ctx.indexStartPos, ctx.indexEndPos, ctx.startTime, ctx.endTime);
        FirstMatches(ctx, Filter(Accepted(ctx.searchers), all))
      ensures AllFit(ctx.searchers, ctx.startTime, ctx.endTime, ctx.matchedLines)
    {
      if ctx.indexStartPos >= |d| || ctx.indexEndPos >= |d| {
        ctx.status := 1;
        return;
      }
      hide Accepted, Filter, AllFit, RangeKept, Accepts, WindowTexts, Assemble;
      ghost var goal := Assemble(cfg, ctx.startTime, ctx.endTime, IDLE,
        WindowTexts(d, ctx.indexStartPos, ctx.indexEndPos));
      ghost var searched := ReadWindow(ctx, d, goal);
      ghost var rest, p, before := Flush(ctx.View()), Accepted(ctx.searchers), ctx.matchedLines;
      FlushedGoal(goal, ctx.View(), searched);
      hide Flush;
      FinishWindow(ctx);
      FinishedIsFirst(p, ctx.maxResults, searched, rest, Flush(goal), before, ctx.matchedLines);
    }
  }
}
