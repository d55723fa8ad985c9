/** The time index of a compressed log, built from decompressed chunks with a carry buffer
    (`FileIndexer::update_file_index_igzip`). */
module GzipIndexer {
  import opened LogLines
  import opened TextIndexer
  import opened Records

  const BUF_SIZE: nat := 16 * 1024
  const MAX_CARRY: nat := 4 * 1024 * 1024

  /** The variables the chunk loop carries; `last` is the newest timestamped line. */
  datatype ChunkState = ChunkState(outputs: seq<TimeIndex>, bucket: nat, since: nat, skipped: nat, last: Line)

  const START: ChunkState := ChunkState([], 0, 0, 0, Line(0, []))

  function TakeLine(cfg: Config, st: ChunkState, l: Line): ChunkState
    requires cfg.interval > 0
  {
    var t := cfg.stamp(l.text);
    if t == 0 then st.(skipped := st.skipped + 1)
    else
      var b := Floor(cfg, t);
      if st.bucket == 0 || b >= st.bucket + cfg.interval || st.since + 1 >= cfg.threshold
      then st.(outputs := st.outputs + [TimeIndex(b, l.offset)], bucket := b, since := 0, last := l)
      else st.(since := st.since + 1, last := l)
  }

  function TakeLines(cfg: Config, st: ChunkState, ls: seq<Line>): ChunkState
    requires cfg.interval > 0
    decreases |ls|
  {
    if ls == [] then st else TakeLines(cfg, TakeLine(cfg, st, ls[0]), ls[1..])
  }

  /** The closing entry is for the newest timestamped line. */
  function CloseChunks(cfg: Config, st: ChunkState): seq<TimeIndex> {
    if st.outputs == [] then [] else st.outputs + [TimeIndex(cfg.stamp(st.last.text), st.last.offset)]
  }

  /** How many of the first lines carry no timestamp. */
  function Leading(cfg: Config, ls: seq<Line>): nat {
    if ls == [] || cfg.stamp(ls[0].text) != 0 then 0 else 1 + Leading(cfg, ls[1..])
  }

  /** The index of the whole decompressed stream. */
  function StreamIndex(cfg: Config, d: Bytes): seq<TimeIndex>
    requires cfg.interval > 0
  {
    var ls := LinesFrom(d, 0);
    if Leading(cfg, ls) > MAX_SKIPPED then [] else CloseChunks(cfg, TakeLines(cfg, START, ls))
  }

  function Concat(chunks: seq<Bytes>): Bytes {
    if chunks == [] then [] else Concat(chunks[..|chunks| - 1]) + chunks[|chunks| - 1]
  }

  /** The scan is held up at a line that ended the search for timestamps. */
  predicate GaveUp(cfg: Config, d: Bytes) {
    Leading(cfg, LinesFrom(d, 0)) > MAX_SKIPPED
  }

  /** With the i-th chunk the unfinished line overflows the carry buffer. */
  predicate Overflows(cfg: Config, chunks: seq<Bytes>, i: nat)
    requires i < |chunks|
  {
    var d := Concat(chunks[..i]);
    !GaveUp(cfg, d) && |d| - Rest(d, 0) + |chunks[i]| > MAX_CARRY
  }

  function ChunkedFrom(cfg: Config, chunks: seq<Bytes>, i: nat): seq<TimeIndex>
    requires cfg.interval > 0 && i <= |chunks|
    decreases |chunks| - i
  {
    if i == |chunks| then StreamIndex(cfg, Concat(chunks))
    else if Overflows(cfg, chunks, i) then TakeLines(cfg, START, LinesFrom(Concat(chunks[..i]), 0)).outputs
    else ChunkedFrom(cfg, chunks, i + 1)
  }

  /** The index of a stream that arrives in chunks: that of the whole stream, unless a line
      overflows the carry buffer; then the entries so far, without a closing one. */
  function ChunkedIndex(cfg: Config, chunks: seq<Bytes>): seq<TimeIndex>
    requires cfg.interval > 0
  {
    ChunkedFrom(cfg, chunks, 0)
  }

  /** Chunks as the decompressor delivers them: never empty, never larger than the buffer. */
  predicate Delivered(chunks: seq<Bytes>) {
    forall i :: 0 <= i < |chunks| ==> 0 < |chunks[i]| <= BUF_SIZE
  }

  /** No line, the unfinished one included, can overflow the carry buffer. */
  ghost predicate FitsCarry(d: Bytes) {
    && (forall l :: l in LinesFrom(d, 0) ==> |l.text| + BUF_SIZE <= MAX_CARRY)
    && |d| - Rest(d, 0) + BUF_SIZE <= MAX_CARRY
  }

  lemma {:induction false} TakeLinesAppend(cfg: Config, st: ChunkState, a: seq<Line>, b: seq<Line>)
    requires cfg.interval > 0
    ensures TakeLines(cfg, st, a + b) == TakeLines(cfg, TakeLines(cfg, st, a), b)
    decreases |a|
  {
    if a == [] {
      assert a + b == b;
    } else {
      assert (a + b)[1..] == a[1..] + b;
      TakeLinesAppend(cfg, TakeLine(cfg, st, a[0]), a[1..], b);
    }
  }

  /** Whether the scan of the lines gives up: the lines skipped so far and the leading ones of `ls`
      pass the limit before any entry. */
  predicate GivesUp(cfg: Config, st: ChunkState, ls: seq<Line>) {
    st.outputs == [] && Leading(cfg, ls) > 0 && st.skipped + Leading(cfg, ls) > MAX_SKIPPED
  }

  /** The buffer starts with a complete line that has no timestamp. */
  ghost predicate HeldUp(cfg: Config, carry: Bytes) {
    var k := NextNewline(carry, 0);
    k < |carry| && cfg.stamp(carry[..k]) == 0
  }

  lemma NothingTaken(cfg: Config, st: ChunkState)
    requires cfg.interval > 0
    ensures TakeLines(cfg, st, []) == st
  {
  }

  lemma FirstTaken(cfg: Config, st: ChunkState, l: Line, more: seq<Line>)
    requires cfg.interval > 0
    ensures TakeLines(cfg, st, [l] + more) == TakeLines(cfg, TakeLine(cfg, st, l), more)
    ensures GivesUp(cfg, st, [l] + more) ==
      (if st.outputs != [] || cfg.stamp(l.text) != 0 then false
       else st.skipped + 1 > MAX_SKIPPED || GivesUp(cfg, TakeLine(cfg, st, l), more))
  {
    assert ([l] + more)[1..] == more;
  }

  lemma CarryShape(carry: Bytes, from: nat, base: nat)
    requires from <= |carry|
    ensures var k, ls := NextNewline(carry, from), Shift(LinesFrom(carry, from), base);
      if k == |carry| then ls == [] && Rest(carry, from) == from
      else
        && ls == [Line(base + from, carry[from..k])] + Shift(LinesFrom(carry, k + 1), base)
        && Rest(carry, from) == Rest(carry, k + 1)
  {
    hide LinesFrom, Rest, NextNewline, Shift;
    FirstLine(carry, from);
    FirstRest(carry, from);
    ShiftNone(base);
    var k := NextNewline(carry, from);
    if k < |carry| {
      ShiftFirst(Line(from, carry[from..k]), LinesFrom(carry, k + 1), base);
    }
  }

  /** One line of the buffer: the complete lines from `from` are this one and those after it. */
  lemma CarryLine(cfg: Config, st: ChunkState, carry: Bytes, from: nat, base: nat)
    requires cfg.interval > 0 && from <= |carry|
    ensures var k, ls := NextNewline(carry, from), Shift(LinesFrom(carry, from), base);
      if k == |carry| then ls == [] && TakeLines(cfg, st, ls) == st && Rest(carry, from) == from
      else
        var l, more := Line(base + from, carry[from..k]), Shift(LinesFrom(carry, k + 1), base);
        && ls == [l] + more && TakeLines(cfg, st, ls) == TakeLines(cfg, TakeLine(cfg, st, l), more)
        && Rest(carry, from) == Rest(carry, k + 1)
        && GivesUp(cfg, st, ls) ==
             (if st.outputs != [] || cfg.stamp(l.text) != 0 then false
              else st.skipped + 1 > MAX_SKIPPED || GivesUp(cfg, TakeLine(cfg, st, l), more))
  {
    hide LinesFrom, Rest, NextNewline, Shift, TakeLines, TakeLine, GivesUp;
    var k := NextNewline(carry, from);
    CarryShape(carry, from, base);
    NothingTaken(cfg, st);
    if k < |carry| {
      FirstTaken(cfg, st, Line(base + from, carry[from..k]), Shift(LinesFrom(carry, k + 1), base));
    }
  }

  lemma NoLinesNoGiveUp(cfg: Config, st: ChunkState)
    ensures !GivesUp(cfg, st, [])
  {
  }

  lemma HasEntries(cfg: Config, st: ChunkState, ls: seq<Line>)
    ensures st.outputs != [] ==> !GivesUp(cfg, st, ls)
  {
  }

  lemma StillHeldUp(cfg: Config, carry: Bytes, from: nat)
    requires from <= |carry| && NextNewline(carry, from) < |carry|
    requires cfg.stamp(carry[from..NextNewline(carry, from)]) == 0
    ensures HeldUp(cfg, carry[from..])
  {
    var k, tail := NextNewline(carry, from), carry[from..];
    NextNewlineIs(tail, 0, k - from);
    assert tail[..k - from] == carry[from..k];
  }

  /** Scan the complete lines of the carry buffer; `goal` is where the specification ends. */
  method ScanCarry(cfg: Config, carry: Bytes, base: nat, st0: ChunkState, ghost goal: ChunkState, ghost gives: bool)
    returns (st: ChunkState, processed: nat)
    requires cfg.interval > 0 && (st0.bucket != 0 ==> st0.outputs != [])
    requires goal == TakeLines(cfg, st0, Shift(LinesFrom(carry, 0), base))
    requires gives == GivesUp(cfg, st0, Shift(LinesFrom(carry, 0), base))
    ensures processed <= |carry| && (st.bucket != 0 ==> st.outputs != [])
    ensures if gives then st.outputs == [] && st.skipped > MAX_SKIPPED && HeldUp(cfg, carry[processed..])
      else st == goal && processed == Rest(carry, 0)
  {
    hide LinesFrom, TakeLines, Rest, NextNewline, GivesUp, Floor, Shift, HeldUp;
    st, processed := st0, 0;
    while true
      invariant processed <= |carry| && (st.bucket != 0 ==> st.outputs != [])
      invariant TakeLines(cfg, st, Shift(LinesFrom(carry, processed), base)) == goal
      invariant GivesUp(cfg, st, Shift(LinesFrom(carry, processed), base)) == gives
      invariant Rest(carry, processed) == Rest(carry, 0)
      decreases |carry| - processed
    {
      CarryLine(cfg, st, carry, processed, base);
      var nl := NextNewline(carry, processed);
      if nl == |carry| {
        NoLinesNoGiveUp(cfg, st);
        return;
      }
      var line := carry[processed..nl];
      var offset := base + processed;
      var ts := cfg.stamp(line);
      if ts == 0 {
        st := st.(skipped := st.skipped + 1);
        if st.skipped > MAX_SKIPPED && st.outputs == [] {
          StillHeldUp(cfg, carry, processed);
          return;
        }
      } else {
        var bucket := Floor(cfg, ts);
        st := st.(last := Line(offset, line));
        if st.bucket == 0 {
          st := st.(outputs := st.outputs + [TimeIndex(bucket, offset)], bucket := bucket, since := 0);
        } else {
          st := st.(since := st.since + 1);
          if bucket >= st.bucket + cfg.interval || st.since >= cfg.threshold {
            st := st.(outputs := st.outputs + [TimeIndex(bucket, offset)], bucket := bucket, since := 0);
          }
        }
      }
      HasEntries(cfg, st, Shift(LinesFrom(carry, nl + 1), base));
      processed := nl + 1;
    }
  }

  lemma {:induction false} LeadingAppend(cfg: Config, a: seq<Line>, b: seq<Line>)
    ensures Leading(cfg, a) <= |a|
    ensures Leading(cfg, a + b) == if Leading(cfg, a) == |a| then |a| + Leading(cfg, b) else Leading(cfg, a)
    decreases |a|
  {
    if a == [] {
      assert a + b == b;
    } else {
      assert (a + b)[1..] == a[1..] + b;
      LeadingAppend(cfg, a[1..], b);
    }
  }

  /** Until the first timestamp the scan only counts; from then on it has entries. */
  lemma {:induction false} EntriesIffTimes(cfg: Config, st: ChunkState, ls: seq<Line>)
    requires cfg.interval > 0 && (st.bucket != 0 ==> st.outputs != [])
    ensures var r := TakeLines(cfg, st, ls);
      && (r.bucket != 0 ==> r.outputs != [])
      && (r.outputs == [] <==> st.outputs == [] && Leading(cfg, ls) == |ls|)
      && (r.outputs == [] ==> r.skipped == st.skipped + |ls|)
    decreases |ls|
  {
    LeadingAppend(cfg, ls, []);
    if ls != [] {
      LeadingAppend(cfg, ls[1..], []);
      EntriesIffTimes(cfg, TakeLine(cfg, st, ls[0]), ls[1..]);
    }
  }

  /** The loop's variables after the bytes `d` have arrived. */
  ghost predicate Sync(cfg: Config, d: Bytes, carry: Bytes, st: ChunkState)
    requires cfg.interval > 0
  {
    if GaveUp(cfg, d) then st.outputs == [] && st.bucket == 0 && st.skipped > MAX_SKIPPED && HeldUp(cfg, carry)
    else st == TakeLines(cfg, START, LinesFrom(d, 0)) && carry == d[Rest(d, 0)..]
  }

  /** Nothing but the complete lines of carry + chunk is new when a chunk arrives. */
  lemma ChunkLines(d: Bytes, chunk: Bytes)
    ensures var r := Rest(d, 0);
      var carry := d[r..] + chunk;
      && LinesFrom(d + chunk, 0) == LinesFrom(d, 0) + Shift(LinesFrom(carry, 0), r)
      && Rest(d + chunk, 0) == r + Rest(carry, 0)
      && (d + chunk)[Rest(d + chunk, 0)..] == carry[Rest(carry, 0)..]
  {
    hide LinesFrom, Rest, Shift;
    var r, all := Rest(d, 0), d + chunk;
    var carry := d[r..] + chunk;
    LinesOfAppend(d, chunk, 0);
    RestOfAppend(d, chunk, 0);
    assert all == all[..r] + carry;
    LinesOfSuffix(all[..r], carry, 0);
    RestOfSuffix(all[..r], carry, 0);
  }

  /** While the scan is not held up, the carried line fits whenever every line does. */
  lemma CarryFits(d: Bytes, more: Bytes)
    requires FitsCarry(d + more)
    ensures |d| - Rest(d, 0) + BUF_SIZE <= MAX_CARRY
  {
    var r, all := Rest(d, 0), d + more;
    RestIsUnfinished(d, 0);
    LinesOfAppend(d, more, 0);
    RestOfAppend(d, more, 0);
    FirstLine(all, r);
    assert forall i :: r <= i < |d| ==> all[i] == d[i];
    if LinesFrom(all, r) != [] {
      assert LinesFrom(all, r)[0] in LinesFrom(all, 0);
    }
  }

  lemma ChunkGivesUp(cfg: Config, before: seq<Line>, more: seq<Line>)
    requires cfg.interval > 0 && Leading(cfg, before) <= MAX_SKIPPED
    ensures var st := TakeLines(cfg, START, before);
      && (st.bucket != 0 ==> st.outputs != [])
      && (GivesUp(cfg, st, more) <==> Leading(cfg, before + more) > MAX_SKIPPED)
  {
    EntriesIffTimes(cfg, START, before);
    LeadingAppend(cfg, before, more);
  }

  /** A line that holds up the scan does so again when more bytes arrive. */
  lemma StaysHeldUp(cfg: Config, carry: Bytes, chunk: Bytes, base: nat, st: ChunkState)
    requires HeldUp(cfg, carry) && st.outputs == [] && st.skipped > MAX_SKIPPED
    ensures GivesUp(cfg, st, Shift(LinesFrom(carry + chunk, 0), base))
  {
    NewlineOfAppend(carry, chunk, 0);
    FirstLine(carry + chunk, 0);
  }

  lemma {:induction false} ConcatPrefix(chunks: seq<Bytes>, i: nat)
    requires i < |chunks|
    ensures Concat(chunks[..i + 1]) == Concat(chunks[..i]) + chunks[i]
    ensures Concat(chunks[..i + 1]) <= Concat(chunks)
    decreases |chunks| - i
  {
    assert chunks[..i + 1][..i] == chunks[..i];
    if i + 1 < |chunks| {
      ConcatPrefix(chunks, i + 1);
    } else {
      assert chunks[..i + 1] == chunks;
    }
  }

  /** One chunk: append it to the carry, scan, and keep the unfinished line. */
  method TakeChunk(cfg: Config, ghost d: Bytes, chunk: Bytes, total: nat, carry: Bytes, st: ChunkState)
    returns (carry': Bytes, st': ChunkState)
    requires cfg.interval > 0 && Sync(cfg, d, carry, st) && total == |d|
    ensures Sync(cfg, d + chunk, carry', st')
  {
    hide LinesFrom, TakeLines, Rest, Leading, GivesUp, HeldUp, Shift;
    var previous := |carry|;
    carry' := carry + chunk;
    var base := if total >= previous then total - previous else 0;
    ghost var lines := Shift(LinesFrom(carry', 0), base);
    ghost var goal := TakeLines(cfg, st, lines);
    ghost var before := LinesFrom(d, 0);
    ghost var gives := GivesUp(cfg, st, lines);
    LinesOfAppend(d, chunk, 0);
    if GaveUp(cfg, d) {
      StaysHeldUp(cfg, carry, chunk, base, st);
      LeadingAppend(cfg, before, LinesFrom(d + chunk, Rest(d, 0)));
    } else {
      ChunkLines(d, chunk);
      ChunkGivesUp(cfg, before, lines);
      TakeLinesAppend(cfg, START, before, lines);
    }
    var processed: nat;
    st', processed := ScanCarry(cfg, carry', base, st, goal, gives);
    if processed > 0 {
      carry' := carry'[processed..];
    }
  }

  lemma OneChunk(cfg: Config, chunks: seq<Bytes>, i: nat)
    requires cfg.interval > 0 && i <= |chunks|
    ensures ChunkedFrom(cfg, chunks, i) ==
      if i == |chunks| then StreamIndex(cfg, Concat(chunks))
      else if Overflows(cfg, chunks, i) then TakeLines(cfg, START, LinesFrom(Concat(chunks[..i]), 0)).outputs
      else ChunkedFrom(cfg, chunks, i + 1)
  {
  }

  /** At the end of the stream only the closing entry is missing. */
  lemma AllRead(cfg: Config, d: Bytes, carry: Bytes, st: ChunkState)
    requires cfg.interval > 0 && Sync(cfg, d, carry, st)
    ensures StreamIndex(cfg, d) == CloseChunks(cfg, st)
  {
  }

  lemma NothingRead(cfg: Config, chunks: seq<Bytes>)
    requires cfg.interval > 0
    ensures Concat(chunks[..0]) == []
    ensures Sync(cfg, [], [], START)
  {
  }

  lemma NoOverflow(cfg: Config, chunks: seq<Bytes>, i: nat, carry: Bytes, st: ChunkState)
    requires cfg.interval > 0 && i < |chunks| && Sync(cfg, Concat(chunks[..i]), carry, st)
    requires |carry| + |chunks[i]| <= MAX_CARRY
    ensures !Overflows(cfg, chunks, i)
  {
    hide LinesFrom, TakeLines, Rest, Leading, HeldUp, GaveUp;
  }

  lemma {:induction false} NeverMore(cfg: Config, chunks: seq<Bytes>, i: nat)
    requires cfg.interval > 0 && i <= |chunks| && GaveUp(cfg, Concat(chunks[..i]))
    ensures ChunkedFrom(cfg, chunks, i) == []
    decreases |chunks| - i
  {
    hide LinesFrom, TakeLines, Rest, Leading;
    if i == |chunks| {
      assert chunks[..i] == chunks;
    } else {
      var d, chunk := Concat(chunks[..i]), chunks[i];
      ConcatPrefix(chunks, i);
      LinesOfAppend(d, chunk, 0);
      LeadingAppend(cfg, LinesFrom(d, 0), LinesFrom(d + chunk, Rest(d, 0)));
      NeverMore(cfg, chunks, i + 1);
    }
  }

  /** When the carry overflows the entries are those of the complete lines so far; a scan that has
      given up has none, and never gets any. */
  lemma Overflow(cfg: Config, chunks: seq<Bytes>, i: nat, carry: Bytes, st: ChunkState)
    requires cfg.interval > 0 && i < |chunks| && Sync(cfg, Concat(chunks[..i]), carry, st)
    requires |carry| + |chunks[i]| > MAX_CARRY
    ensures st.outputs == ChunkedFrom(cfg, chunks, i)
  {
    hide LinesFrom, TakeLines, Rest, Leading, HeldUp, StreamIndex;
    if GaveUp(cfg, Concat(chunks[..i])) {
      NeverMore(cfg, chunks, i);
    }
  }

  /** However the stream is cut, the index is that of the whole stream, provided that no line can
      overflow the carry buffer. */
  lemma {:induction false} FitsMeansStream(cfg: Config, chunks: seq<Bytes>, i: nat)
    requires cfg.interval > 0 && i <= |chunks| && Delivered(chunks) && FitsCarry(Concat(chunks))
    ensures ChunkedFrom(cfg, chunks, i) == StreamIndex(cfg, Concat(chunks))
    decreases |chunks| - i
  {
    hide LinesFrom, TakeLines, Rest, Leading, FitsCarry, GaveUp, StreamIndex, Concat;
    if i < |chunks| {
      var d, all := Concat(chunks[..i]), Concat(chunks);
      ConcatPrefix(chunks, i);
      assert all == d + all[|d|..];
      CarryFits(d, all[|d|..]);
      FitsMeansStream(cfg, chunks, i + 1);
    }
  }

  /** What the chunks come to: the index of the whole stream if the carry never overflows, and else
      the index of what was read before the first overflow, short of its closing entry. */
  lemma {:induction false} OverflowLosesClosing(cfg: Config, chunks: seq<Bytes>, from: nat, i: nat)
    requires cfg.interval > 0 && from <= i <= |chunks| && forall k :: from <= k < i ==> !Overflows(cfg, chunks, k)
    requires i < |chunks| ==> Overflows(cfg, chunks, i)
    ensures var read := StreamIndex(cfg, Concat(chunks[..i]));
      ChunkedFrom(cfg, chunks, from) == if i == |chunks| || read == [] then read else read[..|read| - 1]
    decreases i - from
  {
    if from < i {
      OverflowLosesClosing(cfg, chunks, from + 1, i);
    } else {
      OneChunk(cfg, chunks, i);
      assert i == |chunks| ==> chunks[..i] == chunks;
    }
  }

  /** The chunk loop; `chunks` are the reads before the end of the stream. */
  method UpdateFileIndexIgzip(cfg: Config, chunks: seq<Bytes>) returns (outputs: seq<TimeIndex>)
    requires cfg.interval > 0
    ensures outputs == ChunkedIndex(cfg, chunks)
    ensures Delivered(chunks) && FitsCarry(Concat(chunks)) ==> outputs == StreamIndex(cfg, Concat(chunks))
  {
    hide LinesFrom, TakeLines, Rest, Leading, HeldUp, FitsCarry, Concat, Sync, StreamIndex;
    hide ChunkedFrom, Overflows, GaveUp;
    var carry: Bytes, total: nat, st := [], 0, START;
    ghost var d: Bytes := [];
    if Delivered(chunks) && FitsCarry(Concat(chunks)) {
      FitsMeansStream(cfg, chunks, 0);
    }
    NothingRead(cfg, chunks);
    for i := 0 to |chunks|
      invariant d == Concat(chunks[..i]) && total == |d|
      invariant Sync(cfg, d, carry, st)
      invariant ChunkedIndex(cfg, chunks) == ChunkedFrom(cfg, chunks, i)
    {
      ConcatPrefix(chunks, i);
      OneChunk(cfg, chunks, i);
      if |carry| + |chunks[i]| > MAX_CARRY {
        Overflow(cfg, chunks, i, carry, st);
        return st.outputs;
      }
      NoOverflow(cfg, chunks, i, carry, st);
      carry, st := TakeChunk(cfg, d, chunks[i], total, carry, st);
      d := d + chunks[i];
      total := total + |chunks[i]|;
    }
    assert chunks[..|chunks|] == chunks;
    OneChunk(cfg, chunks, |chunks|);
    AllRead(cfg, d, carry, st);
    outputs := st.outputs;
    if outputs != [] {
      var offset := 0;
      if st.last.offset != 0 {
        offset := st.last.offset;
      }
      outputs := outputs + [TimeIndex(cfg.stamp(st.last.text), offset)];
    }
  }
}
