/** Multi-line log records: what they are, and the state machine that assembles them
    (`LogSearcher::parse_line`). */
module Records {
  import opened Sequences
  import opened LogLines
  import opened TextIndexer

  /** A record: its time and its text, continuation lines joined on with newlines. */
  datatype Record = Record(stamp: nat, text: Bytes)

  predicate Header(cfg: Config, text: Bytes) {
    cfg.stamp(text) != 0
  }

  // ----- What the records of a log are

  /** How many of the first lines carry no timestamp. */
  function Continuations(cfg: Config, ts: seq<Bytes>): (n: nat)
    ensures n <= |ts|
    ensures forall i :: 0 <= i < n ==> !Header(cfg, ts[i])
    ensures n < |ts| ==> Header(cfg, ts[n])
  {
    if ts == [] || Header(cfg, ts[0]) then 0 else 1 + Continuations(cfg, ts[1..])
  }

  function Joined(head: Bytes, more: seq<Bytes>): Bytes
    decreases |more|
  {
    if more == [] then head else Joined(head + [NEWLINE] + more[0], more[1..])
  }

  /** A header line together with the continuation lines after it. */
  function FirstRecord(cfg: Config, ts: seq<Bytes>): Record
    requires ts != []
  {
    Record(cfg.stamp(ts[0]), Joined(ts[0], ts[1..][..Continuations(cfg, ts[1..])]))
  }

  /** Each header line with the untimestamped lines after it; lines before the first header
      belong to no record. */
  function Grouped(cfg: Config, ts: seq<Bytes>): seq<Record>
    decreases |ts|
  {
    if ts == [] then []
    else if !Header(cfg, ts[0]) then Grouped(cfg, ts[1..])
    else
      var n := Continuations(cfg, ts[1..]);
      [FirstRecord(cfg, ts)] + Grouped(cfg, ts[1..][n..])
  }

  lemma GroupedOnce(cfg: Config, ts: seq<Bytes>)
    ensures Grouped(cfg, ts) ==
      if ts == [] then []
      else if !Header(cfg, ts[0]) then Grouped(cfg, ts[1..])
      else [FirstRecord(cfg, ts)] + Grouped(cfg, ts[1..][Continuations(cfg, ts[1..])..])
  {
  }

  function Filter(p: Record -> bool, rs: seq<Record>): seq<Record> {
    if rs == [] then [] else (if p(rs[0]) then [rs[0]] else []) + Filter(p, rs[1..])
  }

  function Within(s: nat, e: nat): Record -> bool {
    (r: Record) => s <= r.stamp <= e
  }

  /** Times never go back from one header to a later one. */
  ghost predicate Sorted(cfg: Config, ts: seq<Bytes>) {
    forall i, j :: 0 <= i < j < |ts| && Header(cfg, ts[i]) && Header(cfg, ts[j]) ==>
      cfg.stamp(ts[i]) <= cfg.stamp(ts[j])
  }

  // ----- How the searcher assembles them

  /** The open record (none when `tmp` is empty) and the finished ones. */
  datatype Assembly = Assembly(tmp: Bytes, tmpStamp: nat, out: seq<Record>)

  const IDLE: Assembly := Assembly([], 0, [])

  function Flush(a: Assembly): seq<Record> {
    if a.tmp == [] then a.out else a.out + [Record(a.tmpStamp, a.tmp)]
  }

  function ParseStep(cfg: Config, s: nat, e: nat, a: Assembly, line: Bytes): Assembly {
    var t := cfg.stamp(line);
    if t == 0 then
      if a.tmp == [] then a else a.(tmp := a.tmp + [NEWLINE] + line)
    else if t < s then a
    else if t > e then Assembly([], a.tmpStamp, Flush(a))
    else Assembly(line, t, Flush(a))
  }

  function Assemble(cfg: Config, s: nat, e: nat, a: Assembly, ts: seq<Bytes>): Assembly
    decreases |ts|
  {
    if ts == [] then a else Assemble(cfg, s, e, ParseStep(cfg, s, e, a, ts[0]), ts[1..])
  }

  /** The open record as it will be once its remaining continuation lines are read. */
  function Pending(cfg: Config, a: Assembly, ts: seq<Bytes>): seq<Record> {
    if a.tmp == [] then [] else [Record(a.tmpStamp, Joined(a.tmp, ts[..Continuations(cfg, ts)]))]
  }

  lemma ContinueOne(cfg: Config, a: Assembly, ts: seq<Bytes>)
    requires ts != [] && !Header(cfg, ts[0])
    ensures Continuations(cfg, ts) == 1 + Continuations(cfg, ts[1..])
    ensures ts[Continuations(cfg, ts)..] == ts[1..][Continuations(cfg, ts[1..])..]
    ensures a.tmp != [] ==>
      Pending(cfg, a, ts) == Pending(cfg, a.(tmp := a.tmp + [NEWLINE] + ts[0]), ts[1..])
  {
    var n := Continuations(cfg, ts);
    assert ts[..n][1..] == ts[1..][..n - 1];
  }

  /** Once a header has reached the time `s`, no later one is before it. */
  ghost predicate Steady(cfg: Config, s: nat, ts: seq<Bytes>) {
    forall i, j :: 0 <= i < j < |ts| && Header(cfg, ts[i]) && Header(cfg, ts[j]) && cfg.stamp(ts[i]) >= s ==>
      cfg.stamp(ts[j]) >= s
  }

  lemma SteadyTail(cfg: Config, s: nat, ts: seq<Bytes>)
    requires ts != [] && Steady(cfg, s, ts)
    ensures Steady(cfg, s, ts[1..])
  {
    forall i, j | 0 <= i < j < |ts| - 1 && Header(cfg, ts[1..][i]) && Header(cfg, ts[1..][j]) && cfg.stamp(ts[1..][i]) >= s
      ensures cfg.stamp(ts[1..][j]) >= s
    {
      assert ts[1..][i] == ts[i + 1] && ts[1..][j] == ts[j + 1];
    }
  }

  lemma FilterFirst(p: Record -> bool, r: Record, rs: seq<Record>)
    ensures Filter(p, [r] + rs) == (if p(r) then [r] else []) + Filter(p, rs)
  {
    assert ([r] + rs)[1..] == rs;
  }

  lemma PendingNow(cfg: Config, a: Assembly, ts: seq<Bytes>)
    requires ts != [] && Header(cfg, ts[0])
    ensures a.out + Pending(cfg, a, ts) == Flush(a)
  {
  }

  /** A header closes the open record and opens its own exactly when it is in range. */
  lemma HeaderStep(cfg: Config, s: nat, e: nat, a: Assembly, ts: seq<Bytes>)
    requires cfg.stamp([]) == 0 && ts != [] && Header(cfg, ts[0])
    requires a.tmp != [] ==> cfg.stamp(ts[0]) >= s
    ensures var b, rest := ParseStep(cfg, s, e, a, ts[0]), ts[1..];
            a.out + Pending(cfg, a, ts) + Filter(Within(s, e), Grouped(cfg, ts)) ==
            b.out + Pending(cfg, b, rest) + Filter(Within(s, e), Grouped(cfg, rest[Continuations(cfg, rest)..]))
  {
    hide Grouped, Continuations, Filter;
    var w, b, rest := Within(s, e), ParseStep(cfg, s, e, a, ts[0]), ts[1..];
    var later := Grouped(cfg, rest[Continuations(cfg, rest)..]);
    GroupedOnce(cfg, ts);
    FilterFirst(w, FirstRecord(cfg, ts), later);
    assert ts[0..] == ts;
    PendingNow(cfg, a, ts);
    var head := if s <= cfg.stamp(ts[0]) <= e then [FirstRecord(cfg, ts)] else [];
    assert Pending(cfg, b, rest) == head && b.out == Flush(a);
    Assoc(b.out, head, Filter(w, later));
  }

  /** Folding the parser over the lines and flushing at the end gives the open
      record completed, then exactly the in-range records of the rest. */
  lemma {:induction false} AssemblyFrom(cfg: Config, s: nat, e: nat, a: Assembly, ts: seq<Bytes>)
    requires cfg.stamp([]) == 0 && Steady(cfg, s, ts)
    requires a.tmp != [] ==> forall i :: 0 <= i < |ts| && Header(cfg, ts[i]) ==> cfg.stamp(ts[i]) >= s
    ensures Flush(Assemble(cfg, s, e, a, ts)) ==
            a.out + Pending(cfg, a, ts) + Filter(Within(s, e), Grouped(cfg, ts[Continuations(cfg, ts)..]))
    decreases |ts|
  {
    if ts != [] {
      var b := ParseStep(cfg, s, e, a, ts[0]);
      SteadyTail(cfg, s, ts);
      AssemblyFrom(cfg, s, e, b, ts[1..]);
      if !Header(cfg, ts[0]) {
        ContinueOne(cfg, a, ts);
      } else {
        HeaderStep(cfg, s, e, a, ts);
        assert ts[0..] == ts;
      }
    }
  }

  lemma {:induction false} SkipLeading(cfg: Config, ts: seq<Bytes>)
    ensures Grouped(cfg, ts) == Grouped(cfg, ts[Continuations(cfg, ts)..])
    decreases |ts|
  {
    if ts != [] && !Header(cfg, ts[0]) {
      SkipLeading(cfg, ts[1..]);
      ContinueOne(cfg, IDLE, ts);
    } else {
      assert ts[0..] == ts;
    }
  }

  /** With sorted times, the assembled records are exactly the in-range records of the lines, each
      header with its own continuation lines. */
  lemma AssemblyIsGrouping(cfg: Config, s: nat, e: nat, ts: seq<Bytes>)
    requires cfg.stamp([]) == 0 && Sorted(cfg, ts)
    ensures Flush(Assemble(cfg, s, e, IDLE, ts)) == Filter(Within(s, e), Grouped(cfg, ts))
  {
    AssemblyFrom(cfg, s, e, IDLE, ts);
    SkipLeading(cfg, ts);
  }

  /** The lines without the headers before the time `s`. */
  function WithoutEarly(cfg: Config, s: nat, ts: seq<Bytes>): seq<Bytes> {
    if ts == [] then []
    else if Header(cfg, ts[0]) && cfg.stamp(ts[0]) < s then WithoutEarly(cfg, s, ts[1..])
    else [ts[0]] + WithoutEarly(cfg, s, ts[1..])
  }

  lemma {:induction false} EarlyIgnored(cfg: Config, s: nat, e: nat, a: Assembly, ts: seq<Bytes>)
    ensures Assemble(cfg, s, e, a, ts) == Assemble(cfg, s, e, a, WithoutEarly(cfg, s, ts))
    ensures forall t :: t in WithoutEarly(cfg, s, ts) && Header(cfg, t) ==> cfg.stamp(t) >= s
    decreases |ts|
  {
    if ts != [] {
      EarlyIgnored(cfg, s, e, ParseStep(cfg, s, e, a, ts[0]), ts[1..]);
      var more := WithoutEarly(cfg, s, ts[1..]);
      assert ([ts[0]] + more)[1..] == more;
    }
  }

  /** Whatever the order of the times: the assembled records are the in-range records of the log with
      its early headers deleted, so that the lines under such a header continue the record before. */
  lemma AssemblyOfAnyLog(cfg: Config, s: nat, e: nat, ts: seq<Bytes>)
    requires cfg.stamp([]) == 0
    ensures Flush(Assemble(cfg, s, e, IDLE, ts)) == Filter(Within(s, e), Grouped(cfg, WithoutEarly(cfg, s, ts)))
  {
    hide Assemble, Grouped, Filter, WithoutEarly;
    EarlyIgnored(cfg, s, e, IDLE, ts);
    AssemblyFrom(cfg, s, e, IDLE, WithoutEarly(cfg, s, ts));
    SkipLeading(cfg, WithoutEarly(cfg, s, ts));
  }

  lemma {:induction false} FilterAppend(p: Record -> bool, x: seq<Record>, y: seq<Record>)
    ensures Filter(p, x + y) == Filter(p, x) + Filter(p, y)
    decreases |x|
  {
    if x == [] {
      assert x + y == y;
    } else {
      hide Filter;
      FilterAppend(p, x[1..], y);
      FilterFirst(p, x[0], x[1..]);
      FilterFirst(p, x[0], x[1..] + y);
      assert x == [x[0]] + x[1..] && x + y == [x[0]] + (x[1..] + y);
      Assoc(if p(x[0]) then [x[0]] else [], Filter(p, x[1..]), Filter(p, y));
    }
  }

  lemma {:induction false} FilterShort(p: Record -> bool, x: seq<Record>)
    ensures |Filter(p, x)| <= |x|
    decreases |x|
  {
    if x != [] {
      FilterShort(p, x[1..]);
    }
  }

  lemma {:induction false} FilterNone(p: Record -> bool, x: seq<Record>)
    requires forall i :: 0 <= i < |x| ==> !p(x[i])
    ensures Filter(p, x) == []
    decreases |x|
  {
    if x != [] {
      FilterNone(p, x[1..]);
    }
  }

  /** Every record's time is its header's. */
  lemma {:induction false} GroupedStamps(cfg: Config, ts: seq<Bytes>)
    ensures forall r :: r in Grouped(cfg, ts) ==>
      exists i :: 0 <= i < |ts| && Header(cfg, ts[i]) && cfg.stamp(ts[i]) == r.stamp
    decreases |ts|
  {
    if ts != [] {
      var from := if Header(cfg, ts[0]) then 1 + Continuations(cfg, ts[1..]) else 1;
      GroupedStamps(cfg, ts[from..]);
      assert ts[1..][from - 1..] == ts[from..];
      forall r | r in Grouped(cfg, ts)
        ensures exists i :: 0 <= i < |ts| && Header(cfg, ts[i]) && cfg.stamp(ts[i]) == r.stamp
      {
        if r in Grouped(cfg, ts[from..]) {
          var i :| 0 <= i < |ts[from..]| && Header(cfg, ts[from..][i]) && cfg.stamp(ts[from..][i]) == r.stamp;
          assert ts[from..][i] == ts[from + i];
        }
      }
    }
  }

  lemma {:induction false} ContinuationsSplit(cfg: Config, x: seq<Bytes>, y: seq<Bytes>)
    requires y == [] || Header(cfg, y[0])
    ensures Continuations(cfg, x + y) == Continuations(cfg, x)
    decreases |x|
  {
    if x == [] {
      assert x + y == y;
    } else {
      assert (x + y)[1..] == x[1..] + y;
      ContinuationsSplit(cfg, x[1..], y);
    }
  }

  /** Lines may be cut in front of a header without cutting a record. */
  lemma {:induction false} GroupedSplit(cfg: Config, x: seq<Bytes>, y: seq<Bytes>)
    requires y == [] || Header(cfg, y[0])
    ensures Grouped(cfg, x + y) == Grouped(cfg, x) + Grouped(cfg, y)
    decreases |x|
  {
    hide Grouped, Continuations, Joined;
    GroupedOnce(cfg, x);
    GroupedOnce(cfg, x + y);
    if x == [] {
      assert x + y == y;
    } else {
      var n, rest := Continuations(cfg, x[1..]), x[1..];
      assert (x + y)[1..] == rest + y;
      if Header(cfg, x[0]) {
        ContinuationsSplit(cfg, rest, y);
        assert (rest + y)[n..] == rest[n..] + y && (rest + y)[..n] == rest[..n];
        GroupedSplit(cfg, rest[n..], y);
      } else {
        GroupedSplit(cfg, rest, y);
      }
    }
  }

  lemma NoneWithin(cfg: Config, s: nat, e: nat, ts: seq<Bytes>)
    requires forall i :: 0 <= i < |ts| && Header(cfg, ts[i]) ==> !(s <= cfg.stamp(ts[i]) <= e)
    ensures Filter(Within(s, e), Grouped(cfg, ts)) == []
  {
    GroupedStamps(cfg, ts);
    assert forall i :: 0 <= i < |Grouped(cfg, ts)| ==> Grouped(cfg, ts)[i] in Grouped(cfg, ts);
    FilterNone(Within(s, e), Grouped(cfg, ts));
  }

  /** A window of lines holds every in-range record if it starts at a header with only early
      headers before it, and ends with the log or at the first of only late headers. */
  lemma WindowKeepsRecords(cfg: Config, s: nat, e: nat, ts: seq<Bytes>, a: nat, b: nat)
    requires a <= b < |ts| && Header(cfg, ts[a]) && Header(cfg, ts[b])
    requires forall i :: 0 <= i < a && Header(cfg, ts[i]) ==> cfg.stamp(ts[i]) < s
    requires b == |ts| - 1 || forall i :: b <= i < |ts| && Header(cfg, ts[i]) ==> cfg.stamp(ts[i]) > e
    ensures Filter(Within(s, e), Grouped(cfg, ts[a..b + 1])) == Filter(Within(s, e), Grouped(cfg, ts))
  {
    hide Filter, Grouped, Within;
    var w := Within(s, e);
    assert ts == ts[..a] + ts[a..];
    GroupedSplit(cfg, ts[..a], ts[a..]);
    FilterAppend(w, Grouped(cfg, ts[..a]), Grouped(cfg, ts[a..]));
    NoneWithin(cfg, s, e, ts[..a]);
    if b == |ts| - 1 {
      assert ts[a..b + 1] == ts[a..];
    } else {
      assert ts[a..] == ts[a..b] + ts[b..];
      GroupedSplit(cfg, ts[a..b], ts[b..]);
      FilterAppend(w, Grouped(cfg, ts[a..b]), Grouped(cfg, ts[b..]));
      NoneWithin(cfg, s, e, ts[b..]);
      assert ts[a..b + 1] == ts[a..b] + [ts[b]];
      GroupedSplit(cfg, ts[a..b], [ts[b]]);
      FilterAppend(w, Grouped(cfg, ts[a..b]), Grouped(cfg, [ts[b]]));
      NoneWithin(cfg, s, e, [ts[b]]);
    }
  }
}
