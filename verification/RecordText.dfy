/** What the records of a log have to do with its bytes. */
module RecordText {
  import opened Sequences
  import opened LogLines
  import opened TextIndexer
  import opened Records
  import opened IndexedScan

  /** Lines, each with its newline. */
  function Terminated(ts: seq<Bytes>): Bytes {
    if ts == [] then [] else ts[0] + [NEWLINE] + Terminated(ts[1..])
  }

  function RecordTexts(rs: seq<Record>): seq<Bytes> {
    if rs == [] then [] else [rs[0].text] + RecordTexts(rs[1..])
  }

  lemma {:induction false} TerminatedAppend(x: seq<Bytes>, y: seq<Bytes>)
    ensures Terminated(x + y) == Terminated(x) + Terminated(y)
    decreases |x|
  {
    if x == [] {
      assert x + y == y;
    } else {
      assert (x + y)[1..] == x[1..] + y;
      TerminatedAppend(x[1..], y);
      Assoc(x[0] + [NEWLINE], Terminated(x[1..]), Terminated(y));
    }
  }

  /** The complete lines are the file up to the unfinished one. */
  lemma {:induction false} LinesAreTheLog(d: Bytes, from: nat)
    requires from <= |d|
    ensures Terminated(Texts(LinesFrom(d, from))) == d[from..Rest(d, from)]
    decreases |d| - from
  {
    hide NextNewline;
    var k := NextNewline(d, from);
    if k < |d| {
      LinesAreTheLog(d, k + 1);
      TextsCons(Line(from, d[from..k]), LinesFrom(d, k + 1));
      assert d[from..k] + [NEWLINE] == d[from..k + 1];
      assert d[from..k + 1] + d[k + 1..Rest(d, from)] == d[from..Rest(d, from)];
    } else {
      TextsNone();
    }
  }

  lemma {:induction false} JoinedIsLines(head: Bytes, more: seq<Bytes>)
    ensures Joined(head, more) + [NEWLINE] == Terminated([head] + more)
    decreases |more|
  {
    assert ([head] + more)[1..] == more;
    if more != [] {
      JoinedIsLines(head + [NEWLINE] + more[0], more[1..]);
      assert ([head + [NEWLINE] + more[0]] + more[1..])[1..] == more[1..];
      Assoc(head + [NEWLINE], more[0], [NEWLINE]);
      Assoc(head + [NEWLINE], more[0] + [NEWLINE], Terminated(more[1..]));
    }
  }

  lemma TerminatedParts(ts: seq<Bytes>, n: nat)
    requires 1 + n <= |ts|
    ensures Terminated(ts) == Terminated([ts[0]] + ts[1..][..n]) + Terminated(ts[1..][n..])
  {
    hide Terminated;
    assert ts == [ts[0]] + ts[1..][..n] + ts[1..][n..];
    TerminatedAppend([ts[0]] + ts[1..][..n], ts[1..][n..]);
  }

  lemma NoRecords()
    ensures RecordTexts([]) == []
  {
  }

  lemma FirstTerminated(r: Record, rs: seq<Record>)
    ensures Terminated(RecordTexts([r] + rs)) == r.text + [NEWLINE] + Terminated(RecordTexts(rs))
  {
    assert ([r] + rs)[1..] == rs;
    assert ([r.text] + RecordTexts(rs))[1..] == RecordTexts(rs);
  }

  /** The records, each with a newline, are the lines from the first header on. */
  lemma {:induction false} RecordsAreLines(cfg: Config, ts: seq<Bytes>)
    ensures Terminated(RecordTexts(Grouped(cfg, ts))) == Terminated(ts[Continuations(cfg, ts)..])
    decreases |ts|
  {
    hide Terminated, Joined, RecordTexts;
    if ts == [] {
      NoRecords();
    } else if !Header(cfg, ts[0]) {
      RecordsAreLines(cfg, ts[1..]);
      assert ts[Continuations(cfg, ts)..] == ts[1..][Continuations(cfg, ts[1..])..];
    } else {
      var n := Continuations(cfg, ts[1..]);
      var rest := ts[1..][n..];
      RecordsAreLines(cfg, rest);
      assert Continuations(cfg, rest) == 0 && rest[0..] == rest;
      JoinedIsLines(ts[0], ts[1..][..n]);
      FirstTerminated(FirstRecord(cfg, ts), Grouped(cfg, rest));
      TerminatedParts(ts, n);
      assert ts[0..] == ts;
    }
  }

  lemma {:induction false} OffsetOfLine(d: Bytes, from: nat, i: nat)
    requires from <= |d| && i <= |LinesFrom(d, from)|
    ensures var ls := LinesFrom(d, from);
      var o := if i < |ls| then ls[i].offset else Rest(d, from);
      o <= Rest(d, from) && Terminated(Texts(ls[i..])) == d[o..Rest(d, from)]
    decreases i
  {
    var ls := LinesFrom(d, from);
    var k := NextNewline(d, from);
    if i == 0 {
      LinesAreTheLog(d, from);
      assert ls[0..] == ls;
    } else {
      OffsetOfLine(d, k + 1, i - 1);
      assert ls[i..] == LinesFrom(d, k + 1)[i - 1..];
    }
  }

  /** Assembling records loses nothing and adds nothing: written out again, the records of a log
      are its bytes from the first header line up to the unfinished last line. */
  lemma RecordsAreTheLog(cfg: Config, d: Bytes)
    ensures var ls := LinesFrom(d, 0);
      var n := Continuations(cfg, Texts(ls));
      var o := if n < |ls| then ls[n].offset else Rest(d, 0);
      o <= Rest(d, 0) && Terminated(RecordTexts(Grouped(cfg, Texts(ls)))) == d[o..Rest(d, 0)]
  {
    hide LinesFrom, Rest, Continuations, Terminated, Grouped, RecordTexts;
    var ls := LinesFrom(d, 0);
    var n := Continuations(cfg, Texts(ls));
    RecordsAreLines(cfg, Texts(ls));
    OffsetOfLine(d, 0, n);
    assert Texts(ls)[n..] == Texts(ls[n..]);
  }

  lemma {:induction false} JoinedStarts(head: Bytes, more: seq<Bytes>)
    ensures head <= Joined(head, more)
    decreases |more|
  {
    if more != [] {
      JoinedStarts(head + [NEWLINE] + more[0], more[1..]);
    }
  }

  lemma {:induction false} HeaderGrouped(cfg: Config, ts: seq<Bytes>, k: nat)
    requires k < |ts| && Header(cfg, ts[k])
    ensures exists r :: r in Grouped(cfg, ts) && r.stamp == cfg.stamp(ts[k]) && ts[k] <= r.text
    decreases |ts|
  {
    hide Joined;
    if !Header(cfg, ts[0]) {
      HeaderGrouped(cfg, ts[1..], k - 1);
    } else if k == 0 {
      var r := FirstRecord(cfg, ts);
      JoinedStarts(ts[0], ts[1..][..Continuations(cfg, ts[1..])]);
      assert r in Grouped(cfg, ts);
    } else {
      var n := Continuations(cfg, ts[1..]);
      assert ts[1..][k - 1] == ts[k];
      assert ts[1..][n..][k - 1 - n] == ts[k];
      HeaderGrouped(cfg, ts[1..][n..], k - 1 - n);
    }
  }

  lemma {:induction false} FilterMember(p: Record -> bool, rs: seq<Record>, r: Record)
    ensures r in Filter(p, rs) <==> r in rs && p(r)
    decreases |rs|
  {
    if rs != [] {
      FilterMember(p, rs[1..], r);
      assert rs == [rs[0]] + rs[1..];
    }
  }

  /** Every header line with a time in the range, ends included, starts a record of the answer. */
  lemma EveryHeaderAnswered(cfg: Config, d: Bytes, s: nat, e: nat, k: nat)
    requires k < |LinesFrom(d, 0)|
    requires var t := cfg.stamp(LinesFrom(d, 0)[k].text); t != 0 && s <= t && t <= e
    ensures var l := LinesFrom(d, 0)[k];
      exists r :: r in AllRecords(cfg, d, s, e) && r.stamp == cfg.stamp(l.text) && l.text <= r.text
  {
    hide LinesFrom, Grouped, Filter;
    var ts := Texts(LinesFrom(d, 0));
    HeaderGrouped(cfg, ts, k);
    var r :| r in Grouped(cfg, ts) && r.stamp == cfg.stamp(ts[k]) && ts[k] <= r.text;
    FilterMember(Within(s, e), Grouped(cfg, ts), r);
  }
}
