/** Which lines own the regular entries of a text index, and what the scan remembers. */
module IndexShape {
  import opened LogLines
  import opened TextIndexer

  /** The positions of the lines that get a regular entry. */
  function MarkedLines(cfg: Config, ls: seq<Line>): seq<nat>
    requires cfg.interval > 0
  {
    if ls == [] then []
    else
      var n := |ls| - 1;
      var m := MarkedLines(cfg, ls[..n]);
      if Marks(cfg, Run(cfg, FRESH, ls[..n]), ls[n]) then m + [n] else m
  }

  /** The regular entries are the marked lines in order, each with its floored time; the
      bucket variable is the newest entry's, and giving up means there was none. */
  lemma {:induction false} RegularEntries(cfg: Config, ls: seq<Line>)
    requires cfg.interval > 0
    ensures var st, m := Run(cfg, FRESH, ls), MarkedLines(cfg, ls);
            && |st.outputs| == |m|
            && (forall i :: 0 <= i < |m| ==>
                  m[i] < |ls| && Stamped(cfg, ls[m[i]]) &&
                  st.outputs[i] == TimeIndex(Floor(cfg, cfg.stamp(ls[m[i]].text)), ls[m[i]].offset))
            && (forall i, j :: 0 <= i < j < |m| ==> m[i] < m[j])
            && st.bucket == (if m == [] then 0 else st.outputs[|m| - 1].timestamp)
            && (st.stopped ==> m == [])
    decreases |ls|
  {
    if ls != [] {
      RegularEntries(cfg, ls[..|ls| - 1]);
    }
  }

  /** Before the line of the i-th regular entry the scan had exactly the first i of them. */
  lemma {:induction false} MarkedPrefix(cfg: Config, ls: seq<Line>, i: nat)
    requires cfg.interval > 0 && i < |MarkedLines(cfg, ls)|
    ensures var k := MarkedLines(cfg, ls)[i];
            && k < |ls| && MarkedLines(cfg, ls[..k]) == MarkedLines(cfg, ls)[..i]
            && Marks(cfg, Run(cfg, FRESH, ls[..k]), ls[k])
    decreases |ls|
  {
    var n := |ls| - 1;
    var m := MarkedLines(cfg, ls[..n]);
    if i < |m| {
      MarkedPrefix(cfg, ls[..n], i);
      assert ls[..n][..m[i]] == ls[..m[i]];
      assert MarkedLines(cfg, ls)[..i] == m[..i];
    }
  }

  lemma OutputsBefore(cfg: Config, ls: seq<Line>, i: nat)
    requires cfg.interval > 0 && i < |MarkedLines(cfg, ls)|
    ensures var k := MarkedLines(cfg, ls)[i];
            && k < |ls| && i <= |Run(cfg, FRESH, ls).outputs|
            && Run(cfg, FRESH, ls[..k]).outputs == Run(cfg, FRESH, ls).outputs[..i]
  {
    var k := MarkedLines(cfg, ls)[i];
    RegularEntries(cfg, ls);
    MarkedPrefix(cfg, ls, i);
    RegularEntries(cfg, ls[..k]);
  }

  /** The position of the last line that is not over-long, or -1. */
  function LastKept(ls: seq<Line>): (k: int)
    ensures -1 <= k < |ls|
    ensures k >= 0 ==> |ls[k].text| <= MAX_LINE_SIZE
  {
    if ls == [] then -1
    else if |ls[|ls| - 1].text| <= MAX_LINE_SIZE then |ls| - 1
    else LastKept(ls[..|ls| - 1])
  }

  /** A scan that has not given up remembers the last line that is not over-long, and the
      over-long lines after it change nothing but the skip count. */
  lemma {:induction false} LastSeen(cfg: Config, ls: seq<Line>)
    requires cfg.interval > 0 && !Run(cfg, FRESH, ls).stopped
    ensures var st, k := Run(cfg, FRESH, ls), LastKept(ls);
            if k < 0 then st.last == FRESH.last && st.outputs == []
            else st.last == ls[k] && st == Run(cfg, FRESH, ls[..k + 1]).(skipped := st.skipped)
    decreases |ls|
  {
    if ls != [] {
      var n := |ls| - 1;
      assert !Run(cfg, FRESH, ls[..n]).stopped;
      LastSeen(cfg, ls[..n]);
      var k := LastKept(ls);
      if k == n {
        assert ls[..k + 1] == ls;
      } else if k >= 0 {
        assert ls[..n][..k + 1] == ls[..k + 1];
      }
    }
  }

  /** The scan saw more than MAX_SKIPPED lines without ever an indexable one, the last of them
      short enough to be looked at. */
  ghost predicate Barren(cfg: Config, ls: seq<Line>, k: nat)
    requires k < |ls|
  {
    MAX_SKIPPED <= k && |ls[k].text| <= MAX_LINE_SIZE && forall i :: 0 <= i <= k ==> !Stamped(cfg, ls[i])
  }

  ghost predicate BarrenStart(cfg: Config, ls: seq<Line>) {
    exists k :: 0 <= k < |ls| && Barren(cfg, ls, k)
  }

  ghost predicate NothingFound(cfg: Config, ls: seq<Line>) {
    forall i :: 0 <= i < |ls| ==> !Stamped(cfg, ls[i])
  }

  /** How far the search for a first entry has come. */
  ghost predicate Searched(cfg: Config, st: ScanState, ls: seq<Line>) {
    if BarrenStart(cfg, ls) then st.stopped && st.outputs == []
    else if NothingFound(cfg, ls) then !st.stopped && st.outputs == [] && st.bucket == 0 && st.skipped == |ls|
    else !st.stopped && st.outputs != []
  }

  lemma BarrenLater(cfg: Config, was: seq<Line>, l: Line)
    ensures BarrenStart(cfg, was + [l]) <==>
      BarrenStart(cfg, was) ||
      (NothingFound(cfg, was) && !Stamped(cfg, l) && |l.text| <= MAX_LINE_SIZE && |was| >= MAX_SKIPPED)
  {
    hide Stamped;
    var ls := was + [l];
    assert forall i :: 0 <= i < |was| ==> was[i] == ls[i];
    forall k | 0 <= k < |was| ensures Barren(cfg, was, k) <==> Barren(cfg, ls, k) {
      assert forall i :: 0 <= i <= k ==> was[i] == ls[i];
    }
    assert Barren(cfg, ls, |was|) <==>
      NothingFound(cfg, was) && !Stamped(cfg, l) && |l.text| <= MAX_LINE_SIZE && |was| >= MAX_SKIPPED;
    if BarrenStart(cfg, was) {
      var k :| 0 <= k < |was| && Barren(cfg, was, k);
      assert Barren(cfg, ls, k);
    }
  }

  lemma FoundLater(cfg: Config, was: seq<Line>, l: Line)
    ensures NothingFound(cfg, was + [l]) <==> NothingFound(cfg, was) && !Stamped(cfg, l)
  {
    assert forall i :: 0 <= i < |was| ==> was[i] == (was + [l])[i];
    assert (was + [l])[|was|] == l;
  }

  lemma SearchedStep(cfg: Config, st: ScanState, was: seq<Line>, l: Line)
    requires cfg.interval > 0 && Searched(cfg, st, was)
    ensures Searched(cfg, Step(cfg, st, l), was + [l])
  {
    hide BarrenStart, NothingFound;
    BarrenLater(cfg, was, l);
    FoundLater(cfg, was, l);
  }

  lemma NothingSearched(cfg: Config)
    ensures Searched(cfg, FRESH, [])
  {
  }

  lemma {:induction false} RunSearched(cfg: Config, ls: seq<Line>)
    requires cfg.interval > 0
    ensures Searched(cfg, Run(cfg, FRESH, ls), ls)
    decreases |ls|
  {
    hide Searched, Step;
    if ls == [] {
      NothingSearched(cfg);
    } else {
      var n := |ls| - 1;
      RunSearched(cfg, ls[..n]);
      SearchedStep(cfg, Run(cfg, FRESH, ls[..n]), ls[..n], ls[n]);
      assert ls == ls[..n] + [ls[n]];
    }
  }

  /** When the scan gives up: at the first short line without a timestamp that follows at least
      MAX_SKIPPED lines none of which could be indexed, over-long ones among them. */
  lemma GivesUpIff(cfg: Config, ls: seq<Line>)
    requires cfg.interval > 0
    ensures Run(cfg, FRESH, ls).stopped <==> BarrenStart(cfg, ls)
  {
    hide BarrenStart, NothingFound;
    RunSearched(cfg, ls);
  }

  /** A text index is empty exactly when the log has nothing to index or the scan gave up first. */
  lemma EmptyIndexIff(cfg: Config, d: Bytes)
    requires cfg.interval > 0
    ensures var ls := LinesFrom(d, 0);
      Index(cfg, d) == [] <==> ((forall l :: l in ls ==> !Stamped(cfg, l)) || BarrenStart(cfg, ls))
  {
    hide Run, BarrenStart, Stamped;
    RunSearched(cfg, LinesFrom(d, 0));
  }
}
