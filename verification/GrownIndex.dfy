/** Whether the index of an older version of a log is also the index of the grown log. */
module GrownIndex {
  import opened LogLines
  import opened TextIndexer
  import opened IndexShape

  /** The last line that is not over-long gives a closing entry, if there are entries at all. */
  ghost predicate Closes(cfg: Config, ls: seq<Line>) {
    var k := LastKept(ls);
    k >= 0 && ls[k].text != [] && cfg.stamp(ls[k].text) != 0
  }

  ghost predicate NoneKept(ls: seq<Line>) {
    forall i :: 0 <= i < |ls| ==> |ls[i].text| > MAX_LINE_SIZE
  }

  /** All new complete lines are over-long; or none of them gets an entry, and there are no entries
      at all or neither version of the log ends in a line that gives a closing entry. */
  ghost predicate KeepsIndex(cfg: Config, before: seq<Line>, after: seq<Line>)
    requires cfg.interval > 0 && before <= after
  {
    NoneKept(after[|before|..]) ||
    (MarkedLines(cfg, after) == MarkedLines(cfg, before) &&
     (MarkedLines(cfg, before) == [] || (!Closes(cfg, before) && !Closes(cfg, after))))
  }

  ghost function Closing(cfg: Config, ls: seq<Line>): seq<TimeIndex>
    requires cfg.interval > 0
  {
    var k := LastKept(ls);
    if MarkedLines(cfg, ls) != [] && Closes(cfg, ls) then [TimeIndex(cfg.stamp(ls[k].text), ls[k].offset)] else []
  }

  /** The entries are those of the marked lines, and the closing one. */
  lemma CloseShape(cfg: Config, ls: seq<Line>)
    requires cfg.interval > 0
    ensures Close(cfg, Run(cfg, FRESH, ls)) == Run(cfg, FRESH, ls).outputs + Closing(cfg, ls)
  {
    RegularEntries(cfg, ls);
    if !Run(cfg, FRESH, ls).stopped {
      LastSeen(cfg, ls);
    }
  }

  /** A grown log keeps the marked lines and can only get later ones. */
  lemma {:induction false} MarkedGrows(cfg: Config, before: seq<Line>, after: seq<Line>)
    requires cfg.interval > 0 && before <= after
    ensures MarkedLines(cfg, before) <= MarkedLines(cfg, after)
    ensures forall i :: |MarkedLines(cfg, before)| <= i < |MarkedLines(cfg, after)| ==>
      MarkedLines(cfg, after)[i] >= |before|
    decreases |after|
  {
    if |before| < |after| {
      MarkedGrows(cfg, before, after[..|after| - 1]);
    } else {
      assert before == after;
    }
  }

  lemma {:induction false} LastKeptGrows(before: seq<Line>, after: seq<Line>)
    requires before <= after
    ensures if NoneKept(after[|before|..]) then LastKept(after) == LastKept(before) else LastKept(after) >= |before|
    decreases |after|
  {
    if |before| < |after| {
      var n := |after| - 1;
      LastKeptGrows(before, after[..n]);
      assert after[|before|..] == after[..n][|before|..] + [after[n]];
      if NoneKept(after[|before|..]) {
        assert forall i :: 0 <= i < n - |before| ==> after[..n][|before|..][i] == after[|before|..][i];
        assert |after[|before|..][n - |before|].text| > MAX_LINE_SIZE;
      }
    } else {
      assert before == after;
    }
  }

  /** A marked line is not over-long. */
  lemma NewMarkIsKept(cfg: Config, before: seq<Line>, after: seq<Line>)
    requires cfg.interval > 0 && before <= after && MarkedLines(cfg, after) != MarkedLines(cfg, before)
    ensures !NoneKept(after[|before|..])
  {
    MarkedGrows(cfg, before, after);
    RegularEntries(cfg, after);
    var k := MarkedLines(cfg, after)[|MarkedLines(cfg, before)|];
    assert after[|before|..][k - |before|] == after[k];
  }

  /** With the same marked lines the regular entries are the same. */
  lemma SameMarksSameOutputs(cfg: Config, before: seq<Line>, after: seq<Line>)
    requires cfg.interval > 0 && before <= after && MarkedLines(cfg, after) == MarkedLines(cfg, before)
    ensures Run(cfg, FRESH, after).outputs == Run(cfg, FRESH, before).outputs
  {
    hide Floor, Run;
    RegularEntries(cfg, before);
    RegularEntries(cfg, after);
  }

  /** A new entry shows, because its offset is new. */
  lemma NewMarkShows(cfg: Config, before: seq<Line>, after: seq<Line>)
    requires cfg.interval > 0 && before <= after && Ordered(after)
    requires MarkedLines(cfg, after) != MarkedLines(cfg, before)
    ensures Close(cfg, Run(cfg, FRESH, after)) != Close(cfg, Run(cfg, FRESH, before))
  {
    hide Run, Floor, Close;
    var m, m' := MarkedLines(cfg, before), MarkedLines(cfg, after);
    MarkedGrows(cfg, before, after);
    RegularEntries(cfg, before);
    RegularEntries(cfg, after);
    CloseShape(cfg, before);
    CloseShape(cfg, after);
    var n := |m|;
    assert Close(cfg, Run(cfg, FRESH, after))[n].offset == after[m'[n]].offset;
    if |Close(cfg, Run(cfg, FRESH, before))| > n {
      assert Close(cfg, Run(cfg, FRESH, before))[n].offset == after[LastKept(before)].offset;
    }
  }

  /** With the same marked lines the closing entries agree when they come from the same line, or
      when there are none; two different lines have different offsets. */
  lemma ClosingsAgreeIff(cfg: Config, before: seq<Line>, after: seq<Line>)
    requires cfg.interval > 0 && before <= after && Ordered(after)
    requires MarkedLines(cfg, after) == MarkedLines(cfg, before)
    ensures Closing(cfg, after) == Closing(cfg, before) <==> KeepsIndex(cfg, before, after)
  {
    hide MarkedLines, LastKept, NoneKept;
    LastKeptGrows(before, after);
    var k, k' := LastKept(before), LastKept(after);
    assert k >= 0 ==> before[k] == after[k];
    assert k >= 0 && k' >= |before| ==> after[k].offset != after[k'].offset;
  }

  lemma SamePrefix<T>(a: seq<T>, x: seq<T>, y: seq<T>)
    ensures a + x == a + y <==> x == y
  {
    assert (a + x)[|a|..] == x && (a + y)[|a|..] == y;
  }

  lemma SameIndexOverLines(cfg: Config, before: seq<Line>, after: seq<Line>)
    requires cfg.interval > 0 && before <= after && Ordered(after)
    ensures Close(cfg, Run(cfg, FRESH, after)) == Close(cfg, Run(cfg, FRESH, before)) <==>
      KeepsIndex(cfg, before, after)
  {
    hide Run, Floor, Close, MarkedLines, LastKept, Closing, Closes, NoneKept;
    if MarkedLines(cfg, after) == MarkedLines(cfg, before) {
      SameMarksSameOutputs(cfg, before, after);
      CloseShape(cfg, before);
      CloseShape(cfg, after);
      SamePrefix(Run(cfg, FRESH, before).outputs, Closing(cfg, after), Closing(cfg, before));
      ClosingsAgreeIff(cfg, before, after);
    } else {
      NewMarkIsKept(cfg, before, after);
      NewMarkShows(cfg, before, after);
    }
  }

  /** For every log and every grown version of it, each cut anywhere: the old index is the index of
      the grown log if and only if the new lines are all over-long, or none of them gets an entry and
      no closing entry stands in the way. */
  lemma GrownIndexSameIff(cfg: Config, d: Bytes, d': Bytes)
    requires cfg.interval > 0 && d <= d'
    ensures LinesFrom(d, 0) <= LinesFrom(d', 0)
    ensures Index(cfg, d') == Index(cfg, d) <==> KeepsIndex(cfg, LinesFrom(d, 0), LinesFrom(d', 0))
  {
    hide Run, Close, LinesFrom, KeepsIndex;
    LinesOrdered(d', 0);
    LinesOfPrefix(d, d');
    SameIndexOverLines(cfg, LinesFrom(d, 0), LinesFrom(d', 0));
  }
}
