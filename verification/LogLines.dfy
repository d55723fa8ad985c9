/** Log files as byte strings, and the newline-terminated lines they hold. */
module LogLines {
  import opened Sequences

  type Byte = b: int | 0 <= b < 256
  type Bytes = seq<Byte>

  const NEWLINE: Byte := 10

  /** A complete line: where it starts in the file, and its bytes without the newline. */
  datatype Line = Line(offset: nat, text: Bytes)

  /** The first newline at or after `from`, or `|d|` when there is none (`memchr`, `find`). */
  function NextNewline(d: Bytes, from: nat): (k: nat)
    requires from <= |d|
    ensures from <= k <= |d|
    ensures k < |d| ==> d[k] == NEWLINE
    ensures forall i :: from <= i < k ==> d[i] != NEWLINE
    decreases |d| - from
  {
    if from == |d| || d[from] == NEWLINE then from else NextNewline(d, from + 1)
  }

  /** The complete lines of `d` that start at or after the line start `from`. */
  function LinesFrom(d: Bytes, from: nat): seq<Line>
    requires from <= |d|
    decreases |d| - from
  {
    var k := NextNewline(d, from);
    if k == |d| then [] else [Line(from, d[from..k])] + LinesFrom(d, k + 1)
  }

  /** Where the unfinished line at the end of `d` starts. */
  function Rest(d: Bytes, from: nat): (r: nat)
    requires from <= |d|
    ensures from <= r <= |d|
    decreases |d| - from
  {
    var k := NextNewline(d, from);
    if k == |d| then from else Rest(d, k + 1)
  }

  ghost predicate Ordered(ls: seq<Line>) {
    forall i, j :: 0 <= i < j < |ls| ==> ls[i].offset < ls[j].offset
  }

  /** Two positions with no newline before them but one at them agree. */
  lemma NextNewlineIs(d: Bytes, from: nat, k: nat)
    requires from <= k <= |d|
    requires forall i :: from <= i < k ==> d[i] != NEWLINE
    requires k == |d| || d[k] == NEWLINE
    ensures NextNewline(d, from) == k
  {
  }

  lemma FirstLine(d: Bytes, from: nat)
    requires from <= |d|
    ensures var k := NextNewline(d, from);
            LinesFrom(d, from) == if k == |d| then [] else [Line(from, d[from..k])] + LinesFrom(d, k + 1)
  {
  }

  lemma FirstRest(d: Bytes, from: nat)
    requires from <= |d|
    ensures var k := NextNewline(d, from); Rest(d, from) == if k == |d| then from else Rest(d, k + 1)
  {
  }

  lemma {:induction false} LinesOrdered(d: Bytes, from: nat)
    requires from <= |d|
    ensures Ordered(LinesFrom(d, from))
    ensures forall i :: 0 <= i < |LinesFrom(d, from)| ==> from <= LinesFrom(d, from)[i].offset < |d|
    ensures LinesFrom(d, from) != [] ==> LinesFrom(d, from)[0].offset == from
    decreases |d| - from
  {
    var k := NextNewline(d, from);
    if k < |d| {
      LinesOrdered(d, k + 1);
    }
  }

  /** Reading on from the start of the i-th line finds exactly the i-th line and its successors. */
  lemma {:induction false} LinesFromLine(d: Bytes, from: nat, i: nat)
    requires from <= |d| && i < |LinesFrom(d, from)|
    ensures LinesFrom(d, from)[i].offset < |d|
    ensures LinesFrom(d, LinesFrom(d, from)[i].offset) == LinesFrom(d, from)[i..]
    decreases |d| - from
  {
    hide LinesFrom, NextNewline;
    FirstLine(d, from);
    if i > 0 {
      var k := NextNewline(d, from);
      LinesFromLine(d, k + 1, i - 1);
      assert LinesFrom(d, from)[i..] == LinesFrom(d, k + 1)[i - 1..];
    }
  }

  lemma NewlineOfAppend(d: Bytes, more: Bytes, from: nat)
    requires from <= |d|
    ensures var k := NextNewline(d, from);
            k < |d| ==> NextNewline(d + more, from) == k && (d + more)[from..k] == d[from..k]
  {
    if NextNewline(d, from) < |d| {
      NextNewlineIs(d + more, from, NextNewline(d, from));
    }
  }

  /** Appending bytes keeps the complete lines and continues from the unfinished one. */
  lemma {:induction false} LinesOfAppend(d: Bytes, more: Bytes, from: nat)
    requires from <= |d|
    ensures LinesFrom(d + more, from) == LinesFrom(d, from) + LinesFrom(d + more, Rest(d, from))
    decreases |d| - from
  {
    hide LinesFrom, NextNewline, Rest;
    var k, all := NextNewline(d, from), d + more;
    FirstLine(d, from);
    FirstRest(d, from);
    if k < |d| {
      FirstLine(all, from);
      NewlineOfAppend(d, more, from);
      LinesOfAppend(d, more, k + 1);
      Assoc([Line(from, d[from..k])], LinesFrom(d, k + 1), LinesFrom(all, Rest(d, k + 1)));
    } else {
      assert [] + LinesFrom(all, from) == LinesFrom(all, from);
    }
  }

  /** A prefix of a file, even one cut inside a line, has a prefix of its lines. */
  lemma LinesOfPrefix(d: Bytes, d': Bytes)
    requires d <= d'
    ensures LinesFrom(d, 0) <= LinesFrom(d', 0)
  {
    assert d' == d + d'[|d|..];
    LinesOfAppend(d, d'[|d|..], 0);
  }

  function Shift(ls: seq<Line>, delta: nat): seq<Line> {
    seq(|ls|, i requires 0 <= i < |ls| => Line(ls[i].offset + delta, ls[i].text))
  }

  lemma ShiftNone(delta: nat)
    ensures Shift([], delta) == []
  {
  }

  lemma ShiftFirst(l: Line, more: seq<Line>, delta: nat)
    ensures Shift([l] + more, delta) == [Line(delta + l.offset, l.text)] + Shift(more, delta)
  {
  }

  lemma NewlineOfSuffix(pre: Bytes, d: Bytes, from: nat)
    requires from <= |d|
    ensures var k := NextNewline(d, from);
            NextNewline(pre + d, |pre| + from) == |pre| + k && (pre + d)[|pre| + from..|pre| + k] == d[from..k]
  {
    NextNewlineIs(pre + d, |pre| + from, |pre| + NextNewline(d, from));
  }

  lemma FirstOfSuffix(pre: Bytes, d: Bytes, from: nat)
    requires from <= |d|
    ensures var k := NextNewline(d, from);
            LinesFrom(pre + d, |pre| + from) ==
            if k == |d| then [] else [Line(|pre| + from, d[from..k])] + LinesFrom(pre + d, |pre| + (k + 1))
  {
    hide LinesFrom, NextNewline;
    FirstLine(pre + d, |pre| + from);
    NewlineOfSuffix(pre, d, from);
  }

  /** The lines of a suffix are the lines of the whole from there on, moved by the cut. */
  lemma {:induction false} LinesOfSuffix(pre: Bytes, d: Bytes, from: nat)
    requires from <= |d|
    ensures LinesFrom(pre + d, |pre| + from) == Shift(LinesFrom(d, from), |pre|)
    decreases |d| - from
  {
    hide LinesFrom, NextNewline, Shift;
    var k := NextNewline(d, from);
    FirstLine(d, from);
    FirstOfSuffix(pre, d, from);
    if k < |d| {
      LinesOfSuffix(pre, d, k + 1);
      ShiftFirst(Line(from, d[from..k]), LinesFrom(d, k + 1), |pre|);
    } else {
      ShiftNone(|pre|);
    }
  }

  lemma {:induction false} RestOfSuffix(pre: Bytes, d: Bytes, from: nat)
    requires from <= |d|
    ensures Rest(pre + d, |pre| + from) == |pre| + Rest(d, from)
    decreases |d| - from
  {
    hide NextNewline;
    NewlineOfSuffix(pre, d, from);
    var k := NextNewline(d, from);
    if k < |d| {
      RestOfSuffix(pre, d, k + 1);
    }
  }

  lemma {:induction false} RestIsUnfinished(d: Bytes, from: nat)
    requires from <= |d|
    ensures NextNewline(d, Rest(d, from)) == |d|
    decreases |d| - from
  {
    var k := NextNewline(d, from);
    if k < |d| {
      RestIsUnfinished(d, k + 1);
    }
  }

  lemma {:induction false} RestOfAppend(d: Bytes, more: Bytes, from: nat)
    requires from <= |d|
    ensures Rest(d + more, from) == Rest(d + more, Rest(d, from))
    decreases |d| - from
  {
    hide NextNewline;
    var k := NextNewline(d, from);
    NewlineOfAppend(d, more, from);
    if k < |d| {
      RestOfAppend(d, more, k + 1);
    }
  }
}
