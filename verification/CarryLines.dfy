/** How the searcher splits a decompressed stream into lines (`LogSearcher::get_lines_gzip`). */
module CarryLines {
  import opened Sequences
  import opened LogLines
  import opened IndexedScan
  import opened GzipIndexer

  lemma NextTaken(carry: Bytes, at: nat)
    requires at <= |carry|
    ensures var nl := NextNewline(carry, at);
      if nl == |carry| then Texts(LinesFrom(carry, at)) == [] && Rest(carry, at) == at
      else
        Texts(LinesFrom(carry, at)) == [carry[at..nl]] + Texts(LinesFrom(carry, nl + 1)) &&
        Rest(carry, at) == Rest(carry, nl + 1)
  {
    hide LinesFrom, Rest;
    FirstLine(carry, at);
    FirstRest(carry, at);
  }

  lemma NothingAfter(carry: Bytes)
    ensures Texts(LinesFrom(carry, |carry|)) == [] && Rest(carry, |carry|) == |carry|
  {
  }

  /** Take the complete lines from `pos` on out of the carry; what is left is the unfinished line,
      or nothing when `pos` is past the end. */
  method GetLinesGzip(carry: Bytes, lines: seq<Bytes>, pos: nat) returns (carry': Bytes, lines': seq<Bytes>)
    ensures pos <= |carry| ==> lines' == lines + Texts(LinesFrom(carry, pos)) && carry' == carry[Rest(carry, pos)..]
    ensures pos > |carry| ==> lines' == lines && carry' == []
  {
    hide LinesFrom, Rest, Texts;
    carry', lines' := carry, lines;
    var at := pos;
    NothingAfter(carry);
    while at < |carry|
      invariant at <= |carry| || at == pos
      invariant pos <= |carry| ==>
        at <= |carry| && Rest(carry, pos) == Rest(carry, at) &&
        lines + Texts(LinesFrom(carry, pos)) == lines' + Texts(LinesFrom(carry, at))
      invariant pos > |carry| ==> lines' == lines
      decreases |carry| - at
    {
      var nl := NextNewline(carry, at);
      NextTaken(carry, at);
      if nl == |carry| {
        break;
      }
      Assoc(lines', [carry[at..nl]], Texts(LinesFrom(carry, nl + 1)));
      lines' := lines' + [carry[at..nl]];
      at := nl + 1;
    }
    if 0 < at < |carry| {
      carry' := carry[at..];
      return;
    }
    if at >= |carry| {
      carry' := [];
      return;
    }
  }

  /** Appending each chunk to the carry and taking out the complete lines. */
  ghost function Fed(chunks: seq<Bytes>): (Bytes, seq<Bytes>) {
    if chunks == [] then ([], [])
    else
      var (carry, lines) := Fed(chunks[..|chunks| - 1]);
      var whole := carry + chunks[|chunks| - 1];
      (whole[Rest(whole, 0)..], lines + Texts(LinesFrom(whole, 0)))
  }

  lemma TextsOfShifted(a: seq<Line>, b: seq<Line>, delta: nat)
    ensures Texts(a + Shift(b, delta)) == Texts(a) + Texts(b)
  {
  }

  lemma NothingFed()
    ensures Rest([], 0) == 0 && Texts(LinesFrom([], 0)) == []
  {
  }

  /** However the stream is cut into chunks, the lines found are those of the whole stream, and
      the carry is its unfinished line. */
  lemma {:induction false} FedIsWhole(chunks: seq<Bytes>)
    ensures var d := Concat(chunks); Fed(chunks) == (d[Rest(d, 0)..], Texts(LinesFrom(d, 0)))
    decreases |chunks|
  {
    hide LinesFrom, Rest, Shift, Texts;
    if chunks == [] {
      NothingFed();
    } else {
      var n := |chunks| - 1;
      var d, chunk := Concat(chunks[..n]), chunks[n];
      FedIsWhole(chunks[..n]);
      ChunkLines(d, chunk);
      TextsOfShifted(LinesFrom(d, 0), LinesFrom(d[Rest(d, 0)..] + chunk, 0), Rest(d, 0));
    }
  }
}
