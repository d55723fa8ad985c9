/** The boolean searcher: compiling a pattern, matching a line and collecting the evidence. */
module QueryMatch {
  import opened Sequences
  import opened LogLines
  import opened QueryTokens
  import opened QueryParser
  import QueryRoundTrip

  datatype MatchedWord = MatchedWord(word: Bytes, pos: nat)

  /** `word` occurs in `line` at `pos`. */
  predicate At(line: Bytes, word: Bytes, pos: nat) {
    pos + |word| <= |line| && line[pos..pos + |word|] == word
  }

  ghost predicate Contains(line: Bytes, word: Bytes) {
    exists pos: nat :: At(line, word, pos)
  }

  ghost predicate FirstAt(line: Bytes, word: Bytes, pos: nat) {
    At(line, word, pos) && forall p: nat :: p < pos ==> !At(line, word, p)
  }

  /** The plain boolean meaning of a pattern on a line; a null node is false. */
  ghost predicate Holds(n: Node, line: Bytes)
    decreases n, 1
  {
    match n
    case Null => false
    case Leaf(w) => Contains(line, w)
    case Negate(c) => !Holds(c, line)
    case Combine(Conj, cs) => HoldAll(cs, line)
    case Combine(Disj, cs) => HoldSome(cs, line)
  }

  ghost predicate HoldAll(ns: seq<Node>, line: Bytes)
    decreases ns, 0
  {
    ns == [] || (Holds(ns[0], line) && HoldAll(ns[1..], line))
  }

  ghost predicate HoldSome(ns: seq<Node>, line: Bytes)
    decreases ns, 0
  {
    ns != [] && (Holds(ns[0], line) || HoldSome(ns[1..], line))
  }

  predicate NotFree(n: Node)
    decreases n, 1
  {
    match n
    case Null => true
    case Leaf(_) => true
    case Negate(_) => false
    case Combine(_, cs) => NotFreeAll(cs)
  }

  predicate NotFreeAll(ns: seq<Node>)
    decreases ns, 0
  {
    ns == [] || (NotFree(ns[0]) && NotFreeAll(ns[1..]))
  }

  /** Where `word` first occurs in `line` at or after `from`, or -1. */
  function FindFrom(line: Bytes, word: Bytes, from: nat): (pos: int)
    ensures pos < 0 ==> forall p: nat :: from <= p ==> !At(line, word, p)
    ensures pos >= 0 ==> from <= pos && At(line, word, pos) && forall p: nat :: from <= p < pos ==> !At(line, word, p)
    decreases |line| - from
  {
    if from + |word| > |line| then -1
    else if At(line, word, from) then from
    else FindFrom(line, word, from + 1)
  }

  /** The evidence of a match: a word's first place; under AND the evidence of every child, in
      order; under OR that of the first child that holds; under NOT none. */
  ghost function Report(n: Node, line: Bytes): seq<MatchedWord>
    decreases n, 1
  {
    match n
    case Null => []
    case Leaf(w) => if Contains(line, w) then [MatchedWord(w, FindFrom(line, w, 0))] else []
    case Negate(_) => []
    case Combine(Conj, cs) => ReportAll(cs, line)
    case Combine(Disj, cs) => ReportSome(cs, line)
  }

  ghost function ReportAll(ns: seq<Node>, line: Bytes): seq<MatchedWord>
    decreases ns, 0
  {
    if ns == [] then [] else Report(ns[0], line) + ReportAll(ns[1..], line)
  }

  ghost function ReportSome(ns: seq<Node>, line: Bytes): seq<MatchedWord>
    decreases ns, 0
  {
    if ns == [] then []
    else if Holds(ns[0], line) then Report(ns[0], line)
    else ReportSome(ns[1..], line)
  }

  ghost predicate ContainsAll(line: Bytes, found: seq<MatchedWord>) {
    forall m :: m in found ==> Contains(line, m.word)
  }

  // ----- What the evidence means

  /** The words of a pattern outside every NOT. */
  function Wanted(n: Node): seq<Bytes>
    decreases n, 1
  {
    match n
    case Null => []
    case Leaf(w) => [w]
    case Negate(_) => []
    case Combine(_, cs) => WantedOfAll(cs)
  }

  function WantedOfAll(ns: seq<Node>): seq<Bytes>
    decreases ns, 0
  {
    if ns == [] then [] else Wanted(ns[0]) + WantedOfAll(ns[1..])
  }

  /** Each reported pair is the first place in the line of one of the pattern's words. */
  lemma {:induction false} ReportIsEvidence(n: Node, line: Bytes)
    ensures forall m :: m in Report(n, line) ==> m.word in Wanted(n) && FirstAt(line, m.word, m.pos)
    decreases n, 1
  {
    match n
    case Null =>
    case Leaf(w) =>
    case Negate(_) =>
    case Combine(op, cs) => ReportsAreEvidence(cs, line);
  }

  lemma {:induction false} ReportsAreEvidence(ns: seq<Node>, line: Bytes)
    ensures forall m :: m in ReportAll(ns, line) || m in ReportSome(ns, line) ==>
      m.word in WantedOfAll(ns) && FirstAt(line, m.word, m.pos)
    decreases ns, 0
  {
    if ns != [] {
      ReportIsEvidence(ns[0], line);
      ReportsAreEvidence(ns[1..], line);
    }
  }

  /** Of an OR, only the first operand that holds reports. */
  lemma {:induction false} OrReportsFirst(cs: seq<Node>, k: nat, line: Bytes)
    requires k < |cs| && Holds(cs[k], line) && forall j :: 0 <= j < k ==> !Holds(cs[j], line)
    ensures Report(Combine(Disj, cs), line) == Report(cs[k], line)
    decreases k
  {
    if k > 0 {
      assert !Holds(cs[0], line);
      OrReportsFirst(cs[1..], k - 1, line);
    }
  }

  /** Of an AND, every operand reports, in order. */
  lemma {:induction false} AndReportsEach(x: seq<Node>, y: seq<Node>, line: Bytes)
    ensures Report(Combine(Conj, x + y), line) == Report(Combine(Conj, x), line) + Report(Combine(Conj, y), line)
    ensures |x| == 1 ==> Report(Combine(Conj, x), line) == Report(x[0], line)
    decreases |x|
  {
    if x == [] {
      assert x + y == y;
    } else {
      assert (x + y)[1..] == x[1..] + y;
      AndReportsEach(x[1..], y, line);
      Assoc(Report(x[0], line), ReportAll(x[1..], line), ReportAll(y, line));
    }
  }

  /** For a pattern without NOT that holds on a line, every line with all reported words satisfies
      the pattern too. */
  lemma {:induction false} ReportSuffices(n: Node, line: Bytes, other: Bytes)
    requires NotFree(n) && Holds(n, line) && ContainsAll(other, Report(n, line))
    ensures Holds(n, other)
    decreases n, 1
  {
    match n
    case Leaf(w) =>
      assert MatchedWord(w, FindFrom(line, w, 0)) in Report(n, line);
    case Combine(op, cs) =>
      if op == Conj {
        ReportAllSuffices(cs, line, other);
      } else {
        ReportSomeSuffices(cs, line, other);
      }
  }

  lemma {:induction false} ReportAllSuffices(ns: seq<Node>, line: Bytes, other: Bytes)
    requires NotFreeAll(ns) && HoldAll(ns, line) && ContainsAll(other, ReportAll(ns, line))
    ensures HoldAll(ns, other)
    decreases ns, 0
  {
    if ns != [] {
      assert forall m :: m in Report(ns[0], line) || m in ReportAll(ns[1..], line) ==> m in ReportAll(ns, line);
      ReportSuffices(ns[0], line, other);
      ReportAllSuffices(ns[1..], line, other);
    }
  }

  lemma {:induction false} ReportSomeSuffices(ns: seq<Node>, line: Bytes, other: Bytes)
    requires NotFreeAll(ns) && HoldSome(ns, line) && ContainsAll(other, ReportSome(ns, line))
    ensures HoldSome(ns, other)
    decreases ns, 0
  {
    if Holds(ns[0], line) {
      ReportSuffices(ns[0], line, other);
    } else {
      ReportSomeSuffices(ns[1..], line, other);
    }
  }

  // ----- The matcher

  /** `std::string::find`: the first occurrence, or -1. */
  method Find(line: Bytes, word: Bytes) returns (pos: int)
    ensures pos == FindFrom(line, word, 0)
    ensures pos < 0 <==> !Contains(line, word)
  {
    pos := 0;
    while pos + |word| <= |line|
      invariant pos >= 0
      invariant FindFrom(line, word, pos) == FindFrom(line, word, 0)
    {
      if line[pos..pos + |word|] == word {
        return;
      }
      pos := pos + 1;
    }
    pos := -1;
  }

  /** The recursive matcher; `out` is the list the matches are appended to. */
  method MatchNode(n: Node, line: Bytes, withRes: bool, out: seq<MatchedWord>)
    returns (ok: bool, out': seq<MatchedWord>)
    ensures ok <==> Holds(n, line)
    ensures out' == if ok && withRes then out + Report(n, line) else out
    decreases n, 1
  {
    out' := out;
    match n {
      case Null =>
        ok := false;
      case Leaf(w) =>
        var pos := Find(line, w);
        ok := pos >= 0;
        if ok && withRes {
          out' := out + [MatchedWord(w, pos)];
        }
      case Negate(c) =>
        var inner, _ := MatchNode(c, line, withRes, []);
        ok := !inner;
        assert out + Report(n, line) == out;
      case Combine(op, cs) =>
        if op == Conj {
          var tmp;
          ok, tmp := MatchAll(cs, line, withRes);
          if ok {
            out' := out + tmp;
          }
        } else {
          ok, out' := MatchSome(cs, line, withRes, out);
        }
    }
  }

  lemma AllFrom(cs: seq<Node>, i: nat, line: Bytes)
    requires i < |cs|
    ensures HoldAll(cs[i..], line) == (Holds(cs[i], line) && HoldAll(cs[i + 1..], line))
    ensures ReportAll(cs[i..], line) == Report(cs[i], line) + ReportAll(cs[i + 1..], line)
  {
    hide Holds, Report;
    assert cs[i..][1..] == cs[i + 1..];
  }

  lemma AllFromEnd(cs: seq<Node>, line: Bytes)
    ensures HoldAll(cs[|cs|..], line) && ReportAll(cs[|cs|..], line) == []
  {
  }

  /** The AND loop: each child reports into its own list, and the lists are joined. */
  method MatchAll(cs: seq<Node>, line: Bytes, withRes: bool) returns (ok: bool, tmp: seq<MatchedWord>)
    ensures ok <==> HoldAll(cs, line)
    ensures ok ==> tmp == if withRes then ReportAll(cs, line) else []
    decreases cs, 0
  {
    hide HoldAll, ReportAll, Holds, Report;
    tmp := [];
    ok := true;
    var i := 0;
    ghost var reported := [];
    assert cs[0..] == cs;
    while i < |cs|
      invariant 0 <= i <= |cs| && ok
      invariant HoldAll(cs, line) == HoldAll(cs[i..], line)
      invariant reported + ReportAll(cs[i..], line) == ReportAll(cs, line)
      invariant tmp == if withRes then reported else []
    {
      var childMatched;
      ok, childMatched := MatchNode(cs[i], line, withRes, []);
      AllFrom(cs, i, line);
      if !ok {
        return;
      }
      Assoc(reported, Report(cs[i], line), ReportAll(cs[i + 1..], line));
      reported := reported + Report(cs[i], line);
      tmp := tmp + childMatched;
      i := i + 1;
    }
    AllFromEnd(cs, line);
  }

  /** The OR loop: the first child that matches reports into `out` itself. */
  method MatchSome(cs: seq<Node>, line: Bytes, withRes: bool, out: seq<MatchedWord>)
    returns (ok: bool, out': seq<MatchedWord>)
    ensures ok <==> HoldSome(cs, line)
    ensures out' == if ok && withRes then out + ReportSome(cs, line) else out
    decreases cs, 0
  {
    out' := out;
    ok := false;
    var i := 0;
    while i < |cs|
      invariant 0 <= i <= |cs| && out' == out && !ok
      invariant HoldSome(cs, line) == HoldSome(cs[i..], line)
      invariant ReportSome(cs, line) == ReportSome(cs[i..], line)
    {
      ok, out' := MatchNode(cs[i], line, withRes, out);
      assert cs[i..][1..] == cs[i + 1..];
      if ok {
        return;
      }
      i := i + 1;
    }
  }

  /** The searcher object: the compiled pattern, null until a pattern is built. */
  class BooleanSearcher {
    var pattern: Node

    constructor ()
      ensures pattern == Null
    {
      pattern := Null;
    }

    /** Compile a pattern; a refused one leaves the searcher empty. */
    method BuildPattern(text: Bytes) returns (r: Pattern)
      modifies this
      ensures r == QueryRoundTrip.Compile(text)
      ensures pattern == if r.Pattern? then r.node else Null
    {
      var tokens := TokenizeText(QueryRoundTrip.Trim(text));
      if tokens.Rejected? {
        pattern := Null;
        return Refused(tokens.error);
      }
      var parse, pos := ParseExpr(tokens.tokens, 0);
      assert tokens.tokens[0..] == tokens.tokens;
      if parse.Failed? {
        pattern := Null;
        return Refused(parse.error);
      }
      if pos != |tokens.tokens| {
        pattern := Null;
        return Refused(ExtraContent);
      }
      pattern := parse.node;
      return Pattern.Pattern(parse.node);
    }

    /** Match one line; with results wanted, the old list is dropped first. */
    method SearchLine(line: Bytes, matched: seq<MatchedWord>, withRes: bool)
      returns (ok: bool, matched': seq<MatchedWord>)
      ensures ok <==> Holds(pattern, line)
      ensures matched' == if !withRes then matched else if ok then Report(pattern, line) else []
    {
      ok, matched' := MatchNode(pattern, line, withRes, if withRes then [] else matched);
    }
  }
}
