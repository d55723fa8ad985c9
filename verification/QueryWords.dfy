/** Ways to write a word in a query: bare, in single quotes or in double quotes. */
module QueryWords {
  import opened Sequences
  import opened LogLines
  import opened QueryTokens

  datatype Style = Bare | Single | Double

  /** Blanks, quotes, parentheses and the backslash. */
  predicate Special(c: Byte) {
    c in {9, 10, 11, 12, 13, 32, 34, 39, 40, 41, 92}
  }

  /** What ends a bare word without being part of the next one. */
  predicate Delimits(rest: Bytes) {
    rest == [] || rest[0] in {9, 10, 11, 12, 13, 32, 40, 41}
  }

  /** AND, OR and NOT. */
  predicate IsName(w: Bytes) {
    w == [65, 78, 68] || w == [79, 82] || w == [78, 79, 84]
  }

  function BareEscaped(w: Bytes): Bytes {
    if w == [] then [] else (if Special(w[0]) then [92, w[0]] else [w[0]]) + BareEscaped(w[1..])
  }

  /** Special bytes are escaped, and so is the beginning of a word that is an operator's name. */
  function BareText(w: Bytes): Bytes {
    if IsName(w) then [92] + w else BareEscaped(w)
  }

  /** A word with the quote and the backslash escaped. */
  function Escaped(w: Bytes, q: Byte): Bytes {
    if w == [] then [] else (if w[0] == q || w[0] == 92 then [92, w[0]] else [w[0]]) + Escaped(w[1..], q)
  }

  function Quoted(w: Bytes, q: Byte): Bytes {
    [q] + Escaped(w, q) + [q]
  }

  function Written(w: Bytes, style: Style): Bytes {
    match style
    case Bare => BareText(w)
    case Single => Quoted(w, 39)
    case Double => Quoted(w, 34)
  }

  // ----- Bare words

  lemma BareStep(c: Byte, t: Bytes)
    ensures ReadBare([92, c] + t) == Prepend(c, 2, ReadBare(t))
    ensures !Special(c) ==> ReadBare([c] + t) == Prepend(c, 1, ReadBare(t))
  {
    assert ([92, c] + t)[2..] == t;
    assert ([c] + t)[1..] == t;
  }

  lemma {:induction false} ReadBareEscaped(w: Bytes, rest: Bytes)
    requires Delimits(rest)
    ensures ReadBare(BareEscaped(w) + rest) == Scanned(w, |BareEscaped(w)|)
    decreases |w|
  {
    if w == [] {
      assert BareEscaped(w) + rest == rest;
    } else {
      hide ReadBare;
      ReadBareEscaped(w[1..], rest);
      var c, more := w[0], BareEscaped(w[1..]);
      BareStep(c, more + rest);
      Assoc([92, c], more, rest);
      Assoc([c], more, rest);
      assert w == [c] + w[1..];
    }
  }

  lemma {:induction false} NoSpecials(w: Bytes)
    requires forall i :: 0 <= i < |w| ==> !Special(w[i])
    ensures BareEscaped(w) == w
    decreases |w|
  {
    if w != [] {
      NoSpecials(w[1..]);
      assert w == [w[0]] + w[1..];
    }
  }

  lemma NameIsLetters(w: Bytes)
    requires IsName(w)
    ensures w != [] && forall i :: 0 <= i < |w| ==> !Special(w[i])
  {
  }

  lemma ReadEscapedFirst(c: Byte, more: Bytes, rest: Bytes)
    requires Delimits(rest)
    ensures ReadBare([92, c] + BareEscaped(more) + rest) == Scanned([c] + more, 2 + |BareEscaped(more)|)
  {
    hide ReadBare, BareEscaped, Special;
    ReadBareEscaped(more, rest);
    BareStep(c, BareEscaped(more) + rest);
    Assoc([92, c], BareEscaped(more), rest);
  }

  lemma EscapeFirst(w: Bytes)
    requires w != []
    ensures [92] + w == [92, w[0]] + w[1..] && w == [w[0]] + w[1..]
  {
  }

  /** A name is nothing but letters, so it is written as it is when its first byte is escaped. */
  lemma ReadBareName(w: Bytes, rest: Bytes)
    requires IsName(w) && Delimits(rest)
    ensures ReadBare([92] + w + rest) == Scanned(w, |w| + 1)
  {
    hide ReadBare, BareEscaped, Special, Delimits;
    NameIsLetters(w);
    NoSpecials(w[1..]);
    ReadEscapedFirst(w[0], w[1..], rest);
    EscapeFirst(w);
  }

  /** As far as a name goes, an escaped word only has bytes of the word, and it goes on with no
      delimiter. */
  lemma {:induction false} EscapedPrefix(w: Bytes, rest: Bytes, n: nat)
    requires n <= |BareEscaped(w) + rest| && Delimits(rest)
    requires forall i :: 0 <= i < n ==> !Special((BareEscaped(w) + rest)[i])
    ensures n <= |w| && w[..n] == (BareEscaped(w) + rest)[..n]
    ensures n < |w| ==> n < |BareEscaped(w)| && !Delimits((BareEscaped(w) + rest)[n..])
    decreases |w|
  {
    var s := BareEscaped(w) + rest;
    if w == [] {
      assert s == rest;
    } else if n == 0 {
      assert s[0..] == s;
    } else {
      assert !Special(s[0]);
      var tail := BareEscaped(w[1..]) + rest;
      assert s == [w[0]] + tail;
      hide BareEscaped, Special, Delimits;
      forall i | 0 <= i < n - 1 ensures !Special(tail[i]) {
        assert tail[i] == s[i + 1];
      }
      EscapedPrefix(w[1..], rest, n - 1);
      assert s[n..] == tail[n - 1..];
      assert s[..n] == [w[0]] + tail[..n - 1] && w[..n] == [w[0]] + w[1..][..n - 1];
    }
  }

  lemma BareIsNoKeyword(w: Bytes, rest: Bytes, name: Bytes)
    requires w != [] && !IsName(w) && Delimits(rest) && IsName(name)
    ensures !Keyword(BareEscaped(w) + rest, name)
  {
    var s, n := BareEscaped(w) + rest, |name|;
    if n <= |s| && s[..n] == name {
      forall i | 0 <= i < n ensures !Special(s[i]) {
        assert s[i] == name[i];
      }
      EscapedPrefix(w, rest, n);
      assert w[..n] == name && w[..|w|] == w;
      assert n < |w|;
      assert s[n..][0] == s[n];
    }
  }

  /** Whatever the word, the bare text of it is one word token. */
  lemma TokenizeBareEscaped(w: Bytes, rest: Bytes, ts: seq<Token>)
    requires w != [] && !IsName(w) && Delimits(rest) && !AfterWord(ts)
    ensures Tokenize(BareEscaped(w) + rest, ts) == Tokenize(rest, ts + [Word(w)])
  {
    var s := BareEscaped(w) + rest;
    ReadBareEscaped(w, rest);
    BareIsNoKeyword(w, rest, AND_TEXT);
    BareIsNoKeyword(w, rest, OR_TEXT);
    BareIsNoKeyword(w, rest, NOT_TEXT);
    assert s[|BareEscaped(w)|..] == rest;
    hide Keyword, ReadBare, AfterWord;
    NextBare(s, ts);
  }

  lemma TokenizeEscapedName(w: Bytes, rest: Bytes, ts: seq<Token>)
    requires IsName(w) && Delimits(rest) && !AfterWord(ts)
    ensures Tokenize([92] + w + rest, ts) == Tokenize(rest, ts + [Word(w)])
  {
    var s := [92] + w + rest;
    ReadBareName(w, rest);
    assert s[|w| + 1..] == rest && s[0] == 92;
    hide ReadBare, AfterWord;
    NextBare(s, ts);
  }

  /** An ordinary word, written as it is, is one word token: it has no special byte and is no
      operator, and it may well begin with the name of one. */
  lemma TokenizePlain(w: Bytes, rest: Bytes, ts: seq<Token>)
    requires w != [] && !IsName(w) && Delimits(rest) && !AfterWord(ts)
    requires forall i :: 0 <= i < |w| ==> !Special(w[i])
    ensures Tokenize(w + rest, ts) == Tokenize(rest, ts + [Word(w)])
  {
    NoSpecials(w);
    TokenizeBareEscaped(w, rest, ts);
  }

  lemma {:induction false} ReadBareUpTo(w: Bytes, q: Byte, rest: Bytes)
    requires (q == 34 || q == 39) && forall i :: 0 <= i < |w| ==> !Special(w[i])
    ensures ReadBare(w + [q] + rest) == Scanned(w, |w|)
    decreases |w|
  {
    if w == [] {
      assert ([] + [q] + rest)[0] == q;
    } else {
      hide ReadBare;
      ReadBareUpTo(w[1..], q, rest);
      BareStep(w[0], w[1..] + [q] + rest);
      assert w == [w[0]] + w[1..];
      assert w + [q] + rest == [w[0]] + (w[1..] + [q] + rest);
    }
  }

  lemma NoKeywordBeforeQuote(w: Bytes, q: Byte, rest: Bytes, name: Bytes)
    requires (q == 34 || q == 39) && (forall i :: 0 <= i < |w| ==> !Special(w[i])) && IsName(name)
    ensures !Keyword(w + [q] + rest, name)
  {
    var s, n := w + [q] + rest, |name|;
    assert s[|w|] == q;
    if n <= |s| && s[..n] == name {
      NameIsLetters(name);
      if n > |w| {
        assert Special(s[..n][|w|]);
        assert false;
      }
      assert n < |s| && (n < |w| ==> s[n] == w[n]);
    }
  }

  /** A quote ends the word in front of it, and even a word that is the name of an operator then
      is a word. */
  lemma BareBeforeQuote(w: Bytes, q: Byte, rest: Bytes, ts: seq<Token>)
    requires w != [] && !AfterWord(ts) && (q == 34 || q == 39)
    requires forall i :: 0 <= i < |w| ==> !Special(w[i])
    ensures Tokenize(w + [q] + rest, ts) == Tokenize([q] + rest, ts + [Word(w)])
  {
    var s := w + [q] + rest;
    ReadBareUpTo(w, q, rest);
    NoKeywordBeforeQuote(w, q, rest, AND_TEXT);
    NoKeywordBeforeQuote(w, q, rest, OR_TEXT);
    NoKeywordBeforeQuote(w, q, rest, NOT_TEXT);
    assert s[|w|..] == [q] + rest && s[0] == w[0];
    hide Keyword, ReadBare, AfterWord;
    NextBare(s, ts);
  }

  lemma StartDelimits(c: Byte, rest: Bytes)
    requires c == 32 || c == 40 || c == 41
    ensures Delimits([c] + rest)
  {
  }

  /** The name of an operator is an operator at the end of the text and before a blank or a
      parenthesis, also right after a word. */
  lemma TokenizeName(rest: Bytes, ts: seq<Token>)
    requires Delimits(rest)
    ensures Tokenize([65, 78, 68] + rest, ts) == Tokenize(rest, ts + [AndOp])
    ensures Tokenize([79, 82] + rest, ts) == Tokenize(rest, ts + [OrOp])
    ensures Tokenize([78, 79, 84] + rest, ts) == Tokenize(rest, ts + [NotOp])
  {
    var x, y, z := [65, 78, 68] + rest, [79, 82] + rest, [78, 79, 84] + rest;
    assert x[..3] == AND_TEXT && x[3..] == rest;
    assert y[..2] == OR_TEXT && y[2..] == rest && y[0] == 79;
    assert z[..3] == NOT_TEXT && z[3..] == rest && z[0] == 78;
    assert Keyword(x, AND_TEXT) && Keyword(y, OR_TEXT) && Keyword(z, NOT_TEXT);
    assert !Keyword(y, AND_TEXT) && !Keyword(z, AND_TEXT) && !Keyword(z, OR_TEXT);
    hide Keyword, ReadBare, AfterWord, ReadQuoted, Tokenize;
    NextBare(x, ts);
    NextBare(y, ts);
    NextBare(z, ts);
  }

  // ----- Quoted words

  lemma QuotedStep(c: Byte, t: Bytes, q: Byte)
    ensures ReadQuoted([92, c] + t, q) == Prepend(c, 2, ReadQuoted(t, q))
    ensures c != q && c != 92 ==> ReadQuoted([c] + t, q) == Prepend(c, 1, ReadQuoted(t, q))
  {
    assert ([92, c] + t)[2..] == t;
    assert ([c] + t)[1..] == t;
  }

  lemma EscapedFirst(w: Bytes, q: Byte)
    requires w != []
    ensures Escaped(w, q) == (if w[0] == q || w[0] == 92 then [92, w[0]] else [w[0]]) + Escaped(w[1..], q)
    ensures w == [w[0]] + w[1..]
  {
  }

  lemma ClosedHere(q: Byte, rest: Bytes)
    requires q != 92
    ensures ReadQuoted([q] + rest, q) == Scanned([], 1)
  {
  }

  /** Reading an escaped word up to its closing quote gives the word. */
  lemma {:induction false} ReadEscaped(w: Bytes, q: Byte, rest: Bytes)
    requires q != 92
    ensures ReadQuoted(Escaped(w, q) + [q] + rest, q) == Scanned(w, |Escaped(w, q)| + 1)
    decreases |w|
  {
    if w == [] {
      ClosedHere(q, rest);
      assert Escaped(w, q) + [q] + rest == [q] + rest;
    } else {
      hide ReadQuoted, Escaped;
      var more := Escaped(w[1..], q);
      ReadEscaped(w[1..], q, rest);
      QuotedStep(w[0], more + [q] + rest, q);
      EscapedFirst(w, q);
      Assoc([92, w[0]], more, [q] + rest);
      Assoc([w[0]], more, [q] + rest);
      Assoc(more, [q], rest);
      Assoc([92, w[0]] + more, [q], rest);
      Assoc([w[0]] + more, [q], rest);
    }
  }

  lemma ReadQuotedWord(w: Bytes, q: Byte, rest: Bytes)
    requires q == 34 || q == 39
    ensures var s := Quoted(w, q) + rest;
      && s[0] == q && ReadQuoted(s[1..], q) == Scanned(w, |Quoted(w, q)| - 1) && s[|Quoted(w, q)|..] == rest
      && (rest == [] ==> s[|s| - 1] == q)
  {
    var s := Quoted(w, q) + rest;
    ReadEscaped(w, q, rest);
    assert s[1..] == Escaped(w, q) + [q] + rest;
    assert s[|Quoted(w, q)|..] == rest;
    assert rest == [] ==> s == Quoted(w, q);
  }

  lemma TokenizeQuoted(w: Bytes, q: Byte, rest: Bytes, ts: seq<Token>)
    requires w != [] && !AfterWord(ts) && (q == 34 || q == 39)
    ensures Tokenize(Quoted(w, q) + rest, ts) == Tokenize(rest, ts + [Word(w)])
  {
    ReadQuotedWord(w, q, rest);
  }

  /** An empty pair of quotes is no token at all. */
  lemma EmptyQuotesVanish(q: Byte, rest: Bytes, ts: seq<Token>)
    requires q == 34 || q == 39
    ensures Tokenize([q, q] + rest, ts) == Tokenize(rest, ts)
  {
    ReadQuotedWord([], q, rest);
    assert Quoted([], q) == [q, q];
  }

  lemma {:induction false} ReadUnclosed(w: Bytes, q: Byte)
    requires q != 92
    ensures ReadQuoted(Escaped(w, q), q) == Scanned(w, |Escaped(w, q)|)
    decreases |w|
  {
    if w != [] {
      hide ReadQuoted, Escaped;
      ReadUnclosed(w[1..], q);
      QuotedStep(w[0], Escaped(w[1..], q), q);
      EscapedFirst(w, q);
    }
  }

  lemma {:induction false} EscapedEnds(w: Bytes, q: Byte)
    requires w != []
    ensures Escaped(w, q) != [] && Escaped(w, q)[|Escaped(w, q)| - 1] == w[|w| - 1]
    decreases |w|
  {
    if |w| > 1 {
      EscapedEnds(w[1..], q);
    }
  }

  /** A quoted word that is never closed is refused, unless it ends in an escaped quote: then it is
      taken as a whole. */
  lemma NeverClosed(w: Bytes, q: Byte, ts: seq<Token>)
    requires w != [] && !AfterWord(ts) && (q == 34 || q == 39)
    ensures Tokenize([q] + Escaped(w, q), ts) ==
      if w[|w| - 1] == q then Tokens(ts + [Word(w)]) else Rejected(UnmatchedQuote)
  {
    var s := [q] + Escaped(w, q);
    ReadUnclosed(w, q);
    EscapedEnds(w, q);
    hide ReadQuoted, AfterWord, Escaped, Tokenize;
    assert s[0..] == s && s[1..] == Escaped(w, q) && s[|s|..] == [];
    NextQuoted(s, 0, ts);
    TokenizeNothing(ts + [Word(w)]);
  }

  // ----- Any style

  /** However a non-empty word is written, it is one word token; a bare word must be delimited. */
  lemma TokenizeWritten(w: Bytes, style: Style, rest: Bytes, ts: seq<Token>)
    requires w != [] && !AfterWord(ts) && (style.Bare? ==> Delimits(rest))
    ensures Tokenize(Written(w, style) + rest, ts) == Tokenize(rest, ts + [Word(w)])
  {
    hide Tokenize, AfterWord, Escaped, BareEscaped;
    match style
    case Bare =>
      if IsName(w) {
        TokenizeEscapedName(w, rest, ts);
      } else {
        TokenizeBareEscaped(w, rest, ts);
      }
    case Single => TokenizeQuoted(w, 39, rest, ts);
    case Double => TokenizeQuoted(w, 34, rest, ts);
  }

  /** Right after a word another one is refused. */
  lemma AdjacentRefused(w: Bytes, style: Style, rest: Bytes, ts: seq<Token>, before: Bytes)
    requires w != [] && !IsName(w) && (style.Bare? ==> Delimits(rest))
    ensures Tokenize(Written(w, style) + rest, ts + [Word(before)]) ==
      Rejected(if style.Bare? then AdjacentUnquoted else AdjacentQuoted)
  {
    var s := Written(w, style) + rest;
    match style
    case Bare =>
      ReadBareEscaped(w, rest);
      BareIsNoKeyword(w, rest, AND_TEXT);
      BareIsNoKeyword(w, rest, OR_TEXT);
      BareIsNoKeyword(w, rest, NOT_TEXT);
      hide Keyword, ReadBare;
      NextBare(s, ts + [Word(before)]);
    case Single => ReadQuotedWord(w, 39, rest);
    case Double => ReadQuotedWord(w, 34, rest);
  }

  lemma {:induction false} BareEnds(w: Bytes)
    requires w != []
    ensures BareEscaped(w) != [] && BareEscaped(w)[|BareEscaped(w)| - 1] == w[|w| - 1]
    ensures BareEscaped(w)[0] == 92 || !Special(BareEscaped(w)[0])
    decreases |w|
  {
    if |w| > 1 {
      BareEnds(w[1..]);
    }
  }

  /** A written word starts with no blank, and ends with one only if the word does and is bare. */
  lemma {:induction false} WrittenEnds(w: Bytes, style: Style)
    requires w != []
    ensures var s := Written(w, style);
      && s != [] && (s[0] == 92 || s[0] == 34 || s[0] == 39 || !Special(s[0]))
      && s[|s| - 1] == (if style.Bare? then w[|w| - 1] else if style.Single? then 39 else 34)
  {
    BareEnds(w);
  }
}
