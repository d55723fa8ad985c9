/** The tokenizer of boolean queries (`tokenize` in `boolean_searcher::build_pattern`). */
module QueryTokens {
  import opened LogLines

  datatype Token = Word(value: Bytes) | AndOp | OrOp | NotOp | LParen | RParen

  datatype QueryError =
    | UnmatchedQuote | AdjacentQuoted | AdjacentUnquoted
    | NotNeedsOperand | ParenMismatchAfterNot | ParenMismatch | MixedOperators | ExtraContent

  datatype Tokens = Tokens(tokens: seq<Token>) | Rejected(error: QueryError)

  const DOUBLE_QUOTE: Byte := 34
  const SINGLE_QUOTE: Byte := 39
  const LEFT: Byte := 40
  const RIGHT: Byte := 41
  const BACKSLASH: Byte := 92
  const SPACE: Byte := 32
  const AND_TEXT: Bytes := [65, 78, 68]
  const OR_TEXT: Bytes := [79, 82]
  const NOT_TEXT: Bytes := [78, 79, 84]

  /** `isspace` in the C locale. */
  predicate IsSpace(c: Byte) {
    c == SPACE || 9 <= c <= 13
  }

  predicate IsQuote(c: Byte) {
    c == SINGLE_QUOTE || c == DOUBLE_QUOTE
  }

  predicate EndsBare(c: Byte) {
    IsSpace(c) || c == LEFT || c == RIGHT || IsQuote(c)
  }

  /** An operator name counts only before the end, a space or a parenthesis. */
  predicate Keyword(s: Bytes, name: Bytes) {
    |name| <= |s| && s[..|name|] == name &&
    (|s| == |name| || IsSpace(s[|name|]) || s[|name|] == LEFT || s[|name|] == RIGHT)
  }

  /** A word and how many bytes of input it took. */
  datatype Scanned = Scanned(word: Bytes, used: nat)

  function Prepend(c: Byte, n: nat, r: Scanned): Scanned {
    Scanned([c] + r.word, n + r.used)
  }

  /** The rest of a quoted word, after its opening quote `q`. */
  function ReadQuoted(s: Bytes, q: Byte): (r: Scanned)
    ensures r.used <= |s|
    decreases |s|
  {
    if s == [] then Scanned([], 0)
    else if s[0] == BACKSLASH && |s| > 1 then Prepend(s[1], 2, ReadQuoted(s[2..], q))
    else if s[0] == q then Scanned([], 1)
    else Prepend(s[0], 1, ReadQuoted(s[1..], q))
  }

  function ReadBare(s: Bytes): (r: Scanned)
    ensures r.used <= |s|
    ensures s != [] && !EndsBare(s[0]) ==> r.used > 0 && r.word != []
    decreases |s|
  {
    if s == [] || EndsBare(s[0]) then Scanned([], 0)
    else if s[0] == BACKSLASH && |s| > 1 then Prepend(s[1], 2, ReadBare(s[2..]))
    else Prepend(s[0], 1, ReadBare(s[1..]))
  }

  predicate AfterWord(ts: seq<Token>) {
    ts != [] && ts[|ts| - 1].Word?
  }

  /** The tokens of the remaining text `s`, after the tokens `ts`. A quoted word that runs off the
      end is rejected only when the last byte of the text is not its quote character. */
  function Tokenize(s: Bytes, ts: seq<Token>): Tokens
    decreases |s|
  {
    if s == [] then Tokens(ts)
    else if IsSpace(s[0]) then Tokenize(s[1..], ts)
    else if s[0] == LEFT then Tokenize(s[1..], ts + [LParen])
    else if s[0] == RIGHT then Tokenize(s[1..], ts + [RParen])
    else if IsQuote(s[0]) then
      var r := ReadQuoted(s[1..], s[0]);
      if 1 + r.used == |s| && s[|s| - 1] != s[0] then Rejected(UnmatchedQuote)
      else if r.word == [] then Tokenize(s[1 + r.used..], ts)
      else if AfterWord(ts) then Rejected(AdjacentQuoted)
      else Tokenize(s[1 + r.used..], ts + [Word(r.word)])
    else if Keyword(s, AND_TEXT) then Tokenize(s[3..], ts + [AndOp])
    else if Keyword(s, OR_TEXT) then Tokenize(s[2..], ts + [OrOp])
    else if Keyword(s, NOT_TEXT) then Tokenize(s[3..], ts + [NotOp])
    else
      var r := ReadBare(s);
      if AfterWord(ts) then Rejected(AdjacentUnquoted)
      else Tokenize(s[r.used..], ts + [Word(r.word)])
  }

  /** A scan that has read `word` in `n` bytes and goes on with `r`. */
  function Resumed(word: Bytes, n: nat, r: Scanned): Scanned {
    Scanned(word + r.word, n + r.used)
  }

  lemma ResumedPrepend(word: Bytes, n: nat, c: Byte, m: nat, r: Scanned)
    ensures Resumed(word, n, Prepend(c, m, r)) == Resumed(word + [c], n + m, r)
  {
    assert word + ([c] + r.word) == (word + [c]) + r.word;
  }

  /** The quoted-word loop: reads from `start`, just after the opening quote. */
  method ScanQuoted(src: Bytes, start: nat, quote: Byte) returns (word: Bytes, i: nat)
    requires start <= |src|
    ensures start <= i <= |src|
    ensures Scanned(word, i - start) == ReadQuoted(src[start..], quote)
  {
    ghost var goal := ReadQuoted(src[start..], quote);
    word, i := [], start;
    while i < |src|
      invariant start <= i <= |src|
      invariant Resumed(word, i - start, ReadQuoted(src[i..], quote)) == goal
      decreases |src| - i
    {
      hide Resumed, Prepend;
      ghost var s := src[i..];
      if src[i] == BACKSLASH && i + 1 < |src| {
        assert s[2..] == src[i + 2..];
        ResumedPrepend(word, i - start, s[1], 2, ReadQuoted(s[2..], quote));
        word := word + [src[i + 1]];
        i := i + 2;
      } else if src[i] == quote {
        i := i + 1;
        return;
      } else {
        assert s[1..] == src[i + 1..];
        ResumedPrepend(word, i - start, s[0], 1, ReadQuoted(s[1..], quote));
        word := word + [src[i]];
        i := i + 1;
      }
    }
  }

  method ScanBare(src: Bytes, start: nat) returns (word: Bytes, i: nat)
    requires start <= |src|
    ensures start <= i <= |src|
    ensures Scanned(word, i - start) == ReadBare(src[start..])
  {
    hide EndsBare, Prepend;
    ghost var goal := ReadBare(src[start..]);
    word, i := [], start;
    while i < |src| && !EndsBare(src[i])
      invariant start <= i <= |src|
      invariant Resumed(word, i - start, ReadBare(src[i..])) == goal
      decreases |src| - i
    {
      hide Resumed;
      ghost var s := src[i..];
      if src[i] == BACKSLASH && i + 1 < |src| {
        assert s[2..] == src[i + 2..];
        ResumedPrepend(word, i - start, s[1], 2, ReadBare(s[2..]));
        word := word + [src[i + 1]];
        i := i + 2;
      } else {
        assert s[1..] == src[i + 1..];
        ResumedPrepend(word, i - start, s[0], 1, ReadBare(s[1..]));
        word := word + [src[i]];
        i := i + 1;
      }
    }
  }

  lemma Slice(src: Bytes, i: nat, n: nat)
    requires i + n <= |src|
    ensures src[i..][n..] == src[i + n..]
  {
  }

  lemma NextSingle(src: Bytes, i: nat, ts: seq<Token>)
    requires i < |src|
    ensures IsSpace(src[i]) ==> Tokenize(src[i..], ts) == Tokenize(src[i + 1..], ts)
    ensures src[i] == LEFT ==> Tokenize(src[i..], ts) == Tokenize(src[i + 1..], ts + [LParen])
    ensures src[i] == RIGHT ==> Tokenize(src[i..], ts) == Tokenize(src[i + 1..], ts + [RParen])
  {
    Slice(src, i, 1);
  }

  lemma NextQuoted(src: Bytes, i: nat, ts: seq<Token>)
    requires i < |src| && IsQuote(src[i])
    ensures var r := ReadQuoted(src[i + 1..], src[i]);
      var next := i + 1 + r.used;
      Tokenize(src[i..], ts) ==
      if next == |src| && src[|src| - 1] != src[i] then Rejected(UnmatchedQuote)
      else if r.word == [] then Tokenize(src[next..], ts)
      else if AfterWord(ts) then Rejected(AdjacentQuoted)
      else Tokenize(src[next..], ts + [Word(r.word)])
  {
    hide ReadQuoted, AfterWord;
    Slice(src, i, 1);
    Slice(src, i, 1 + ReadQuoted(src[i + 1..], src[i]).used);
  }

  lemma NextBare(s: Bytes, ts: seq<Token>)
    requires s != [] && !IsSpace(s[0]) && s[0] != LEFT && s[0] != RIGHT && !IsQuote(s[0])
    ensures Keyword(s, AND_TEXT) || Keyword(s, NOT_TEXT) ==> |s| >= 3
    ensures Keyword(s, OR_TEXT) ==> |s| >= 2
    ensures ReadBare(s).used > 0
    ensures Tokenize(s, ts) ==
      if Keyword(s, AND_TEXT) then Tokenize(s[3..], ts + [AndOp])
      else if Keyword(s, OR_TEXT) then Tokenize(s[2..], ts + [OrOp])
      else if Keyword(s, NOT_TEXT) then Tokenize(s[3..], ts + [NotOp])
      else if AfterWord(ts) then Rejected(AdjacentUnquoted)
      else Tokenize(s[ReadBare(s).used..], ts + [Word(ReadBare(s).word)])
  {
    hide ReadBare, AfterWord, ReadQuoted;
  }

  lemma TokenizeNothing(ts: seq<Token>)
    ensures Tokenize([], ts) == Tokens(ts)
  {
  }

  method TokenizeText(src: Bytes) returns (r: Tokens)
    ensures r == Tokenize(src, [])
  {
    hide IsSpace, IsQuote, EndsBare, ReadQuoted, ReadBare, AfterWord, Tokenize, Keyword;
    var i := 0;
    var tokens: seq<Token> := [];
    ghost var goal := Tokenize(src, []);
    assert src[0..] == src;
    while i < |src|
      invariant 0 <= i <= |src|
      invariant Tokenize(src[i..], tokens) == goal
      decreases |src| - i
    {
      if IsSpace(src[i]) {
        NextSingle(src, i, tokens);
        i := i + 1;
      } else if src[i] == LEFT {
        NextSingle(src, i, tokens);
        tokens := tokens + [LParen];
        i := i + 1;
      } else if src[i] == RIGHT {
        NextSingle(src, i, tokens);
        tokens := tokens + [RParen];
        i := i + 1;
      } else if IsQuote(src[i]) {
        NextQuoted(src, i, tokens);
        var quote := src[i];
        var word, next := ScanQuoted(src, i + 1, quote);
        if next == |src| && src[|src| - 1] != quote {
          return Rejected(UnmatchedQuote);
        }
        if word != [] {
          if AfterWord(tokens) {
            return Rejected(AdjacentQuoted);
          }
          tokens := tokens + [Word(word)];
        }
        i := next;
      } else {
        NextBare(src[i..], tokens);
        if Keyword(src[i..], AND_TEXT) {
          Slice(src, i, 3);
          tokens := tokens + [AndOp];
          i := i + 3;
        } else if Keyword(src[i..], OR_TEXT) {
          Slice(src, i, 2);
          tokens := tokens + [OrOp];
          i := i + 2;
        } else if Keyword(src[i..], NOT_TEXT) {
          Slice(src, i, 3);
          tokens := tokens + [NotOp];
          i := i + 3;
        } else {
          var word, next := ScanBare(src, i);
          Slice(src, i, next - i);
          if AfterWord(tokens) {
            return Rejected(AdjacentUnquoted);
          }
          tokens := tokens + [Word(word)];
          i := next;
        }
      }
    }
    assert src[i..] == [];
    TokenizeNothing(tokens);
    return Tokens(tokens);
  }

  /** Whether the quoted word that starts `s` is closed by its quote character. */
  predicate Closes(s: Bytes, q: Byte)
    decreases |s|
  {
    s != [] &&
    if s[0] == BACKSLASH && |s| > 1 then Closes(s[2..], q)
    else s[0] == q || Closes(s[1..], q)
  }

  lemma {:induction false} ClosedWordEnds(s: Bytes, q: Byte)
    ensures var used := ReadQuoted(s, q).used;
            if Closes(s, q) then used > 0 && s[used - 1] == q else used == |s|
    decreases |s|
  {
    if s != [] {
      if s[0] == BACKSLASH && |s| > 1 {
        ClosedWordEnds(s[2..], q);
      } else if s[0] != q {
        ClosedWordEnds(s[1..], q);
      }
    }
  }

  /** A text that starts with a quote is rejected for it exactly when that quote is never closed
      and the text does not end, by an escape, in the same quote character. */
  lemma UnclosedQuoteRule(s: Bytes)
    requires s != [] && IsQuote(s[0])
    ensures (Tokenize(s, []) == Rejected(UnmatchedQuote) &&
             1 + ReadQuoted(s[1..], s[0]).used == |s|) <==>
            (!Closes(s[1..], s[0]) && s[|s| - 1] != s[0])
  {
    ClosedWordEnds(s[1..], s[0]);
    var used := ReadQuoted(s[1..], s[0]).used;
    if 1 + used == |s| {
      assert s[1 + used..] == [];
    }
  }
}
