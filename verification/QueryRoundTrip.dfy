/** Writing a query tree as text and compiling the text gives the tree back. */
module QueryRoundTrip {
  import opened Sequences
  import opened LogLines
  import opened QueryTokens
  import opened QueryWords
  import opened QueryParser
  import opened QueryGrammar

  /** Trees that queries can express: non-empty words, and two or more operands to combine. */
  predicate Expressible(n: Node)
    decreases n, 1
  {
    match n
    case Null => false
    case Leaf(w) => w != []
    case Negate(c) => Expressible(c)
    case Combine(_, cs) => |cs| >= 2 && AllExpressible(cs)
  }

  predicate AllExpressible(ns: seq<Node>)
    decreases ns, 0
  {
    ns == [] || (Expressible(ns[0]) && AllExpressible(ns[1..]))
  }

  // ----- Rendering

  /** The canonical level of a tree: children other than words are parenthesised. */
  function Canon(n: Node): seq<Item>
    decreases n, 1
  {
    match n
    case Null => []
    case Leaf(w) => [WordItem(w)]
    case Negate(c) => [if c.Leaf? then NotWord(c.word) else NotGroup(Canon(c))]
    case Combine(op, cs) => Interleaved(op, cs)
  }

  function Child(n: Node): Item
    decreases n, 2
  {
    if n.Leaf? then WordItem(n.word) else Group(Canon(n))
  }

  /** The children with the operator between them. */
  function Interleaved(op: Op, ns: seq<Node>): seq<Item>
    decreases ns, 0
  {
    if ns == [] then []
    else if |ns| == 1 then [Child(ns[0])]
    else [Child(ns[0])] + ([OpItem(op)] + Interleaved(op, ns[1..]))
  }

  /** How each word is to be written. */
  type Styling = Bytes -> Style

  function Text(items: seq<Item>, styling: Styling): Bytes
    decreases items, 0
  {
    if items == [] then [] else ItemText(items[0], styling) + Text(items[1..], styling)
  }

  function ItemText(it: Item, styling: Styling): Bytes
    decreases it, 1
  {
    match it
    case WordItem(w) => Written(w, styling(w))
    case NotWord(w) => NOT_TEXT + [SPACE] + Written(w, styling(w))
    case NotGroup(g) => NOT_TEXT + [LEFT] + Text(g, styling) + [RIGHT]
    case Group(g) => [LEFT] + Text(g, styling) + [RIGHT]
    case OpItem(op) => [SPACE] + (if op == Conj then AND_TEXT else OR_TEXT) + [SPACE]
  }

  function Render(n: Node, styling: Styling): Bytes {
    Text(Canon(n), styling)
  }

  // ----- Tokenizing rendered text

  /** Starts with a blank or a parenthesis. */
  predicate SetsOff(it: Item) {
    it.OpItem? || it.Group?
  }

  predicate EndsInWord(it: Item) {
    it.WordItem? || it.NotWord?
  }

  /** Words are non-empty, and what follows one on its level sets it off. */
  predicate Spaced(items: seq<Item>)
    decreases items, 0
  {
    items == [] ||
    (SpacedItem(items[0]) && Spaced(items[1..]) &&
     (|items| > 1 && EndsInWord(items[0]) ==> SetsOff(items[1])))
  }

  predicate SpacedItem(it: Item)
    decreases it, 1
  {
    match it
    case WordItem(w) => w != []
    case NotWord(w) => w != []
    case NotGroup(g) => Spaced(g)
    case Group(g) => Spaced(g)
    case OpItem(_) => true
  }

  lemma TokenizeByte(c: Byte, s: Bytes, ts: seq<Token>)
    ensures c == SPACE ==> Tokenize([c] + s, ts) == Tokenize(s, ts)
    ensures c == LEFT ==> Tokenize([c] + s, ts) == Tokenize(s, ts + [LParen])
    ensures c == RIGHT ==> Tokenize([c] + s, ts) == Tokenize(s, ts + [RParen])
  {
    assert ([c] + s)[1..] == s;
  }

  lemma LastToken(it: Item, ts: seq<Token>)
    ensures AfterWord(ts + FlattenItem(it)) == EndsInWord(it)
  {
    var f := FlattenItem(it);
    assert (ts + f)[|ts + f| - 1] == f[|f| - 1];
  }

  /** After a word comes a delimiter. */
  lemma NextDelimits(it: Item, more: seq<Item>, styling: Styling, rest: Bytes)
    requires Delimits(rest) && (more != [] && EndsInWord(it) ==> SetsOff(more[0]))
    ensures EndsInWord(it) ==> Delimits(Text(more, styling) + rest)
  {
    if more == [] {
      assert Text(more, styling) + rest == rest;
    }
  }

  /** The text of a spaced list of items tokenizes to its tokens, whatever delimiter follows. */
  lemma {:induction false} TokenizeItems(items: seq<Item>, styling: Styling, rest: Bytes, ts: seq<Token>)
    requires Spaced(items) && Delimits(rest)
    requires items != [] && items[0].WordItem? ==> !AfterWord(ts)
    ensures Tokenize(Text(items, styling) + rest, ts) == Tokenize(rest, ts + Flatten(items))
    decreases items, 0
  {
    hide FlattenItem, ItemText, SpacedItem, AfterWord, Delimits;
    if items == [] {
      assert Text(items, styling) + rest == rest && ts + [] == ts;
    } else {
      hide Tokenize;
      var it, more := items[0], items[1..];
      Assoc(ItemText(it, styling), Text(more, styling), rest);
      NextDelimits(it, more, styling, rest);
      TokenizeItem(it, styling, Text(more, styling) + rest, ts);
      LastToken(it, ts);
      TokenizeItems(more, styling, rest, ts + FlattenItem(it));
      Assoc(ts, FlattenItem(it), Flatten(more));
    }
  }

  lemma NotAfterWord(ts: seq<Token>)
    ensures !AfterWord(ts + [NotOp])
  {
  }

  lemma {:induction false} TokenizeItem(it: Item, styling: Styling, rest: Bytes, ts: seq<Token>)
    requires SpacedItem(it) && (EndsInWord(it) ==> Delimits(rest))
    requires it.WordItem? ==> !AfterWord(ts)
    ensures Tokenize(ItemText(it, styling) + rest, ts) == Tokenize(rest, ts + FlattenItem(it))
    decreases it, 1
  {
    hide Tokenize, Written, Text, Flatten, Spaced, AfterWord, Delimits;
    match it
    case WordItem(w) =>
      TokenizeWritten(w, styling(w), rest, ts);
    case NotWord(w) =>
      var text := Written(w, styling(w));
      Nested(NOT_TEXT, [SPACE], text, rest);
      StartDelimits(SPACE, text + rest);
      TokenizeName([SPACE] + (text + rest), ts);
      TokenizeByte(SPACE, text + rest, ts + [NotOp]);
      NotAfterWord(ts);
      TokenizeWritten(w, styling(w), rest, ts + [NotOp]);
      Assoc(ts, [NotOp], [Word(w)]);
      assert [NotOp] + [Word(w)] == [NotOp, Word(w)];
    case NotGroup(g) =>
      var text := Text(g, styling);
      Nested(NOT_TEXT + [LEFT], text, [RIGHT], rest);
      Assoc(NOT_TEXT, [LEFT], text + ([RIGHT] + rest));
      StartDelimits(LEFT, text + ([RIGHT] + rest));
      TokenizeName([LEFT] + (text + ([RIGHT] + rest)), ts);
      TokenizeGroup(g, styling, rest, ts + [NotOp]);
      Nested(ts + [NotOp], [LParen], Flatten(g), [RParen]);
      Assoc(ts, [NotOp], [LParen] + (Flatten(g) + [RParen]));
      Nested([NotOp], [LParen], Flatten(g), [RParen]);
      assert [NotOp] + [LParen] == [NotOp, LParen];
    case Group(g) =>
      Nested([LEFT], Text(g, styling), [RIGHT], rest);
      TokenizeGroup(g, styling, rest, ts);
      Nested(ts, [LParen], Flatten(g), [RParen]);
    case OpItem(op) =>
      var name := if op == Conj then AND_TEXT else OR_TEXT;
      Nested([SPACE], name, [SPACE], rest);
      TokenizeByte(SPACE, name + ([SPACE] + rest), ts);
      StartDelimits(SPACE, rest);
      TokenizeName([SPACE] + rest, ts);
      TokenizeByte(SPACE, rest, ts + FlattenItem(it));
  }

  lemma {:induction false} TokenizeGroup(g: seq<Item>, styling: Styling, rest: Bytes, ts: seq<Token>)
    requires Spaced(g)
    ensures Tokenize([LEFT] + (Text(g, styling) + ([RIGHT] + rest)), ts) ==
            Tokenize(rest, ts + [LParen] + Flatten(g) + [RParen])
    decreases g, 1
  {
    hide Tokenize, Text, Flatten, Spaced;
    TokenizeByte(LEFT, Text(g, styling) + ([RIGHT] + rest), ts);
    TokenizeItems(g, styling, [RIGHT] + rest, ts + [LParen]);
    TokenizeByte(RIGHT, rest, ts + [LParen] + Flatten(g));
  }

  // ----- The canonical level stands for the tree

  lemma ConsItem(it: Item, more: seq<Item>)
    ensures Operands([it] + more) == OperandOf(it) + Operands(more)
    ensures Operators([it] + more) == OperatorOf(it) + Operators(more)
    ensures LegalInside([it] + more) == (LegalItem(it) && LegalInside(more))
    ensures Spaced([it] + more) ==
      (SpacedItem(it) && Spaced(more) && (more != [] && EndsInWord(it) ==> SetsOff(more[0])))
  {
    hide OperandOf, LegalItem, SpacedItem, Operands, Operators, LegalInside, OperatorOf;
    Cons(it, more);
    assert ([it] + more)[1..] == more;
  }

  lemma SingleIsTree(it: Item, n: Node)
    requires OperandOf(it) == [n] && LegalItem(it) && SpacedItem(it) && !it.OpItem?
    ensures Legal([it]) && Tree([it]) == n && Spaced([it])
  {
    hide OperandOf, LegalItem, SpacedItem;
    Nil();
    ConsItem(it, []);
    assert [it] + [] == [it];
  }

  lemma LevelIsTree(op: Op, ns: seq<Node>, items: seq<Item>)
    requires |ns| >= 2 && Operands(items) == ns && LegalInside(items)
    requires |Operators(items)| == |ns| - 1 && forall i :: 0 <= i < |ns| - 1 ==> Operators(items)[i] == op
    ensures Legal(items) && Tree(items) == Combine(op, ns)
  {
    hide Operands, Operators, LegalInside;
    assert Operators(items)[0] == op;
  }

  lemma {:induction false} CanonIsTree(n: Node)
    requires Expressible(n)
    ensures var c := Canon(n); Legal(c) && Tree(c) == n && Spaced(c)
    decreases n, 1
  {
    hide Legal, Tree, Spaced, Operands, Operators, LegalInside, Interleaved, AllExpressible;
    match n
    case Leaf(w) =>
      SingleIsTree(WordItem(w), n);
    case Negate(c) =>
      if c.Leaf? {
        SingleIsTree(NotWord(c.word), n);
      } else {
        CanonIsTree(c);
        SingleIsTree(NotGroup(Canon(c)), n);
      }
    case Combine(op, cs) =>
      InterleavedIsLevel(op, cs);
      LevelIsTree(op, cs, Interleaved(op, cs));
  }

  lemma NothingSpaced()
    ensures Spaced([])
  {
  }

  lemma {:induction false} InterleavedIsLevel(op: Op, ns: seq<Node>)
    requires AllExpressible(ns)
    ensures var c := Interleaved(op, ns);
            && Operands(c) == ns && LegalInside(c) && Spaced(c)
            && |Operators(c)| == (if ns == [] then 0 else |ns| - 1)
            && (forall i :: 0 <= i < |Operators(c)| ==> Operators(c)[i] == op)
    decreases ns, 0
  {
    hide OperandOf, LegalItem, SpacedItem, Child, Operands, Operators, LegalInside, Spaced;
    Nil();
    NothingSpaced();
    if ns != [] {
      var first := Child(ns[0]);
      ChildIsItem(ns[0]);
      if |ns| == 1 {
        ConsItem(first, []);
        assert [first] + [] == [first] && ns == [ns[0]] + [];
      } else {
        var more := Interleaved(op, ns[1..]);
        InterleavedIsLevel(op, ns[1..]);
        ConsItem(OpItem(op), more);
        ConsItem(first, [OpItem(op)] + more);
        assert ns == [ns[0]] + ns[1..] && [] + Operands(more) == Operands(more);
      }
    }
  }

  lemma {:induction false} ChildIsItem(n: Node)
    requires Expressible(n)
    ensures OperandOf(Child(n)) == [n] && LegalItem(Child(n)) && SpacedItem(Child(n)) && !Child(n).OpItem?
    ensures OperandOf(OpItem(Conj)) == OperandOf(OpItem(Disj)) == []
    ensures forall op :: LegalItem(OpItem(op)) && SpacedItem(OpItem(op))
    decreases n, 2
  {
    hide Legal, Tree, Spaced, Canon;
    if !n.Leaf? {
      CanonIsTree(n);
    }
  }

  // ----- The compiler

  /** What `trim` removes: space, tab, carriage return and newline. */
  predicate Trimmable(c: Byte) {
    c == SPACE || c == 9 || c == 13 || c == 10
  }

  /** `trim`: the pattern without leading and trailing blanks. */
  function Trim(s: Bytes): Bytes
    decreases |s|
  {
    if s == [] then []
    else if Trimmable(s[0]) then Trim(s[1..])
    else if Trimmable(s[|s| - 1]) then Trim(s[..|s| - 1])
    else s
  }

  /** `build_pattern`: trim, tokenize, parse. */
  function Compile(pattern: Bytes): Pattern {
    match Tokenize(Trim(pattern), [])
    case Rejected(e) => Refused(e)
    case Tokens(ts) => ParseTokens(ts)
  }

  lemma {:induction false} InterleavedEnds(op: Op, ns: seq<Node>)
    requires ns != []
    ensures var c := Interleaved(op, ns); c != [] && !c[0].OpItem? && !c[|c| - 1].OpItem?
    decreases |ns|
  {
    if |ns| > 1 {
      InterleavedEnds(op, ns[1..]);
    }
  }

  lemma {:induction false} TextEnds(n: Node)
    requires Expressible(n)
    ensures Canon(n) != [] && !Canon(n)[0].OpItem? && !Canon(n)[|Canon(n)| - 1].OpItem?
    decreases n
  {
    if n.Combine? {
      InterleavedEnds(n.op, n.children);
    }
  }

  /** No word that ends with a blank is to be written bare. */
  ghost predicate Trimless(styling: Styling) {
    forall w :: w != [] && styling(w).Bare? ==> w[|w| - 1] !in {9, 10, 13, 32}
  }

  lemma NotSpecialNotTrimmable(c: Byte)
    ensures !Special(c) || c == 92 || c == 34 || c == 39 ==> !Trimmable(c)
  {
  }

  lemma ItemEnds(it: Item, styling: Styling)
    requires SpacedItem(it) && !it.OpItem? && Trimless(styling)
    ensures var s := ItemText(it, styling); s != [] && !Trimmable(s[0]) && !Trimmable(s[|s| - 1])
  {
    hide Written, Special;
    if it.WordItem? || it.NotWord? {
      WrittenEnds(it.word, styling(it.word));
      NotSpecialNotTrimmable(Written(it.word, styling(it.word))[0]);
    }
  }

  lemma {:induction false} LastByte(items: seq<Item>, styling: Styling)
    requires Spaced(items) && Trimless(styling) && items != [] && !items[|items| - 1].OpItem?
    ensures var s := Text(items, styling); s != [] && !Trimmable(s[|s| - 1])
    decreases |items|
  {
    hide SpacedItem, Trimless, Trimmable, ItemText;
    if |items| > 1 {
      LastByte(items[1..], styling);
    } else {
      ItemEnds(items[0], styling);
      assert Text(items, styling) == ItemText(items[0], styling) + [];
    }
  }

  /** Rendered operands neither start nor end with a blank. */
  lemma {:induction false} TextNeedsNoTrim(items: seq<Item>, styling: Styling)
    requires Spaced(items) && Trimless(styling)
    requires items != [] && !items[0].OpItem? && !items[|items| - 1].OpItem?
    ensures var s := Text(items, styling); s != [] && !Trimmable(s[0]) && !Trimmable(s[|s| - 1])
    decreases |items|
  {
    hide SpacedItem, Trimless, Trimmable, ItemText;
    LastByte(items, styling);
    ItemEnds(items[0], styling);
    assert Text(items, styling)[0] == ItemText(items[0], styling)[0];
  }

  ghost predicate Blanks(s: Bytes) {
    forall i :: 0 <= i < |s| ==> s[i] in {9, 10, 13, 32}
  }

  lemma {:induction false} TrimPadded(pre: Bytes, s: Bytes, post: Bytes)
    requires Blanks(pre) && Blanks(post) && s != [] && !Trimmable(s[0]) && !Trimmable(s[|s| - 1])
    ensures Trim(pre + s + post) == s
    decreases |pre| + |post|
  {
    var t := pre + s + post;
    if pre != [] {
      assert t[0] == pre[0] && t[1..] == pre[1..] + s + post;
      TrimPadded(pre[1..], s, post);
    } else if post != [] {
      var n := |post| - 1;
      assert t[|t| - 1] == post[n] && t[..|t| - 1] == pre + s + post[..n] && t[0] == s[0];
      TrimPadded(pre, s, post[..n]);
    } else {
      assert t == s;
    }
  }

  /** Every expressible tree survives being written as a query and compiled again, however its
      words are written, and with any blanks around it. */
  lemma RenderRoundTrip(n: Node, styling: Styling, pre: Bytes, post: Bytes)
    requires Expressible(n) && Trimless(styling) && Blanks(pre) && Blanks(post)
    ensures Compile(pre + Render(n, styling) + post) == Pattern(n)
  {
    hide Canon, Tree, Legal, Spaced, Text, Flatten, Trim, Trimless;
    var items := Canon(n);
    CanonIsTree(n);
    TextEnds(n);
    TextNeedsNoTrim(items, styling);
    TrimPadded(pre, Text(items, styling), post);
    TokenizeItems(items, styling, [], []);
    TokenizeNothing(Flatten(items));
    assert Text(items, styling) + [] == Text(items, styling) && [] + Flatten(items) == Flatten(items);
    GrammarParses(items);
  }

  lemma BackslashAtEnd()
    ensures Tokenize([97, 92], []) == Tokens([Word([97, 92])])
  {
    var s: Bytes := [97, 92];
    assert s[1..] == [92] && s[1..][1..] == [] && s[2..] == [];
    assert ReadBare([]) == Scanned([], 0);
    assert ReadBare(s[1..]) == Scanned([92], 1);
    assert ReadBare(s) == Scanned(s, 2);
    hide ReadBare;
    NextBare(s, []);
    TokenizeNothing([Word(s)]);
  }

  /** Why bare words must not end with a blank: the trimming cuts the blank off its backslash, and
      the word comes out as another one. */
  lemma EscapedBlankIsCut()
    ensures Written([97, 32], Bare) == [97, 92, 32]
    ensures Compile([97, 92, 32]) == Pattern(Leaf([97, 92]))
  {
    assert BareEscaped([32]) == [92, 32] && [97, 32][1..] == [32];
    hide Tokenize, BareEscaped, Trim, ParseTokens;
    TrimPadded([], [97, 92], [32]);
    assert [] + [97, 92] + [32] == [97, 92, 32];
    BackslashAtEnd();
    var items := [WordItem([97, 92])];
    assert items[1..] == [];
    GrammarParses(items);
  }
}
