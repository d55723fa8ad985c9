/** What queries mean: from the text of a query to the lines it matches. */
module QueryMeaning {
  import opened Sequences
  import opened LogLines
  import opened QueryTokens
  import opened QueryWords
  import opened QueryParser
  import opened QueryGrammar
  import opened QueryFacts
  import opened QueryRoundTrip
  import opened QueryMatch

  // ----- Patterns and lines

  /** A line contains a word when it can be cut into something, the word, and something. */
  lemma ContainsIff(line: Bytes, word: Bytes)
    ensures Contains(line, word) <==> exists a, b :: line == a + word + b
  {
    if Contains(line, word) {
      var pos: nat :| At(line, word, pos);
      assert line == line[..pos] + word + line[pos + |word|..];
    }
    if a, b :| line == a + word + b {
      assert line[|a|..|a| + |word|] == word;
      assert At(line, word, |a|);
    }
  }

  lemma {:induction false} HoldAllSome(ns: seq<Node>, line: Bytes)
    ensures HoldAll(ns, line) <==> forall n :: n in ns ==> Holds(n, line)
    ensures HoldSome(ns, line) <==> exists n :: n in ns && Holds(n, line)
    decreases |ns|
  {
    hide Holds;
    if ns != [] {
      HoldAllSome(ns[1..], line);
      assert ns == [ns[0]] + ns[1..];
      assert ns[0] in ns;
      assert forall n :: n in ns <==> n == ns[0] || n in ns[1..];
    }
  }

  lemma AllAndSome(ns: seq<Node>, line: Bytes)
    ensures Holds(Combine(Conj, ns), line) <==> forall n :: n in ns ==> Holds(n, line)
    ensures Holds(Combine(Disj, ns), line) <==> exists n :: n in ns && Holds(n, line)
  {
    HoldAllSome(ns, line);
    assert Holds(Combine(Conj, ns), line) == HoldAll(ns, line);
    assert Holds(Combine(Disj, ns), line) == HoldSome(ns, line);
  }

  function Negated(ns: seq<Node>): (r: seq<Node>)
    ensures |r| == |ns|
    ensures forall i :: 0 <= i < |ns| ==> r[i] == Negate(ns[i])
  {
    seq(|ns|, i requires 0 <= i < |ns| => Negate(ns[i]))
  }

  /** De Morgan's laws, and double negation. */
  lemma DeMorgan(ns: seq<Node>, n: Node, line: Bytes)
    ensures Holds(Negate(Combine(Conj, ns)), line) <==> Holds(Combine(Disj, Negated(ns)), line)
    ensures Holds(Negate(Combine(Disj, ns)), line) <==> Holds(Combine(Conj, Negated(ns)), line)
    ensures Holds(Negate(Negate(n)), line) <==> Holds(n, line)
  {
    AllAndSome(ns, line);
    AllAndSome(Negated(ns), line);
    forall m ensures Negate(m) in Negated(ns) <==> m in ns {
      if m in ns {
        var i :| 0 <= i < |ns| && ns[i] == m;
        assert Negated(ns)[i] == Negate(m);
      }
    }
    forall m | m in Negated(ns) ensures m.Negate? {}
    assert forall m :: m in ns ==> (Holds(Negate(m), line) <==> !Holds(m, line));
  }

  /** Every word of `n` that one line contains is also in the other. */
  ghost predicate CarriesOver(n: Node, line: Bytes, other: Bytes) {
    forall w :: w in Leaves(n) && Contains(line, w) ==> Contains(other, w)
  }

  lemma {:induction false} ChildOf(cs: seq<Node>, c: Node)
    requires c in cs
    ensures NotFreeAll(cs) ==> NotFree(c)
    ensures forall w :: w in Leaves(c) ==> w in LeavesOfAll(cs)
    decreases |cs|
  {
    if c != cs[0] {
      ChildOf(cs[1..], c);
    }
  }

  /** Without NOT, more words can only help; under a NOT they can only hurt. */
  lemma {:induction false} MoreWordsHelp(n: Node, line: Bytes, other: Bytes)
    requires NotFree(n) && CarriesOver(n, line, other)
    ensures Holds(n, line) ==> Holds(n, other)
    ensures Holds(Negate(n), other) ==> Holds(Negate(n), line)
    decreases n, 1
  {
    assert Holds(Negate(n), other) == !Holds(n, other) && Holds(Negate(n), line) == !Holds(n, line);
    match n
    case Null =>
    case Leaf(w) =>
      assert w in Leaves(n);
    case Combine(op, cs) =>
      forall c | c in cs ensures Holds(c, line) ==> Holds(c, other) {
        ChildOf(cs, c);
        MoreWordsHelp(c, line, other);
      }
      AllAndSome(cs, line);
      AllAndSome(cs, other);
      assert op == Conj || op == Disj;
  }

  /** The verdict on a line depends only on which words of the pattern the line contains. */
  lemma {:induction false} OnlyWordsMatter(n: Node, line: Bytes, other: Bytes)
    requires CarriesOver(n, line, other) && CarriesOver(n, other, line)
    ensures Holds(n, line) <==> Holds(n, other)
    decreases n
  {
    match n
    case Null =>
    case Leaf(w) =>
      assert w in Leaves(n);
    case Negate(c) =>
      OnlyWordsMatter(c, line, other);
    case Combine(op, cs) =>
      forall c | c in cs ensures Holds(c, line) <==> Holds(c, other) {
        ChildOf(cs, c);
        OnlyWordsMatter(c, line, other);
      }
      AllAndSome(cs, line);
      AllAndSome(cs, other);
  }

  // ----- One level of a query

  ghost predicate Same(ops: seq<Op>) {
    forall i, j :: 0 <= i < |ops| && 0 <= j < |ops| ==> ops[i] == ops[j]
  }

  lemma SameIffUniform(ops: seq<Op>)
    ensures Same(ops) <==> Uniform(ops)
  {
    if Uniform(ops) {
      forall i, j | 0 <= i < |ops| && 0 <= j < |ops| ensures ops[i] == ops[j] {
        assert (i > 0 ==> ops[i] == ops[0]) && (j > 0 ==> ops[j] == ops[0]);
      }
    }
  }

  /** What becomes of a level with legal insides: with no operand it is null, one operand stands for
      itself whatever operators dangle about it, and several need operators of one kind; without
      any, they are joined by AND. */
  lemma LevelVerdict(items: seq<Item>)
    requires LegalInside(items)
    ensures var ns, ops := Operands(items), Operators(items);
      ParseTokens(Flatten(items)) ==
      if |ns| == 0 then Pattern(Null)
      else if |ns| == 1 then Pattern(ns[0])
      else if !Same(ops) then Refused(MixedOperators)
      else Pattern(Combine(if ops != [] && ops[0] == Disj then Disj else Conj, ns))
  {
    hide Operands, Operators, LegalInside, Flatten, Same, Uniform;
    var ns, ops := Operands(items), Operators(items);
    ParseItems(items, [], [], []);
    assert [] + ns == ns && [] + ops == ops && Flatten(items) + [] == Flatten(items);
    SameIffUniform(ops);
  }

  /** The lines a level with several operands matches: all operands for AND or no operator at all,
      some operand for OR. */
  lemma LevelMeaning(items: seq<Item>, line: Bytes)
    requires LegalInside(items) && |Operands(items)| >= 2 && Same(Operators(items))
    ensures var r := ParseTokens(Flatten(items));
      r.Pattern? &&
      if Disj in Operators(items) then Holds(r.node, line) <==> exists n :: n in Operands(items) && Holds(n, line)
      else Holds(r.node, line) <==> forall n :: n in Operands(items) ==> Holds(n, line)
  {
    LevelVerdict(items);
    AllAndSome(Operands(items), line);
  }

  /** An empty pair of parentheses matches nothing, and its negation everything. */
  lemma EmptyGroup(line: Bytes)
    ensures ParseTokens([LParen, RParen]) == Pattern(Null) && !Holds(Null, line)
    ensures ParseTokens([NotOp, LParen, RParen]) == Pattern(Negate(Null)) && Holds(Negate(Null), line)
  {
    var group, not := [Group([])], [NotGroup([])];
    Nil();
    assert group[1..] == [] && not[1..] == [];
    assert Flatten(group) == [LParen, RParen] && Flatten(not) == [NotOp, LParen, RParen];
    assert Operands(group) == [Null] && Operands(not) == [Negate(Null)];
    LevelVerdict(group);
    LevelVerdict(not);
  }

  // ----- Refused token lists

  lemma Unclosed(inner: seq<Item>)
    requires Legal(inner)
    ensures forall e :: ParseGroup(Flatten(inner), e) == Failed(e)
  {
    hide Operands, Operators, LegalInside, Flatten, Level, LevelOk;
    ParseItems(inner, [], [], []);
    assert [] + Operands(inner) == Operands(inner) && [] + Operators(inner) == Operators(inner);
    assert Flatten(inner) + [] == Flatten(inner);
  }

  /** After a legal level, a NOT that is not followed by a word or an opening parenthesis. */
  lemma NotWithoutOperand(items: seq<Item>, rest: seq<Token>)
    requires LegalInside(items) && (rest == [] || (!rest[0].Word? && rest[0] != LParen))
    ensures ParseTokens(Flatten(items) + ([NotOp] + rest)) == Refused(NotNeedsOperand)
  {
    hide Operands, Operators, LegalInside, Flatten, Level, LevelOk;
    ParseItems(items, [NotOp] + rest, [], []);
    assert ([NotOp] + rest)[1..] == rest;
  }

  /** After a legal level, an opening parenthesis that is never closed, with or without a NOT. */
  lemma OpenedNotClosed(items: seq<Item>, inner: seq<Item>)
    requires LegalInside(items) && Legal(inner)
    ensures ParseTokens(Flatten(items) + ([LParen] + Flatten(inner))) == Refused(ParenMismatch)
    ensures ParseTokens(Flatten(items) + ([NotOp, LParen] + Flatten(inner))) == Refused(ParenMismatchAfterNot)
  {
    hide Operands, Operators, LegalInside, Flatten, Level, LevelOk;
    ParseItems(items, [LParen] + Flatten(inner), [], []);
    ParseItems(items, [NotOp, LParen] + Flatten(inner), [], []);
    Unclosed(inner);
    assert ([LParen] + Flatten(inner))[1..] == Flatten(inner);
    var after := ([NotOp, LParen] + Flatten(inner))[1..];
    assert after[0] == LParen && after[1..] == Flatten(inner);
    assert ParseOperand(after) == Failed(ParenMismatchAfterNot);
  }

  /** After a legal level, a closing parenthesis that was never opened. */
  lemma ClosedNotOpened(items: seq<Item>, rest: seq<Token>)
    requires Legal(items)
    ensures ParseTokens(Flatten(items) + ([RParen] + rest)) == Refused(ExtraContent)
  {
    hide Operands, Operators, LegalInside, Flatten, Level, LevelOk;
    ParseItems(items, [RParen] + rest, [], []);
    assert [] + Operands(items) == Operands(items) && [] + Operators(items) == Operators(items);
  }

  // ----- From text to lines

  /** A word with no special byte that is no operator's name: it is written as it is. */
  ghost predicate Plain(w: Bytes) {
    w != [] && !IsName(w) && forall i :: 0 <= i < |w| ==> !Special(w[i])
  }

  lemma TokenizeThree(v: Bytes, name: Bytes, w: Bytes)
    requires Plain(v) && Plain(w) && IsName(name)
    ensures var op := if name == [65, 78, 68] then AndOp else if name == [79, 82] then OrOp else NotOp;
      Tokenize(v + ([32] + (name + ([32] + w))), []) == Tokens([Word(v), op, Word(w)])
  {
    hide Tokenize;
    var op := if name == [65, 78, 68] then AndOp else if name == [79, 82] then OrOp else NotOp;
    TokenizePlain(v, [32] + (name + ([32] + w)), []);
    assert [] + [Word(v)] == [Word(v)];
    TokenizeByte(32, name + ([32] + w), [Word(v)]);
    TokenizeName([32] + w, [Word(v)]);
    assert [Word(v)] + [op] == [Word(v), op];
    TokenizeByte(32, w, [Word(v), op]);
    assert w + [] == w;
    TokenizePlain(w, [], [Word(v), op]);
    assert [Word(v), op] + [Word(w)] == [Word(v), op, Word(w)];
    TokenizeNothing([Word(v), op, Word(w)]);
  }

  lemma TrimNothing(v: Bytes, middle: Bytes, w: Bytes)
    requires Plain(v) && Plain(w)
    ensures Trim(v + (middle + w)) == v + (middle + w)
  {
    var s := v + (middle + w);
    assert s[0] == v[0] && s[|s| - 1] == w[|w| - 1];
    NotSpecialNotTrimmable(v[0]);
    NotSpecialNotTrimmable(w[|w| - 1]);
    TrimPadded([], s, []);
    assert [] + s + [] == s;
  }

  lemma Two(a: Item, b: Item)
    ensures Flatten([a, b]) == FlattenItem(a) + FlattenItem(b)
    ensures Operands([a, b]) == OperandOf(a) + OperandOf(b) && Operators([a, b]) == OperatorOf(a) + OperatorOf(b)
    ensures LegalInside([a, b]) == (LegalItem(a) && LegalItem(b))
  {
    hide FlattenItem, OperandOf, OperatorOf, LegalItem;
    Nil();
    Cons(b, []);
    Cons(a, [b]);
    assert [b] + [] == [b] && [a] + [b] == [a, b];
    assert FlattenItem(b) + [] == FlattenItem(b) && OperandOf(b) + [] == OperandOf(b);
    assert OperatorOf(b) + [] == OperatorOf(b);
  }

  lemma Three(a: Item, b: Item, c: Item)
    ensures Flatten([a, b, c]) == FlattenItem(a) + (FlattenItem(b) + FlattenItem(c))
    ensures Operands([a, b, c]) == OperandOf(a) + (OperandOf(b) + OperandOf(c))
    ensures Operators([a, b, c]) == OperatorOf(a) + (OperatorOf(b) + OperatorOf(c))
    ensures LegalInside([a, b, c]) == (LegalItem(a) && LegalItem(b) && LegalItem(c))
  {
    hide FlattenItem, OperandOf, OperatorOf, LegalItem;
    Two(b, c);
    Cons(a, [b, c]);
    assert [a] + [b, c] == [a, b, c];
  }

  lemma QueryOf(v: Bytes, name: Bytes, w: Bytes, items: seq<Item>)
    requires Plain(v) && Plain(w) && IsName(name)
    requires var op := if name == [65, 78, 68] then AndOp else if name == [79, 82] then OrOp else NotOp;
      Flatten(items) == [Word(v), op, Word(w)]
    ensures Compile(v + ([32] + name + [32] + w)) == ParseTokens(Flatten(items))
  {
    hide Tokenize, Trim, ParseTokens, Plain;
    TokenizeThree(v, name, w);
    Nested([32], name, [32], w);
    TrimNothing(v, [32] + name + [32], w);
  }

  /** A level of two operands. */
  lemma PairMeaning(items: seq<Item>, a: Node, b: Node, line: Bytes)
    requires LegalInside(items) && Operands(items) == [a, b] && Same(Operators(items))
    ensures var r := ParseTokens(Flatten(items));
      r.Pattern? &&
      if Disj in Operators(items) then Holds(r.node, line) <==> Holds(a, line) || Holds(b, line)
      else Holds(r.node, line) <==> Holds(a, line) && Holds(b, line)
  {
    hide Holds, Flatten, Operators, LegalInside, ParseTokens, Same;
    LevelMeaning(items, line);
    assert Operands(items)[0] == a && Operands(items)[1] == b;
  }

  lemma LeafMeaning(w: Bytes, line: Bytes)
    ensures Holds(Leaf(w), line) <==> Contains(line, w)
    ensures Holds(Negate(Leaf(w)), line) <==> !Contains(line, w)
  {
  }

  /** `v AND w` as it is typed: the lines that contain both. */
  lemma AndQuery(v: Bytes, w: Bytes, line: Bytes)
    requires Plain(v) && Plain(w)
    ensures var r := Compile(v + ([32] + [65, 78, 68] + [32] + w));
      r.Pattern? && (Holds(r.node, line) <==> Contains(line, v) && Contains(line, w))
  {
    hide Compile, ParseTokens, Contains, Plain, Holds, Flatten;
    LeafMeaning(v, line);
    LeafMeaning(w, line);
    var items := [WordItem(v), OpItem(Conj), WordItem(w)];
    Three(items[0], items[1], items[2]);
    QueryOf(v, [65, 78, 68], w, items);
    PairMeaning(items, Leaf(v), Leaf(w), line);
  }

  /** `v OR w`: the lines that contain one of them. */
  lemma OrQuery(v: Bytes, w: Bytes, line: Bytes)
    requires Plain(v) && Plain(w)
    ensures var r := Compile(v + ([32] + [79, 82] + [32] + w));
      r.Pattern? && (Holds(r.node, line) <==> Contains(line, v) || Contains(line, w))
  {
    hide Compile, ParseTokens, Contains, Plain, Holds, Flatten;
    LeafMeaning(v, line);
    LeafMeaning(w, line);
    var items := [WordItem(v), OpItem(Disj), WordItem(w)];
    Three(items[0], items[1], items[2]);
    QueryOf(v, [79, 82], w, items);
    PairMeaning(items, Leaf(v), Leaf(w), line);
  }

  /** `v NOT w`: the lines that contain the one but not the other. */
  lemma NotQuery(v: Bytes, w: Bytes, line: Bytes)
    requires Plain(v) && Plain(w)
    ensures var r := Compile(v + ([32] + [78, 79, 84] + [32] + w));
      r.Pattern? && (Holds(r.node, line) <==> Contains(line, v) && !Contains(line, w))
  {
    hide Compile, ParseTokens, Contains, Plain, Holds, Flatten;
    LeafMeaning(v, line);
    LeafMeaning(w, line);
    var items := [WordItem(v), NotWord(w)];
    Two(items[0], items[1]);
    QueryOf(v, [78, 79, 84], w, items);
    PairMeaning(items, Leaf(v), Negate(Leaf(w)), line);
  }
}
