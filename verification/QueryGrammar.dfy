/** A declarative grammar for boolean queries, and the proof that the parser accepts exactly the
    grammar's sentences and builds exactly their trees. */
module QueryGrammar {
  import opened Sequences
  import opened LogLines
  import opened QueryTokens
  import opened QueryParser

  /** One element of a nesting level. */
  datatype Item =
    | WordItem(word: Bytes)
    | NotWord(word: Bytes)
    | NotGroup(items: seq<Item>)
    | Group(items: seq<Item>)
    | OpItem(op: Op)

  /** The tokens a list of items is written with. */
  function Flatten(items: seq<Item>): seq<Token>
    decreases items, 0
  {
    if items == [] then [] else FlattenItem(items[0]) + Flatten(items[1..])
  }

  function FlattenItem(it: Item): (r: seq<Token>)
    ensures r != []
    decreases it, 1
  {
    match it
    case WordItem(w) => [Word(w)]
    case NotWord(w) => [NotOp, Word(w)]
    case NotGroup(g) => [NotOp, LParen] + Flatten(g) + [RParen]
    case Group(g) => [LParen] + Flatten(g) + [RParen]
    case OpItem(op) => [if op == Conj then AndOp else OrOp]
  }

  function Operators(items: seq<Item>): seq<Op> {
    if items == [] then []
    else (if items[0].OpItem? then [items[0].op] else []) + Operators(items[1..])
  }

  /** The tree a level stands for. */
  function Tree(items: seq<Item>): Node
    decreases items, 2
  {
    Level(Operands(items), Operators(items))
  }

  function Operands(items: seq<Item>): seq<Node>
    decreases items, 0
  {
    if items == [] then [] else OperandOf(items[0]) + Operands(items[1..])
  }

  function OperandOf(it: Item): seq<Node>
    decreases it, 3
  {
    match it
    case WordItem(w) => [Leaf(w)]
    case NotWord(w) => [Negate(Leaf(w))]
    case NotGroup(g) => [Negate(Tree(g))]
    case Group(g) => [Tree(g)]
    case OpItem(_) => []
  }

  /** A level with two or more operands uses one kind of operator, and so do all levels inside. */
  predicate Legal(items: seq<Item>)
    decreases items, 2
  {
    LevelOk(Operands(items), Operators(items)) && LegalInside(items)
  }

  predicate LegalInside(items: seq<Item>)
    decreases items, 0
  {
    items == [] || (LegalItem(items[0]) && LegalInside(items[1..]))
  }

  predicate LegalItem(it: Item)
    decreases it, 3
  {
    match it
    case NotGroup(g) => Legal(g)
    case Group(g) => Legal(g)
    case _ => true
  }

  function OperatorOf(it: Item): seq<Op> {
    if it.OpItem? then [it.op] else []
  }

  lemma Cons(it: Item, more: seq<Item>)
    ensures Flatten([it] + more) == FlattenItem(it) + Flatten(more)
    ensures Operands([it] + more) == OperandOf(it) + Operands(more)
    ensures Operators([it] + more) == OperatorOf(it) + Operators(more)
    ensures LegalInside([it] + more) == (LegalItem(it) && LegalInside(more))
  {
    hide FlattenItem, OperandOf, LegalItem;
    assert ([it] + more)[1..] == more;
  }

  lemma Nil()
    ensures Flatten([]) == [] && Operands([]) == [] && Operators([]) == [] && LegalInside([])
  {
  }

  // ----- Completeness: the parser accepts every legal level

  /** The parser reads a list of items as a whole, whatever follows it. */
  lemma {:induction false} ParseItems(items: seq<Item>, rest: seq<Token>, nodes: seq<Node>, ops: seq<Op>)
    requires LegalInside(items)
    ensures ParseLevel(Flatten(items) + rest, nodes, ops) ==
            ParseLevel(rest, nodes + Operands(items), ops + Operators(items))
    decreases items, 0
  {
    hide Flatten, FlattenItem, Operands, OperandOf, Operators, OperatorOf, LegalInside, ParseLevel;
    if items == [] {
      Nil();
      assert [] + rest == rest && nodes + [] == nodes && ops + [] == ops;
    } else {
      var it, more := items[0], items[1..];
      assert items == [it] + more;
      Cons(it, more);
      Assoc(FlattenItem(it), Flatten(more), rest);
      ParseItem(it, Flatten(more) + rest, nodes, ops);
      ParseItems(more, rest, nodes + OperandOf(it), ops + OperatorOf(it));
      Assoc(nodes, OperandOf(it), Operands(more));
      Assoc(ops, OperatorOf(it), Operators(more));
    }
  }

  lemma {:induction false} ParseItem(it: Item, tail: seq<Token>, nodes: seq<Node>, ops: seq<Op>)
    requires LegalItem(it)
    ensures ParseLevel(FlattenItem(it) + tail, nodes, ops) ==
            ParseLevel(tail, nodes + OperandOf(it), ops + OperatorOf(it))
    decreases it, 1
  {
    hide Level, LevelOk;
    var ts := FlattenItem(it) + tail;
    match it
    case WordItem(w) =>
      assert ts[1..] == tail && ops + [] == ops;
    case OpItem(op) =>
      assert ts[1..] == tail && nodes + [] == nodes;
    case NotWord(w) =>
      assert ts[1..] == [Word(w)] + tail && ts[1..][1..] == tail && ops + [] == ops;
    case NotGroup(g) =>
      assert ts[1..][1..] == Flatten(g) + ([RParen] + tail) && ops + [] == ops;
      ParseGroupOf(g, tail, ParenMismatchAfterNot);
    case Group(g) =>
      assert ts[1..] == Flatten(g) + ([RParen] + tail) && ops + [] == ops;
      ParseGroupOf(g, tail, ParenMismatch);
  }

  lemma {:induction false} ParseGroupOf(g: seq<Item>, tail: seq<Token>, mismatch: QueryError)
    requires Legal(g)
    ensures ParseGroup(Flatten(g) + ([RParen] + tail), mismatch) == Parsed(Tree(g), tail)
    decreases g, 1
  {
    ParseItems(g, [RParen] + tail, [], []);
    assert [] + Operands(g) == Operands(g) && [] + Operators(g) == Operators(g);
    assert ([RParen] + tail)[1..] == tail;
  }

  // ----- Soundness: whatever the parser accepts is a legal level

  /** The items behind a successful parse. */
  lemma {:induction false} ItemsOf(ts: seq<Token>, nodes: seq<Node>, ops: seq<Op>) returns (items: seq<Item>)
    requires ParseLevel(ts, nodes, ops).Parsed?
    ensures var r := ParseLevel(ts, nodes, ops);
            && ts == Flatten(items) + r.rest && LegalInside(items)
            && LevelOk(nodes + Operands(items), ops + Operators(items))
            && r.node == Level(nodes + Operands(items), ops + Operators(items))
    decreases |ts|, 3
  {
    hide Level, LevelOk, Flatten, FlattenItem, Operands, OperandOf, Operators, OperatorOf, LegalInside;
    if ts == [] || ts[0] == RParen {
      items := [];
      Nil();
      assert [] + ts == ts && nodes + [] == nodes && ops + [] == ops;
    } else {
      hide ParseLevel;
      var it, after := FirstItem(ts, nodes, ops);
      var nodes', ops' := nodes + OperandOf(it), ops + OperatorOf(it);
      assert ParseLevel(ts, nodes, ops) == ParseLevel(after, nodes', ops') by {
        ParseItem(it, after, nodes, ops);
      }
      var more := ItemsOf(after, nodes', ops');
      items := [it] + more;
      Cons(it, more);
      Assoc(nodes, OperandOf(it), Operands(more));
      Assoc(ops, OperatorOf(it), Operators(more));
      Assoc(FlattenItem(it), Flatten(more), ParseLevel(ts, nodes, ops).rest);
    }
  }

  lemma {:induction false} FirstItem(ts: seq<Token>, nodes: seq<Node>, ops: seq<Op>)
    returns (it: Item, after: seq<Token>)
    requires ts != [] && ts[0] != RParen && ParseLevel(ts, nodes, ops).Parsed?
    ensures ts == FlattenItem(it) + after && LegalItem(it) && |after| < |ts|
    decreases |ts|, 2
  {
    hide Level, LevelOk, Flatten, Operands, Operators, Legal, Tree;
    var tail := ts[1..];
    assert ts == [ts[0]] + tail;
    match ts[0] {
      case Word(v) => it, after := WordItem(v), tail;
      case AndOp => it, after := OpItem(Conj), tail;
      case OrOp => it, after := OpItem(Disj), tail;
      case NotOp =>
        it, after := NotItem(tail);
      case LParen =>
        var g := GroupOf(tail, ParenMismatch);
        it, after := Group(g), ParseGroup(tail, ParenMismatch).rest;
    }
  }

  lemma {:induction false} NotItem(ts: seq<Token>) returns (it: Item, after: seq<Token>)
    requires ParseOperand(ts).Parsed?
    ensures [NotOp] + ts == FlattenItem(it) + after && LegalItem(it) && |after| < |ts|
    decreases |ts|, 1
  {
    hide Level, LevelOk, Flatten, Operands, Operators, Legal, Tree, ParseLevel;
    assert ts == [ts[0]] + ts[1..];
    if ts[0].Word? {
      it, after := NotWord(ts[0].value), ts[1..];
    } else {
      var g := GroupOf(ts[1..], ParenMismatchAfterNot);
      it, after := NotGroup(g), ParseGroup(ts[1..], ParenMismatchAfterNot).rest;
    }
  }

  lemma {:induction false} GroupOf(ts: seq<Token>, mismatch: QueryError) returns (g: seq<Item>)
    requires ParseGroup(ts, mismatch).Parsed?
    ensures var r := ParseGroup(ts, mismatch);
            ts == Flatten(g) + [RParen] + r.rest && Legal(g) && r.node == Tree(g)
    decreases |ts|, 4
  {
    hide Level, LevelOk, Flatten, Operands, Operators, LegalInside, ParseLevel;
    g := ItemsOf(ts, [], []);
    assert [] + Operands(g) == Operands(g) && [] + Operators(g) == Operators(g);
    var sub := ParseLevel(ts, [], []);
    assert sub.rest == [RParen] + sub.rest[1..];
  }

  // ----- The parser is the grammar

  lemma GrammarParses(items: seq<Item>)
    requires Legal(items)
    ensures ParseTokens(Flatten(items)) == Pattern(Tree(items))
  {
    ParseItems(items, [], [], []);
    assert [] + Operands(items) == Operands(items) && [] + Operators(items) == Operators(items);
    assert Flatten(items) + [] == Flatten(items);
  }

  /** A token list parses to a tree exactly when it is written by a legal level with that tree. */
  lemma ParserIsGrammar(ts: seq<Token>, node: Node)
    ensures ParseTokens(ts) == Pattern(node) <==>
            exists items :: Flatten(items) == ts && Legal(items) && Tree(items) == node
  {
    if ParseTokens(ts) == Pattern(node) {
      var items := ItemsOf(ts, [], []);
      assert [] + Operands(items) == Operands(items) && [] + Operators(items) == Operators(items);
      assert Flatten(items) + [] == Flatten(items);
    }
    forall items | Flatten(items) == ts && Legal(items) && Tree(items) == node
      ensures ParseTokens(ts) == Pattern(node)
    {
      GrammarParses(items);
    }
  }
}
