/** What a successful parse keeps of its tokens. */
module QueryFacts {
  import opened LogLines
  import opened QueryTokens
  import opened QueryParser
  import opened QueryGrammar

  function Leaves(n: Node): seq<Bytes>
    decreases n, 1
  {
    match n
    case Null => []
    case Leaf(w) => [w]
    case Negate(c) => Leaves(c)
    case Combine(_, cs) => LeavesOfAll(cs)
  }

  function LeavesOfAll(ns: seq<Node>): seq<Bytes>
    decreases ns, 0
  {
    if ns == [] then [] else Leaves(ns[0]) + LeavesOfAll(ns[1..])
  }

  function Negations(n: Node): nat
    decreases n, 1
  {
    match n
    case Null => 0
    case Leaf(_) => 0
    case Negate(c) => 1 + Negations(c)
    case Combine(_, cs) => NegationsOfAll(cs)
  }

  function NegationsOfAll(ns: seq<Node>): nat
    decreases ns, 0
  {
    if ns == [] then 0 else Negations(ns[0]) + NegationsOfAll(ns[1..])
  }

  function Words(ts: seq<Token>): seq<Bytes> {
    if ts == [] then [] else (if ts[0].Word? then [ts[0].value] else []) + Words(ts[1..])
  }

  function Nots(ts: seq<Token>): nat {
    if ts == [] then 0 else (if ts[0].NotOp? then 1 else 0) + Nots(ts[1..])
  }

  function Depth(ts: seq<Token>): int {
    if ts == [] then 0
    else (if ts[0] == LParen then 1 else if ts[0] == RParen then -1 else 0) + Depth(ts[1..])
  }

  /** Every prefix has opened at least as many parentheses as it closed, and all are closed. */
  ghost predicate Balanced(ts: seq<Token>) {
    Depth(ts) == 0 && forall k :: 0 <= k <= |ts| ==> Depth(ts[..k]) >= 0
  }

  lemma {:induction false} CountsAppend(x: seq<Token>, y: seq<Token>)
    ensures Words(x + y) == Words(x) + Words(y)
    ensures Nots(x + y) == Nots(x) + Nots(y)
    ensures Depth(x + y) == Depth(x) + Depth(y)
    decreases |x|
  {
    if x == [] {
      assert x + y == y;
    } else {
      assert (x + y)[1..] == x[1..] + y;
      CountsAppend(x[1..], y);
    }
  }

  lemma BalancedAppend(x: seq<Token>, y: seq<Token>)
    requires Balanced(x) && Balanced(y)
    ensures Balanced(x + y)
  {
    CountsAppend(x, y);
    forall k | 0 <= k <= |x + y| ensures Depth((x + y)[..k]) >= 0 {
      if k <= |x| {
        assert (x + y)[..k] == x[..k];
      } else {
        assert (x + y)[..k] == x + y[..k - |x|];
        CountsAppend(x, y[..k - |x|]);
      }
    }
  }

  lemma BalancedWrap(x: seq<Token>)
    requires Balanced(x)
    ensures Balanced([LParen] + x + [RParen])
  {
    var w := [LParen] + x + [RParen];
    CountsAppend([LParen] + x, [RParen]);
    CountsAppend([LParen], x);
    assert Depth([LParen]) == 1 && Depth([RParen]) == -1;
    forall k | 0 <= k <= |w| ensures Depth(w[..k]) >= 0 {
      if 1 <= k <= |x| + 1 {
        assert w[..k] == [LParen] + x[..k - 1];
        CountsAppend([LParen], x[..k - 1]);
      } else if k == |w| {
        assert w[..k] == w;
      }
    }
  }

  lemma BalancedOne(t: Token)
    requires t != LParen && t != RParen
    ensures Balanced([t])
  {
    assert forall k :: 0 <= k <= 1 ==> [t][..k] == [] || [t][..k] == [t];
    assert Depth([t]) == 0;
  }

  lemma {:induction false} LeavesAppend(x: seq<Node>, y: seq<Node>)
    ensures LeavesOfAll(x + y) == LeavesOfAll(x) + LeavesOfAll(y)
    ensures NegationsOfAll(x + y) == NegationsOfAll(x) + NegationsOfAll(y)
    decreases |x|
  {
    if x == [] {
      assert x + y == y;
    } else {
      assert (x + y)[1..] == x[1..] + y;
      LeavesAppend(x[1..], y);
    }
  }

  lemma LeavesOfLevel(nodes: seq<Node>, ops: seq<Op>)
    ensures Leaves(Level(nodes, ops)) == LeavesOfAll(nodes)
    ensures Negations(Level(nodes, ops)) == NegationsOfAll(nodes)
  {
    if |nodes| == 1 {
      assert nodes == [nodes[0]] && nodes[1..] == [];
    }
  }

  lemma {:induction false} ItemsKeepTokens(items: seq<Item>)
    ensures LeavesOfAll(Operands(items)) == Words(Flatten(items))
    ensures NegationsOfAll(Operands(items)) == Nots(Flatten(items))
    ensures Balanced(Flatten(items))
    decreases items, 0
  {
    if items != [] {
      ItemKeepsTokens(items[0]);
      ItemsKeepTokens(items[1..]);
      CountsAppend(FlattenItem(items[0]), Flatten(items[1..]));
      LeavesAppend(OperandOf(items[0]), Operands(items[1..]));
      BalancedAppend(FlattenItem(items[0]), Flatten(items[1..]));
    } else {
      assert forall k :: 0 <= k <= 0 ==> Flatten(items)[..k] == [];
    }
  }

  lemma {:induction false} ItemKeepsTokens(it: Item)
    ensures LeavesOfAll(OperandOf(it)) == Words(FlattenItem(it))
    ensures NegationsOfAll(OperandOf(it)) == Nots(FlattenItem(it))
    ensures Balanced(FlattenItem(it))
    decreases it, 1
  {
    match it
    case WordItem(w) =>
      BalancedOne(Word(w));
    case NotWord(w) =>
      BalancedOne(NotOp);
      BalancedOne(Word(w));
      BalancedAppend([NotOp], [Word(w)]);
      CountsAppend([NotOp], [Word(w)]);
      assert FlattenItem(it) == [NotOp] + [Word(w)];
      assert Leaves(Negate(Leaf(w))) == Leaves(Leaf(w)) == [w];
      assert Negations(Negate(Leaf(w))) == 1 + Negations(Leaf(w)) == 1;
    case OpItem(op) =>
      BalancedOne(FlattenItem(it)[0]);
    case Group(g) =>
      GroupKeepsTokens(g);
    case NotGroup(g) =>
      GroupKeepsTokens(g);
      BalancedOne(NotOp);
      var wrapped := [LParen] + Flatten(g) + [RParen];
      assert FlattenItem(it) == [NotOp] + wrapped;
      BalancedAppend([NotOp], wrapped);
      CountsAppend([NotOp], wrapped);
  }

  lemma {:induction false} GroupKeepsTokens(g: seq<Item>)
    ensures var wrapped := [LParen] + Flatten(g) + [RParen];
            && Balanced(wrapped)
            && Leaves(Tree(g)) == Words(wrapped) && Negations(Tree(g)) == Nots(wrapped)
    decreases g, 1
  {
    ItemsKeepTokens(g);
    BalancedWrap(Flatten(g));
    CountsAppend([LParen] + Flatten(g), [RParen]);
    CountsAppend([LParen], Flatten(g));
    LeavesOfLevel(Operands(g), Operators(g));
  }

  /** At this level and at all levels inside: if there are two operands or more, all operators are
      the same. */
  ghost predicate OneOperatorPerLevel(items: seq<Item>)
    decreases items, 1
  {
    && (|Operands(items)| > 1 ==>
          forall i, j :: 0 <= i < j < |Operators(items)| ==> Operators(items)[i] == Operators(items)[j])
    && forall k :: 0 <= k < |items| ==> OneOperatorInside(items[k])
  }

  ghost predicate OneOperatorInside(it: Item)
    decreases it, 0
  {
    match it
    case NotGroup(g) => OneOperatorPerLevel(g)
    case Group(g) => OneOperatorPerLevel(g)
    case _ => true
  }

  lemma {:induction false} LegalAt(items: seq<Item>, k: nat)
    requires k < |items| && LegalInside(items)
    ensures LegalItem(items[k])
    decreases k
  {
    if k > 0 {
      LegalAt(items[1..], k - 1);
    }
  }

  lemma {:induction false} LegalIsUniform(items: seq<Item>)
    requires Legal(items)
    ensures OneOperatorPerLevel(items)
    decreases items, 2
  {
    var ops := Operators(items);
    if |Operands(items)| > 1 {
      forall i, j | 0 <= i < j < |ops| ensures ops[i] == ops[j] {
        assert ops[j] == ops[0] && (i > 0 ==> ops[i] == ops[0]);
      }
    }
    forall k | 0 <= k < |items| ensures OneOperatorInside(items[k]) {
      LegalAt(items, k);
      match items[k]
      case NotGroup(g) => LegalIsUniform(g);
      case Group(g) => LegalIsUniform(g);
      case _ =>
    }
  }

  /** Nothing is lost or invented: the leaves of the tree, left to right, are the words of the
      query; there is one negation node per NOT; the parentheses balance in every prefix; and the
      tokens are those of a sentence with this tree in which every level that combines operands
      uses one operator. */
  lemma ParsingLosesNothing(ts: seq<Token>)
    requires ParseTokens(ts).Pattern?
    ensures var node := ParseTokens(ts).node;
            && Leaves(node) == Words(ts) && Negations(node) == Nots(ts) && Balanced(ts)
            && exists items :: Flatten(items) == ts && Tree(items) == node && OneOperatorPerLevel(items)
  {
    var node := ParseTokens(ts).node;
    ParserIsGrammar(ts, node);
    var items :| Flatten(items) == ts && Legal(items) && Tree(items) == node;
    ItemsKeepTokens(items);
    LeavesOfLevel(Operands(items), Operators(items));
    LegalIsUniform(items);
  }
}
