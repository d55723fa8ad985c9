/** The recursive-descent parser of boolean queries (`parse_expr` in
    `boolean_searcher::build_pattern`). */
module QueryParser {
  import opened LogLines
  import opened QueryTokens

  datatype Op = Conj | Disj

  /** A pattern node; `Null` is the null pointer that an empty pair of parentheses gives. */
  datatype Node =
    | Null
    | Leaf(word: Bytes)
    | Negate(child: Node)
    | Combine(op: Op, children: seq<Node>)

  datatype Parse = Parsed(node: Node, rest: seq<Token>) | Failed(error: QueryError)

  predicate Uniform(ops: seq<Op>) {
    forall i :: 1 <= i < |ops| ==> ops[i] == ops[0]
  }

  /** The node of one nesting level, from its operands and operators. */
  function Level(nodes: seq<Node>, ops: seq<Op>): Node {
    if nodes == [] then Null
    else if |nodes| == 1 then nodes[0]
    else Combine(if ops == [] then Conj else ops[0], nodes)
  }

  /** Operators must agree only where there is something to combine. */
  predicate LevelOk(nodes: seq<Node>, ops: seq<Op>) {
    |nodes| > 1 ==> Uniform(ops)
  }

  /** Parsing on from the tokens `ts` at one level that has read `nodes` and `ops` so far. */
  function ParseLevel(ts: seq<Token>, nodes: seq<Node>, ops: seq<Op>): (r: Parse)
    ensures r.Parsed? ==> |r.rest| <= |ts| && (r.rest == [] || r.rest[0] == RParen)
    decreases |ts|, 0
  {
    if ts == [] || ts[0] == RParen then
      if LevelOk(nodes, ops) then Parsed(Level(nodes, ops), ts) else Failed(MixedOperators)
    else match ts[0]
      case Word(v) => ParseLevel(ts[1..], nodes + [Leaf(v)], ops)
      case AndOp => ParseLevel(ts[1..], nodes, ops + [Conj])
      case OrOp => ParseLevel(ts[1..], nodes, ops + [Disj])
      case NotOp =>
        var operand := ParseOperand(ts[1..]);
        if operand.Failed? then operand
        else ParseLevel(operand.rest, nodes + [Negate(operand.node)], ops)
      case LParen =>
        var group := ParseGroup(ts[1..], ParenMismatch);
        if group.Failed? then group
        else ParseLevel(group.rest, nodes + [group.node], ops)
  }

  /** A level and its closing parenthesis, after the opening one. */
  function ParseGroup(ts: seq<Token>, mismatch: QueryError): (r: Parse)
    ensures r.Parsed? ==> |r.rest| < |ts|
    decreases |ts|, 1
  {
    var sub := ParseLevel(ts, [], []);
    if sub.Failed? then sub
    else if sub.rest == [] then Failed(mismatch)
    else Parsed(sub.node, sub.rest[1..])
  }

  /** What may follow NOT: a word or a parenthesised level. */
  function ParseOperand(ts: seq<Token>): (r: Parse)
    ensures r.Parsed? ==> |r.rest| < |ts|
    decreases |ts|, 2
  {
    if ts == [] then Failed(NotNeedsOperand)
    else if ts[0].Word? then Parsed(Leaf(ts[0].value), ts[1..])
    else if ts[0] == LParen then ParseGroup(ts[1..], ParenMismatchAfterNot)
    else Failed(NotNeedsOperand)
  }

  datatype Pattern = Pattern(node: Node) | Refused(error: QueryError)

  /** A whole query: nothing may be left over. */
  function ParseTokens(ts: seq<Token>): Pattern {
    match ParseLevel(ts, [], [])
    case Failed(e) => Refused(e)
    case Parsed(node, rest) => if rest == [] then Pattern(node) else Refused(ExtraContent)
  }

  /** Combine the operands of a level, checking its operators only when there are several. */
  method CombineLevel(nodes: seq<Node>, ops: seq<Op>) returns (ok: bool, node: Node)
    ensures ok == LevelOk(nodes, ops)
    ensures ok ==> node == Level(nodes, ops)
  {
    if nodes == [] {
      return true, Null;
    }
    if |nodes| == 1 {
      return true, nodes[0];
    }
    var top := Conj;
    if ops != [] {
      var i := 1;
      while i < |ops|
        invariant 1 <= i <= |ops|
        invariant forall k :: 1 <= k < i ==> ops[k] == ops[0]
      {
        if ops[i] != ops[0] {
          return false, Null;
        }
        i := i + 1;
      }
      top := ops[0];
    }
    return true, Combine(top, nodes);
  }

  method ParseGroupAt(tokens: seq<Token>, start: nat, mismatch: QueryError) returns (r: Parse, pos: nat)
    requires start <= |tokens|
    ensures r == ParseGroup(tokens[start..], mismatch)
    ensures r.Parsed? ==> start < pos <= |tokens| && r.rest == tokens[pos..]
    decreases |tokens| - start, 1
  {
    r, pos := ParseExpr(tokens, start);
    if r.Parsed? {
      if pos >= |tokens| {
        return Failed(mismatch), pos;
      }
      pos := pos + 1;
      r := Parsed(r.node, tokens[pos..]);
    }
  }

  method ParseOperandAt(tokens: seq<Token>, start: nat) returns (r: Parse, pos: nat)
    requires start <= |tokens|
    ensures r == ParseOperand(tokens[start..])
    ensures r.Parsed? ==> start < pos <= |tokens| && r.rest == tokens[pos..]
    decreases |tokens| - start, 2
  {
    if start >= |tokens| {
      return Failed(NotNeedsOperand), start;
    }
    assert tokens[start..][1..] == tokens[start + 1..];
    if tokens[start].Word? {
      return Parsed(Leaf(tokens[start].value), tokens[start + 1..]), start + 1;
    } else if tokens[start] == LParen {
      r, pos := ParseGroupAt(tokens, start + 1, ParenMismatchAfterNot);
    } else {
      return Failed(NotNeedsOperand), start;
    }
  }

  /** The parser over a shared cursor. */
  method ParseExpr(tokens: seq<Token>, start: nat) returns (r: Parse, pos: nat)
    requires start <= |tokens|
    ensures r == ParseLevel(tokens[start..], [], [])
    ensures r.Parsed? ==> start <= pos <= |tokens| && r.rest == tokens[pos..]
    decreases |tokens| - start, 0
  {
    hide Level, LevelOk;
    var nodes: seq<Node>, ops: seq<Op> := [], [];
    ghost var goal := ParseLevel(tokens[start..], [], []);
    pos := start;
    while pos < |tokens| && tokens[pos] != RParen
      invariant start <= pos <= |tokens|
      invariant ParseLevel(tokens[pos..], nodes, ops) == goal
      decreases |tokens| - pos
    {
      assert tokens[pos..][1..] == tokens[pos + 1..];
      match tokens[pos] {
        case Word(v) =>
          nodes := nodes + [Leaf(v)];
          pos := pos + 1;
        case NotOp =>
          var operand, after := ParseOperandAt(tokens, pos + 1);
          if operand.Failed? {
            return operand, after;
          }
          nodes := nodes + [Negate(operand.node)];
          pos := after;
        case AndOp =>
          ops := ops + [Conj];
          pos := pos + 1;
        case OrOp =>
          ops := ops + [Disj];
          pos := pos + 1;
        case LParen =>
          var group, after := ParseGroupAt(tokens, pos + 1, ParenMismatch);
          if group.Failed? {
            return group, after;
          }
          nodes := nodes + [group.node];
          pos := after;
      }
    }
    var ok, node := CombineLevel(nodes, ops);
    if !ok {
      return Failed(MixedOperators), pos;
    }
    return Parsed(node, tokens[pos..]), pos;
  }
}
