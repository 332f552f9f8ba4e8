/** The parser as the source runs it: a cursor that moves, and nodes whose arguments are filled in place. */
module BooldepParse {
  import opened Wrappers
  import opened Relations
  import opened BooldepSpec
  import opened BooldepGrammar

  /** A struct node; tree is the value it stands for. */
  class NodeObj {
    const op: Option<Kind>
    const name: string
    const rel: Rel
    const evr: Option<string>
    var args: seq<NodeObj>
    ghost var tree: Node
    ghost var repr: set<object>

    ghost predicate Valid()
      reads this, repr
      ensures Valid() ==> this in repr && (op.Some? ==> tree.Op? && tree.op == op.value)
      decreases repr
    {
      && this in repr
      && (forall i :: 0 <= i < |args| ==> args[i] in repr && args[i].repr < repr && this !in args[i].repr)
      && (forall i :: 0 <= i < |args| ==> args[i].Valid())
      && if op.None? then tree == Leaf(name, rel, evr)
         else tree.Op? && tree.op == op.value && |tree.args| == |args| &&
              forall i :: 0 <= i < |args| ==> tree.args[i] == args[i].tree
    }

    constructor Identifier(name: string, rel: Rel, evr: Option<string>)
      ensures Valid() && fresh(repr) && op == None && tree == Leaf(name, rel, evr)
    {
      op, this.name, this.rel, this.evr, args := None, name, rel, evr, [];
      tree, repr := Leaf(name, rel, evr), {this};
    }

    constructor Operator(op: Kind)
      ensures Valid() && fresh(repr) && this.op == Some(op) && args == [] && tree == Op(op, [])
    {
      this.op, name, rel, evr, args := Some(op), Name(op), NO_RELATION, None, [];
      tree, repr := Op(op, []), {this};
    }

    /** node_set_arg: the index of the new argument, or -1. */
    method SetArg(arg: NodeObj) returns (nth: int)
      requires Valid() && op.Some? && arg.Valid() && this !in arg.repr
      modifies this`args, this`tree, this`repr
      ensures nth == -1 <==> BooldepSpec.SetArg(old(tree), arg.tree).None?
      ensures nth == -1 ==> args == old(args) && tree == old(tree) && repr == old(repr) && Valid()
      ensures nth != -1 ==> Valid() && repr == old(repr) + arg.repr && args == old(args) + [arg] &&
                            BooldepSpec.SetArg(old(tree), arg.tree) == Some(tree)
    {
      if |args| >= Ary(op.value) { return -1; }
      nth := |args|;
      args := args + [arg];
      repr := repr + arg.repr;
      tree := Op(tree.op, tree.args + [arg.tree]);
    }
  }

  method SkipBlank(s: string, p: nat) returns (q: nat)
    requires p <= |s|
    ensures p <= q <= |s| && s[q..] == SkipWhite(s[p..])
  {
    q := p;
    while q < |s| && IsSpace(s[q])
      invariant p <= q <= |s| && SkipWhite(s[q..]) == SkipWhite(s[p..])
    {
      assert s[q..][1..] == s[q + 1..];
      q := q + 1;
    }
  }

  /** skipnonwhite; bl is decremented even by the test that ends the loop. */
  method SkipNonWhite(s: string, p: nat) returns (q: nat)
    requires p <= |s|
    ensures p <= q <= |s| && q - p == TokenLen(s[p..], 0)
  {
    var bl := 0;
    q := p;
    while q < |s|
      invariant p <= q <= |s| && TokenLen(s[p..], 0) == q - p + TokenLen(s[q..], bl)
    {
      assert s[q..][1..] == s[q + 1..];
      if s[q] == ' ' || s[q] == ',' { break; }
      if s[q] == ')' {
        if bl <= 0 { break; }
        bl := bl - 1;
      }
      if s[q] == '(' {
        bl := bl + 1;
      }
      q := q + 1;
    }
  }

  method ParseRelflags(s: string, p: nat) returns (q: nat, rel: Rel)
    requires p <= |s|
    ensures p <= q <= |s| && q - p == RelLen(s[p..]) && rel == RelOf(s[p..q])
    ensures rel == NO_RELATION <==> q == p
  {
    q, rel := p, NO_RELATION;
    while q < |s|
      invariant p <= q <= |s| && RelLen(s[p..]) == q - p + RelLen(s[q..]) && rel == RelOf(s[p..q])
      invariant rel == NO_RELATION <==> q == p
    {
      assert s[q..][1..] == s[q + 1..] && s[p..q + 1] == s[p..q] + [s[q]];
      if s[q] == '<' {
        rel := rel.(lt := true);
      } else if s[q] == '=' {
        rel := rel.(eq := true);
      } else if s[q] == '>' {
        rel := rel.(gt := true);
      } else {
        break;
      }
      q := q + 1;
    }
  }

  /** The end of an operator word. */
  method SkipWord(s: string, p: nat) returns (q: nat)
    requires p <= |s|
    ensures p <= q <= |s| && q - p == WordLen(s[p..])
  {
    q := p;
    while q < |s| && !IsSpace(s[q])
      invariant p <= q <= |s| && WordLen(s[p..]) == q - p + WordLen(s[q..])
    {
      assert s[q..][1..] == s[q + 1..];
      q := q + 1;
    }
  }

  /** The search through the operator table. */
  method FindOp(word: string) returns (op: Option<Kind>)
    ensures op == OpOf(word)
  {
    NamesDiffer();
    var i := 0;
    while i < |OPERATORS|
      invariant 0 <= i <= |OPERATORS|
      invariant forall k :: 0 <= k < i ==> Name(OPERATORS[k]) != word
    {
      if |word| == |Name(OPERATORS[i])| && word == Name(OPERATORS[i]) {
        return Some(OPERATORS[i]);
      }
      i := i + 1;
    }
    AllOperators();
    assert forall op: Kind :: op in OPERATORS ==> Name(op) != word;
    op := None;
  }

  lemma AllOperators()
    ensures forall op: Kind :: op in OPERATORS
  {
    forall op: Kind ensures op in OPERATORS {
      match op
      case And => assert OPERATORS[0] == And;
      case Or => assert OPERATORS[1] == Or;
      case If => assert OPERATORS[2] == If;
      case Unless => assert OPERATORS[3] == Unless;
      case Else => assert OPERATORS[4] == Else;
      case With => assert OPERATORS[5] == With;
      case Without => assert OPERATORS[6] == Without;
    }
  }

  lemma Slices(s: string, p: nat, q: nat)
    requires p <= q <= |s|
    ensures s[p..][..q - p] == s[p..q] && s[p..][q - p..] == s[q..]
  {
  }

  /** What follows an identifier's name: a relation and a version, or neither. */
  ghost predicate WordTail(t: string, name: string, r: ItemResult) {
    var t1 := SkipWhite(t);
    var k := RelLen(t1);
    if k == 0 then r == Item(Leaf(name, NO_RELATION, None), t1)
    else
      var t2 := SkipWhite(t1[k..]);
      var m := TokenLen(t2, 0);
      r == if m == 0 then NoItem else Item(Leaf(name, RelOf(t1[..k]), Some(t2[..m])), t2[m..])
  }

  method ParseVersion(s: string, p: nat, name: string) returns (node: NodeObj?, next: nat, ghost r: ItemResult)
    requires p <= |s|
    ensures WordTail(s[p..], name, r)
    ensures if r.NoItem? then node == null
            else node != null && node.Valid() && fresh(node.repr) && node.tree == r.node &&
                 p <= next <= |s| && s[next..] == r.rest
  {
    hide SkipWhite, TokenLen, RelLen, RelOf;
    var q := SkipBlank(s, p);
    var k, rel := ParseRelflags(s, q);
    Slices(s, q, k);
    var evr: Option<string> := None;
    next := k;
    r := Item(Leaf(name, rel, evr), s[k..]);
    if rel != NO_RELATION {
      var v := SkipBlank(s, k);
      next := SkipNonWhite(s, v);
      Slices(s, v, next);
      if next == v {
        r := NoItem;
        return null, next, r;
      }
      evr := Some(s[v..next]);
      r := Item(Leaf(name, rel, evr), s[next..]);
    }
    node := new NodeObj.Identifier(name, rel, evr);
  }

  /** An identifier with its version requirement. */
  method ParseIdentifier(s: string, p: nat) returns (node: NodeObj?, next: nat)
    requires p <= |s|
    ensures var r := ParseWord(s[p..]);
            if r.NoItem? then node == null
            else node != null && node.Valid() && fresh(node.repr) && node.tree == r.node &&
                 p < next <= |s| && s[next..] == r.rest
  {
    hide SkipWhite, TokenLen, RelLen, RelOf;
    var q := SkipNonWhite(s, p);
    Slices(s, p, q);
    if q == p { return null, p; }
    ghost var r;
    node, next, r := ParseVersion(s, q, s[p..q]);
    assert r == ParseWord(s[p..]);
  }

  ghost function TreeOf(parent: NodeObj?): Option<Node>
    reads parent
  {
    if parent == null then None else Some(parent.tree)
  }

  /** The first thing at a level: a parenthesised dependency or an identifier. */
  method ParseOperand(s: string, p: nat) returns (node: NodeObj?, next: nat)
    requires p < |s|
    ensures match ParseItem(s[p..])
            case NoItem => node == null
            case Item(tree, rest) => node != null && node.Valid() && fresh(node.repr) && node.tree == tree &&
                                     p < next <= |s| && s[next..] == rest
    decreases |s| - p, 1
  {
    ghost var t := s[p..];
    assert t[0] == s[p] && t[1..] == s[p + 1..];
    if s[p] == '(' {
      node, next := ParseDep(s, p, None, null);
    } else {
      node, next := ParseIdentifier(s, p);
    }
  }

  /** ParseBody, up to the operand. */
  lemma BodySteps(t: string, chain: Option<Kind>, parent: Option<Node>)
    requires parent.Some? ==> parent.value.Op?
    ensures
      var t1 := SkipWhite(t);
      ParseBody(t, chain, parent) ==
        if t1 == "" || t1[0] == ')' || ParseItem(t1).NoItem? then Fail
        else AfterItem(ParseItem(t1).rest, ParseItem(t1).node, chain, parent)
  {
    hide SkipWhite, WordLen, ParseItem, OpOf, Finish;
  }

  /**
   * parse_dep. Without a chain type the text is at an opening parenthesis; otherwise it follows an
   * operator, whose node is the parent.
   */
  method ParseDep(s: string, p: nat, chain: Option<Kind>, parent: NodeObj?) returns (node: NodeObj?, next: nat)
    requires p <= |s| && (chain.None? ==> p < |s| && s[p] == '(')
    requires parent != null ==> parent.Valid() && parent.op.Some?
    modifies parent
    ensures match ParseBody(if chain.None? then s[p + 1..] else s[p..], chain, old(TreeOf(parent)))
            case Fail => node == null
            case Own(tree, rest) =>
              && node != null && node.Valid() && fresh(node.repr) && node.tree == tree
              && p < next <= |s| && s[next..] == rest
              && (parent != null ==> parent.Valid() && unchanged(parent))
            case Parents(tree, rest) =>
              && node != null && node == parent && node.Valid() && node.tree == tree
              && fresh(node.repr - old(node.repr))
              && p < next <= |s| && s[next..] == rest
    decreases |s| - p, if chain.None? then 0 else 2
  {
    hide SkipWhite, WordLen, ParseItem, ParseBody, AfterItem, NodeObj.Valid;
    next := p;
    var q := if chain.None? then p + 1 else p;
    ghost var t, over := s[q..], old(TreeOf(parent));
    BodySteps(t, chain, over);
    q := SkipBlank(s, q);
    if q == |s| || s[q] == ')' { return null, p; }
    var item;
    item, q := ParseOperand(s, q);
    if item == null { return null, p; }
    node, next := ParseOperator(s, q, item, chain, parent);
    if node == null { next := p; }
  }

  /** What parse_dep gives for the text t after the first operand of a level. */
  ghost function AfterItem(t: string, node: Node, chain: Option<Kind>, parent: Option<Node>): Result
    requires parent.Some? ==> parent.value.Op?
  {
    var t3 := SkipWhite(t);
    if t3 == "" then Fail
    else if t3[0] == ')' then Own(node, t3[1..])
    else
      var n := WordLen(t3);
      var op := OpOf(t3[..n]);
      if op.None? then Fail else AfterOp(t3[n..], op.value, node, chain, parent)
  }

  /** parse_dep from the first operand on. */
  method ParseOperator(s: string, p: nat, item: NodeObj, chain: Option<Kind>, parent: NodeObj?)
    returns (node: NodeObj?, next: nat)
    requires p <= |s| && item.Valid() && item != parent
    requires parent != null ==> parent.Valid() && parent.op.Some? && parent !in item.repr
    modifies parent
    ensures match AfterItem(s[p..], old(item.tree), chain, old(TreeOf(parent)))
            case Fail => node == null
            case Own(tree, rest) =>
              && node != null && node.Valid() && fresh(node.repr - old(item.repr)) && node.tree == tree
              && p < next <= |s| && s[next..] == rest
              && (parent != null ==> parent.Valid() && unchanged(parent))
            case Parents(tree, rest) =>
              && node != null && node == parent && node.Valid() && node.tree == tree
              && fresh(node.repr - old(node.repr) - old(item.repr))
              && p < next <= |s| && s[next..] == rest
    decreases |s| - p, 4
  {
    hide SkipWhite, WordLen, AfterOp, NodeObj.Valid;
    next := p;
    var q := SkipBlank(s, p);
    if q == |s| { return null, p; }
    if s[q] == ')' { return item, q + 1; }
    var w := SkipWord(s, q);
    Slices(s, q, w);
    var op := FindOp(s[q..w]);
    if op.None? { return null, p; }
    node, next := ParseRest(s, w, op.value, item, chain, parent);
  }

  /** What parse_dep gives for the text t after the operator op and the operand before it. */
  ghost function AfterOp(t: string, op: Kind, node: Node, chain: Option<Kind>, parent: Option<Node>): Result
    requires parent.Some? ==> parent.value.Op?
  {
    var opnode := BooldepSpec.SetArg(if UsesParent(op, parent) then parent.value else Op(op, []), node);
    if opnode.None? || !MayChain(chain, parent, opnode.value, op) then Fail
    else Finish(ParseBody(t, Some(op), Some(opnode.value)), opnode.value, UsesParent(op, parent))
  }

  /** parse_dep from the operator on. */
  method ParseRest(s: string, p: nat, op: Kind, item: NodeObj, chain: Option<Kind>, parent: NodeObj?)
    returns (node: NodeObj?, next: nat)
    requires p <= |s| && item.Valid() && item != parent
    requires parent != null ==> parent.Valid() && parent.op.Some? && parent !in item.repr
    modifies parent
    ensures match AfterOp(s[p..], op, old(item.tree), chain, old(TreeOf(parent)))
            case Fail => node == null
            case Own(tree, rest) =>
              && node != null && node.Valid() && fresh(node.repr - old(item.repr)) && node.tree == tree
              && p < next <= |s| && s[next..] == rest
              && (parent != null ==> parent.Valid() && unchanged(parent))
            case Parents(tree, rest) =>
              && node != null && node == parent && node.Valid() && node.tree == tree
              && fresh(node.repr - old(node.repr) - old(item.repr))
              && p < next <= |s| && s[next..] == rest
    decreases |s| - p, 3
  {
    hide ParseBody, NodeObj.Valid;
    next := p;
    var opnode: NodeObj;
    if op == Else && parent != null && (parent.op.value == If || parent.op.value == Unless) {
      opnode := parent;
    } else {
      opnode := new NodeObj.Operator(op);
    }
    var nth := opnode.SetArg(item);
    if nth == -1 { return null, p; }
    if parent != null && opnode.op != parent.op { return null, p; }
    if chain.Some? && op != chain.value && !((chain.value == If || chain.value == Unless) && op == Else) {
      return null, p;
    }
    var more, end := ParseDep(s, p, Some(op), opnode);
    if more == null { return null, p; }
    if more != opnode {
      nth := opnode.SetArg(more);
      if nth == -1 { return null, p; }
    }
    return opnode, end;
  }

  /** booldep_parse. */
  method BooldepParse(expr: string) returns (node: NodeObj?)
    ensures if Parse(expr).NoItem? then node == null
            else node != null && node.Valid() && fresh(node.repr) && node.tree == Parse(expr).node
  {
    hide ParseBody, NodeObj.Valid;
    if expr == "" || expr[0] != '(' { return null; }
    var next;
    node, next := ParseDep(expr, 0, None, null);
  }
}
