/** Boolean dependencies: the parser as a function on the text that is left (booldep_parse.c). */
module BooldepSpec {
  import opened Wrappers
  import opened Relations

  datatype Kind = And | Or | If | Unless | Else | With | Without

  /** A struct node: an identifier with its optional version requirement, or an operator with its arguments. */
  datatype Node =
    | Leaf(name: string, rel: Rel, evr: Option<string>)
    | Op(op: Kind, args: seq<Node>)

  function Name(op: Kind): string {
    match op
    case And => "and"
    case Or => "or"
    case If => "if"
    case Unless => "unless"
    case Else => "else"
    case With => "with"
    case Without => "without"
  }

  function Ary(op: Kind): nat {
    match op
    case If => 3
    case Unless => 3
    case Else => 0
    case _ => 2
  }

  /** The operator table, in its order. */
  const OPERATORS := [And, Or, If, Unless, Else, With, Without]

  function OpOf(word: string): (r: Option<Kind>)
    ensures r.Some? ==> Name(r.value) == word
  {
    if word == "and" then Some(And)
    else if word == "or" then Some(Or)
    else if word == "if" then Some(If)
    else if word == "unless" then Some(Unless)
    else if word == "else" then Some(Else)
    else if word == "with" then Some(With)
    else if word == "without" then Some(Without)
    else None
  }

  // ----- scanning

  predicate IsSpace(c: char) {
    c == ' ' || '\t' <= c <= '\r'
  }

  function SkipWhite(t: string): (r: string)
    ensures |r| <= |t|
    ensures r == "" || !IsSpace(r[0])
  {
    if t != "" && IsSpace(t[0]) then SkipWhite(t[1..]) else t
  }

  /** skipnonwhite with bl parentheses open: only a blank, a comma or a surplus parenthesis ends a token. */
  function TokenLen(t: string, bl: int): (n: nat)
    ensures n <= |t|
  {
    if t == "" || t[0] == ' ' || t[0] == ',' || (t[0] == ')' && bl <= 0) then 0
    else 1 + TokenLen(t[1..], if t[0] == '(' then bl + 1 else if t[0] == ')' then bl - 1 else bl)
  }

  predicate IsRelChar(c: char) {
    c == '<' || c == '=' || c == '>'
  }

  function RelLen(t: string): (n: nat)
    ensures n <= |t|
    ensures n < |t| ==> !IsRelChar(t[n])
  {
    if t != "" && IsRelChar(t[0]) then 1 + RelLen(t[1..]) else 0
  }

  function RelOf(ops: string): Rel {
    Rel('<' in ops, '=' in ops, '>' in ops)
  }

  /** The operator word: up to the next white space of any kind. */
  function WordLen(t: string): (n: nat)
    ensures n <= |t|
    ensures t != "" && !IsSpace(t[0]) ==> n > 0
  {
    if t == "" || IsSpace(t[0]) then 0 else 1 + WordLen(t[1..])
  }

  // ----- parsing

  /** parse_dep returns null, a node of its own, or the node of its caller with more arguments. */
  datatype Result =
    | Fail
    | Own(node: Node, rest: string)
    | Parents(node: Node, rest: string)

  datatype ItemResult = NoItem | Item(node: Node, rest: string)

  /** node_set_arg. */
  function SetArg(n: Node, arg: Node): Option<Node>
    requires n.Op?
  {
    if |n.args| >= Ary(n.op) then None else Some(Op(n.op, n.args + [arg]))
  }

  /** An identifier, with a relation and a version if there is one. */
  function ParseWord(t: string): (r: ItemResult)
    ensures r.Item? ==> |r.rest| < |t|
  {
    var n := TokenLen(t, 0);
    if n == 0 then NoItem
    else
      var t1 := SkipWhite(t[n..]);
      var k := RelLen(t1);
      if k == 0 then Item(Leaf(t[..n], NO_RELATION, None), t1)
      else
        var t2 := SkipWhite(t1[k..]);
        var m := TokenLen(t2, 0);
        if m == 0 then NoItem
        else Item(Leaf(t[..n], RelOf(t1[..k]), Some(t2[..m])), t2[m..])
  }

  function ParseItem(t: string): (r: ItemResult)
    requires t != ""
    ensures r.Item? ==> |r.rest| < |t|
    decreases |t|, 0
  {
    if t[0] == '(' then
      match ParseBody(t[1..], None, None)
      case Fail => NoItem
      case Own(node, rest) => Item(node, rest)
      case Parents(node, rest) => Item(node, rest)
    else ParseWord(t)
  }

  /** The operator node to use: for an else after if or unless, the caller's. */
  predicate UsesParent(op: Kind, parent: Option<Node>) {
    op == Else && parent.Some? && parent.value.Op? && (parent.value.op == If || parent.value.op == Unless)
  }

  /** The tests between reading an operator and parsing what follows it: no mixing at one level. */
  predicate MayChain(chain: Option<Kind>, parent: Option<Node>, opnode: Node, op: Kind)
    requires opnode.Op?
  {
    var reset := chain.Some? && (chain.value == If || chain.value == Unless) && op == Else;
    && (parent.None? || !parent.value.Op? || opnode.op == parent.value.op)
    && (reset || chain.None? || op == chain.value)
  }

  /** parse_dep after an opening parenthesis, or after an operator of the same level. */
  function ParseBody(t: string, chain: Option<Kind>, parent: Option<Node>): (r: Result)
    ensures !r.Fail? ==> |r.rest| < |t|
    decreases |t|, 1
  {
    var t1 := SkipWhite(t);
    if t1 == "" || t1[0] == ')' then Fail
    else
      match ParseItem(t1)
      case NoItem => Fail
      case Item(node, t2) =>
        var t3 := SkipWhite(t2);
        if t3 == "" then Fail
        else if t3[0] == ')' then Own(node, t3[1..])
        else
          var n := WordLen(t3);
          match OpOf(t3[..n])
          case None => Fail
          case Some(op) =>
            var opnode := SetArg(if UsesParent(op, parent) then parent.value else Op(op, []), node);
            if opnode.None? || !MayChain(chain, parent, opnode.value, op) then Fail
            else Finish(ParseBody(t3[n..], Some(op), Some(opnode.value)), opnode.value, UsesParent(op, parent))
  }

  /** What is left to do with the result for the rest of the level. */
  function Finish(r: Result, opnode: Node, usesParent: bool): (f: Result)
    requires opnode.Op?
    ensures !f.Fail? ==> !r.Fail? && f.rest == r.rest
  {
    match r
    case Fail => Fail
    case Parents(node, rest) => if usesParent then Parents(node, rest) else Own(node, rest)
    case Own(node, rest) =>
      match SetArg(opnode, node)
      case None => Fail
      case Some(full) => if usesParent then Parents(full, rest) else Own(full, rest)
  }

  /** booldep_parse: the text must begin with a parenthesis; what follows the closing one is not looked at. */
  function Parse(expr: string): ItemResult {
    if expr == "" || expr[0] != '(' then NoItem else ParseItem(expr)
  }
}
