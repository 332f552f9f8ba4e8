/** The language of boolean dependencies, independent of the parser, and what the parser makes of it. */
module BooldepGrammar {
  import opened Wrappers
  import opened Relations
  import opened BooldepSpec

  // ----- concrete syntax, with its white space

  datatype Version = Version(before: string, ops: string, after: string, evr: string)

  datatype Term =
    | Word(name: string, version: Option<Version>)
    | Paren(body: Body)

  /** A level: terms joined by operators, up to the closing parenthesis. */
  datatype Body =
    | Last(lead: string, term: Term, gap: string)
    | Chain(lead: string, term: Term, gap: string, op: Kind, more: Body)

  function RenderTerm(x: Term): (r: string) {
    match x
    case Word(name, None) => name
    case Word(name, Some(v)) => name + (v.before + (v.ops + (v.after + v.evr)))
    case Paren(body) => "(" + RenderBody(body)
  }

  function RenderBody(b: Body): string {
    match b
    case Last(lead, term, gap) => lead + (RenderTerm(term) + (gap + ")"))
    case Chain(lead, term, gap, op, more) => lead + (RenderTerm(term) + (gap + (Name(op) + RenderBody(more))))
  }

  predicate White(w: string) {
    forall i :: 0 <= i < |w| ==> IsSpace(w[i])
  }

  predicate AllRel(w: string) {
    forall i :: 0 <= i < |w| ==> IsRelChar(w[i])
  }

  /** How many more parentheses are opened than closed. */
  function Surplus(n: string): int {
    if n == "" then 0
    else (if n[0] == '(' then 1 else if n[0] == ')' then -1 else 0) + Surplus(n[1..])
  }

  /** No blank, no comma, and no closing parenthesis that was not opened before. */
  predicate Unbroken(n: string, bl: int) {
    && (forall i :: 0 <= i < |n| ==> n[i] != ' ' && n[i] != ',')
    && (forall k :: 0 <= k <= |n| ==> bl + Surplus(n[..k]) >= 0)
  }

  /** A token that ends before the character that follows it. */
  predicate Token(n: string, follow: char) {
    n != "" && Unbroken(n, 0) && (follow == ' ' || follow == ',' || (follow == ')' && Surplus(n) == 0))
  }

  function First(s: string, otherwise: char): char {
    if s == "" then otherwise else s[0]
  }

  predicate ValidVersion(v: Version, follow: char) {
    && White(v.before) && v.ops != "" && AllRel(v.ops) && White(v.after) && Token(v.evr, follow)
    && !IsSpace(v.evr[0]) && (v.after == "" ==> !IsRelChar(v.evr[0]))
  }

  predicate ValidTerm(x: Term, follow: char) {
    match x
    case Word(name, None) => Token(name, follow) && name[0] != '(' && !IsSpace(name[0])
    case Word(name, Some(v)) =>
      && ValidVersion(v, follow) && Token(name, First(v.before, v.ops[0])) && name[0] != '(' && !IsSpace(name[0])
    case Paren(body) => ValidBody(body, None)
  }

  /** What may follow at a level whose operator so far is chain: the same operator, or a closing else. */
  predicate Allowed(chain: Option<Kind>, op: Kind) {
    match chain
    case None => op != Else
    case Some(c) => (op == c && c != Else) || (op == Else && (c == If || c == Unless))
  }

  predicate ValidBody(b: Body, chain: Option<Kind>) {
    && White(b.lead) && White(b.gap)
    && match b
       case Last(_, term, gap) => ValidTerm(term, First(gap, ')'))
       case Chain(_, term, gap, op, more) =>
         && ValidTerm(term, First(gap, Name(op)[0])) && Allowed(chain, op)
         && more.lead != "" && ValidBody(more, Some(op))
  }

  // ----- the tree of a text

  function TreeOfTerm(x: Term): Node {
    match x
    case Word(name, None) => Leaf(name, NO_RELATION, None)
    case Word(name, Some(v)) => Leaf(name, RelOf(v.ops), Some(v.evr))
    case Paren(body) => TreeOf(body)
  }

  /** Operators associate to the right; an else gives its level's last if or unless a third argument. */
  function TreeOf(b: Body): Node {
    match b
    case Last(_, term, _) => TreeOfTerm(term)
    case Chain(_, term, _, op, more) =>
      if more.Chain? && more.op == Else then
        Op(op, [TreeOfTerm(term), TreeOfTerm(more.term), TreeOf(more.more)])
      else Op(op, [TreeOfTerm(term), TreeOf(more)])
  }

  /** Two arguments, or also three for if and unless, and no else. */
  predicate WellFormed(n: Node) {
    n.Op? ==>
      && n.op != Else && (forall a :: a in n.args ==> WellFormed(a))
      && (|n.args| == 2 || (|n.args| == 3 && (n.op == If || n.op == Unless)))
  }

  // ----- scanning what was rendered

  lemma {:induction false} SkipLead(w: string, x: string)
    requires White(w) && (x == "" || !IsSpace(x[0]))
    ensures SkipWhite(w + x) == x
    decreases |w|
  {
    if w == "" {
      assert w + x == x;
    } else {
      assert (w + x)[1..] == w[1..] + x;
      SkipLead(w[1..], x);
    }
  }

  /** The scanner's count of open parentheses over a token, unless some character ends it early. */
  function Depth(n: string, bl: int): Option<int> {
    if n == "" then Some(bl)
    else if n[0] == ' ' || n[0] == ',' || (n[0] == ')' && bl <= 0) then None
    else Depth(n[1..], if n[0] == '(' then bl + 1 else if n[0] == ')' then bl - 1 else bl)
  }

  predicate Ends(c: char, bl: int) {
    c == ' ' || c == ',' || (c == ')' && bl <= 0)
  }

  /** The scanner gets through a text exactly when it is unbroken. */
  lemma {:induction false} DepthIsSurplus(n: string, bl: int)
    requires bl >= 0
    ensures Depth(n, bl) == if Unbroken(n, bl) then Some(bl + Surplus(n)) else None
    decreases |n|
  {
    if n != "" {
      var one := if n[0] == '(' then 1 else if n[0] == ')' then -1 else 0;
      assert n[..1][0] == n[0] && n[..1][1..] == "" && Surplus(n[..1]) == one;
      if bl + one >= 0 {
        DepthIsSurplus(n[1..], bl + one);
        UnbrokenStep(n, bl);
      }
    }
  }

  lemma UnbrokenStep(n: string, bl: int)
    requires n != "" && bl >= 0
    ensures var one := if n[0] == '(' then 1 else if n[0] == ')' then -1 else 0;
            Unbroken(n, bl) <==> n[0] != ' ' && n[0] != ',' && Unbroken(n[1..], bl + one)
  {
    var rest, one := n[1..], if n[0] == '(' then 1 else if n[0] == ')' then -1 else 0;
    forall k | 0 <= k <= |rest| ensures bl + Surplus(n[..k + 1]) == bl + one + Surplus(rest[..k]) {
      assert n[..k + 1][0] == n[0] && n[..k + 1][1..] == rest[..k];
    }
    assert n[..0] == "";
    if Unbroken(rest, bl + one) && n[0] != ' ' && n[0] != ',' {
      forall k | 0 <= k <= |n| ensures bl + Surplus(n[..k]) >= 0 {
        assert k > 0 ==> bl + one + Surplus(rest[..k - 1]) >= 0;
      }
      forall i | 0 <= i < |n| ensures n[i] != ' ' && n[i] != ',' {
        assert i > 0 ==> n[i] == rest[i - 1];
      }
    }
  }

  lemma TokenIsDepth(n: string, follow: char)
    ensures Token(n, follow) <==> n != "" && Depth(n, 0).Some? && Ends(follow, Depth(n, 0).value)
  {
    DepthIsSurplus(n, 0);
    assert n[..|n|] == n;
  }

  lemma {:induction false} TokenScans(n: string, bl: int, x: string)
    requires Depth(n, bl).Some? && x != "" && Ends(x[0], Depth(n, bl).value)
    ensures TokenLen(n + x, bl) == |n|
    decreases |n|
  {
    if n == "" {
      assert n + x == x;
    } else {
      assert (n + x)[1..] == n[1..] + x;
      TokenScans(n[1..], if n[0] == '(' then bl + 1 else if n[0] == ')' then bl - 1 else bl, x);
    }
  }

  lemma {:induction false} RelScans(w: string, x: string)
    requires AllRel(w) && (x == "" || !IsRelChar(x[0]))
    ensures RelLen(w + x) == |w|
    decreases |w|
  {
    if w == "" {
      assert w + x == x;
    } else {
      assert (w + x)[1..] == w[1..] + x;
      RelScans(w[1..], x);
    }
  }

  lemma {:induction false} WordScans(w: string, x: string)
    requires (forall i :: 0 <= i < |w| ==> !IsSpace(w[i])) && x != "" && IsSpace(x[0])
    ensures WordLen(w + x) == |w|
    decreases |w|
  {
    if w == "" {
      assert w + x == x;
    } else {
      assert (w + x)[1..] == w[1..] + x;
      WordScans(w[1..], x);
    }
  }

  lemma NameScans(op: Kind, x: string)
    requires x != "" && IsSpace(x[0])
    ensures WordLen(Name(op) + x) == |Name(op)| && OpOf(Name(op)) == Some(op)
    ensures (Name(op) + x)[..|Name(op)|] == Name(op) && (Name(op) + x)[|Name(op)|..] == x
    ensures !IsSpace(Name(op)[0]) && !IsRelChar(Name(op)[0]) && Name(op)[0] != ')'
  {
    WordScans(Name(op), x);
    NamesDiffer();
  }

  lemma NamesDiffer()
    ensures forall op :: OpOf(Name(op)) == Some(op)
  {
    assert "and"[0] == 'a' && "or"[0] == 'o' && "if"[0] == 'i' && "unless"[0] == 'u' && "else"[0] == 'e';
    assert |"with"| == 4 && |"without"| == 7 && "with"[0] == 'w';
    forall op ensures OpOf(Name(op)) == Some(op) {
    }
  }

  /** After a word comes white space and then something that is not a relation. */
  ghost predicate Follows(gap: string, after: string) {
    White(gap) && after != "" && !IsSpace(after[0]) && !IsRelChar(after[0])
  }

  lemma WordParses(x: Term, gap: string, after: string)
    requires x.Word? && Follows(gap, after) && ValidTerm(x, First(gap, after[0]))
    ensures var r := ParseItem(RenderTerm(x) + (gap + after));
            r.Item? && r.node == TreeOfTerm(x) && SkipWhite(r.rest) == after
  {
    var n := x.name;
    SkipLead(gap, after);
    if x.version.None? {
      TokenIsDepth(n, First(gap, after[0]));
      var t := n + (gap + after);
      TokenScans(n, 0, gap + after);
      assert t[..|n|] == n && t[|n|..] == gap + after;
      assert RelLen(after) == 0;
      assert SkipWhite(after) == after;
    } else {
      VersionParses(n, x.version.value, gap, after);
    }
  }

  lemma VersionParses(n: string, v: Version, gap: string, after: string)
    requires Follows(gap, after) && ValidVersion(v, First(gap, after[0]))
    requires Token(n, First(v.before, v.ops[0])) && n[0] != '(' && !IsSpace(n[0])
    ensures var r := ParseWord(RenderTerm(Word(n, Some(v))) + (gap + after));
            r == Item(Leaf(n, RelOf(v.ops), Some(v.evr)), gap + after)
  {
    var tail := v.evr + (gap + after);
    var t1 := v.ops + (v.after + tail);
    var t := n + (v.before + t1);
    TokenIsDepth(n, First(v.before, v.ops[0]));
    TokenIsDepth(v.evr, First(gap, after[0]));
    hide Token;
    assert RenderTerm(Word(n, Some(v))) + (gap + after) == t;
    TokenScans(n, 0, v.before + t1);
    assert t[..|n|] == n && t[|n|..] == v.before + t1;
    SkipLead(v.before, t1);
    RelScans(v.ops, v.after + tail);
    assert t1[..|v.ops|] == v.ops && t1[|v.ops|..] == v.after + tail;
    SkipLead(v.after, tail);
    TokenScans(v.evr, 0, gap + after);
    assert tail[..|v.evr|] == v.evr && tail[|v.evr|..] == gap + after;
  }

  // ----- every text of the language is parsed to its tree

  /** The operator and node with which parse_dep calls itself at a level. */
  ghost predicate Fits(chain: Option<Kind>, parent: Option<Node>) {
    match chain
    case None => parent.None?
    case Some(c) =>
      && parent.Some? && parent.value.Op?
      && if c == Else then (parent.value.op == If || parent.value.op == Unless) && |parent.value.args| == 2
         else parent.value.op == c && |parent.value.args| == 1
  }

  /** What a level gives: its own tree, or its caller's node completed by an else. */
  function Outcome(b: Body, parent: Option<Node>, tail: string): Result
    requires b.Chain? && b.op == Else ==> parent.Some? && parent.value.Op?
  {
    if b.Chain? && b.op == Else then
      Parents(Op(parent.value.op, parent.value.args + [TreeOfTerm(b.term), TreeOf(b.more)]), tail)
    else Own(TreeOf(b), tail)
  }

  lemma TermFirst(x: Term, follow: char)
    requires ValidTerm(x, follow)
    ensures RenderTerm(x) != "" && !IsSpace(RenderTerm(x)[0]) && RenderTerm(x)[0] != ')'
    ensures RenderTerm(x)[0] == '(' <==> x.Paren?
  {
    if x.Word? { DepthIsSurplus(x.name, 0); }
  }

  lemma {:induction false} TermParses(x: Term, gap: string, after: string)
    requires Follows(gap, after) && ValidTerm(x, First(gap, after[0]))
    ensures var r := ParseItem(RenderTerm(x) + (gap + after));
            r.Item? && r.node == TreeOfTerm(x) && SkipWhite(r.rest) == after
    decreases x
  {
    if x.Word? {
      WordParses(x, gap, after);
    } else {
      hide ParseItem, ParseBody, SkipWhite, RenderBody, ValidBody, TreeOf, Follows, White;
      var rest := gap + after;
      PlainOutcome(x.body, rest);
      BodyParses(x.body, rest, None, None);
      ParenParses(RenderBody(x.body), rest, TreeOf(x.body));
      GapSkipped(gap, after);
    }
  }

  lemma GapSkipped(gap: string, after: string)
    requires Follows(gap, after)
    ensures SkipWhite(gap + after) == after
  {
    SkipLead(gap, after);
  }

  /** A level that is not its caller's else makes its own tree. */
  lemma PlainOutcome(b: Body, tail: string)
    requires ValidBody(b, None)
    ensures Outcome(b, None, tail) == Own(TreeOf(b), tail)
  {
    hide TreeOf;
  }

  /** What is in parentheses is parsed by itself. */
  lemma ParenParses(text: string, rest: string, node: Node)
    requires ParseBody(text + rest, None, None) == Own(node, rest)
    ensures ParseItem("(" + text + rest) == Item(node, rest)
  {
    hide ParseBody;
    var t := "(" + text + rest;
    assert t[0] == '(' && t[1..] == text + rest;
  }

  /** The term of a level has been read; what comes next is a closing parenthesis. */
  lemma ReadsLast(lead: string, rt: string, gap: string, after: string, node: Node,
                  chain: Option<Kind>, parent: Option<Node>)
    requires White(lead) && rt != "" && !IsSpace(rt[0]) && rt[0] != ')' && after != "" && after[0] == ')'
    requires var r := ParseItem(rt + (gap + after)); r.Item? && r.node == node && SkipWhite(r.rest) == after
    ensures ParseBody(lead + (rt + (gap + after)), chain, parent) == Own(node, after[1..])
  {
    SkipLead(lead, rt + (gap + after));
    hide SkipWhite, ParseItem, WordLen, OpOf;
  }

  /** The node an operator works on, once it has its next argument. */
  function OpNode(op: Kind, parent: Option<Node>, node: Node): Option<Node> {
    SetArg(if UsesParent(op, parent) then parent.value else Op(op, []), node)
  }

  /** The term of a level has been read; what comes next is an operator. */
  lemma ReadsOp(lead: string, rt: string, gap: string, op: Kind, left: string, node: Node,
                chain: Option<Kind>, parent: Option<Node>)
    requires White(lead) && rt != "" && !IsSpace(rt[0]) && rt[0] != ')' && left != "" && IsSpace(left[0])
    requires var r := ParseItem(rt + (gap + (Name(op) + left)));
             r.Item? && r.node == node && SkipWhite(r.rest) == Name(op) + left
    requires OpNode(op, parent, node).Some? && MayChain(chain, parent, OpNode(op, parent, node).value, op)
    ensures var opnode := OpNode(op, parent, node).value;
            ParseBody(lead + (rt + (gap + (Name(op) + left))), chain, parent) ==
            Finish(ParseBody(left, Some(op), Some(opnode)), opnode, UsesParent(op, parent))
  {
    NameScans(op, left);
    var after := Name(op) + left;
    assert after != "" && after[0] != ')';
    hide SkipWhite, ParseItem, ParseBody, WordLen, OpOf, Name, OpNode, MayChain, White;
    var t1 := rt + (gap + after);
    SkipLead(lead, t1);
    OpStep(lead + t1, t1, after, op, node, chain, parent);
  }

  /** ParseBody up to an operator and into what follows it. */
  lemma OpStep(t: string, t1: string, t3: string, op: Kind, node: Node, chain: Option<Kind>, parent: Option<Node>)
    requires t1 == SkipWhite(t) && t1 != "" && t1[0] != ')'
    requires var r := ParseItem(t1); r.Item? && r.node == node && SkipWhite(r.rest) == t3
    requires t3 != "" && t3[0] != ')' && OpOf(t3[..WordLen(t3)]) == Some(op)
    requires OpNode(op, parent, node).Some? && MayChain(chain, parent, OpNode(op, parent, node).value, op)
    ensures var opnode := OpNode(op, parent, node).value;
            ParseBody(t, chain, parent) ==
            Finish(ParseBody(t3[WordLen(t3)..], Some(op), Some(opnode)), opnode, UsesParent(op, parent))
  {
    hide SkipWhite, ParseItem, WordLen, OpOf, MayChain;
  }

  lemma {:induction false} BodyParses(b: Body, tail: string, chain: Option<Kind>, parent: Option<Node>)
    requires ValidBody(b, chain) && Fits(chain, parent)
    ensures ParseBody(RenderBody(b) + tail, chain, parent) == Outcome(b, parent, tail)
    decreases b
  {
    hide ParseBody, ParseItem, RenderTerm, ValidTerm, TreeOfTerm, RenderBody, SkipWhite, MayChain;
    var rt := RenderTerm(b.term);
    match b
    case Last(lead, term, gap) =>
      var after := ")" + tail;
      LastText(b, tail);
      TermFirst(term, First(gap, ')'));
      TermParses(term, gap, after);
      ReadsLast(lead, rt, gap, after, TreeOfTerm(term), chain, parent);
      assert after[1..] == tail;
    case Chain(lead, term, gap, op, more) =>
      var left := RenderBody(more) + tail;
      var after := Name(op) + left;
      ChainText(b, tail);
      LeadFirst(more, tail);
      NameScans(op, left);
      TermFirst(term, First(gap, Name(op)[0]));
      TermParses(term, gap, after);
      var opnode := OpNode(op, parent, TreeOfTerm(term)).value;
      ChainFinishes(b, tail, chain, parent, opnode);
      ReadsOp(lead, rt, gap, op, left, TreeOfTerm(term), chain, parent);
      BodyParses(more, tail, Some(op), Some(opnode));
  }

  lemma LastText(b: Body, tail: string)
    requires b.Last?
    ensures RenderBody(b) + tail == b.lead + (RenderTerm(b.term) + (b.gap + (")" + tail)))
  {
    hide RenderTerm;
    Shift(b.gap, ")", tail);
    Shift(RenderTerm(b.term), b.gap + ")", tail);
    Shift(b.lead, RenderTerm(b.term) + (b.gap + ")"), tail);
  }

  lemma ChainText(b: Body, tail: string)
    requires b.Chain?
    ensures RenderBody(b) + tail == b.lead + (RenderTerm(b.term) + (b.gap + (Name(b.op) + (RenderBody(b.more) + tail))))
  {
    hide RenderTerm;
    ChainRenders(b.lead + (RenderTerm(b.term) + (b.gap + (Name(b.op) + (RenderBody(b.more) + tail)))), b,
                 Name(b.op) + (RenderBody(b.more) + tail), tail);
  }

  lemma LeadFirst(b: Body, tail: string)
    requires b.lead != "" && White(b.lead)
    ensures RenderBody(b) + tail != "" && IsSpace((RenderBody(b) + tail)[0])
  {
    hide RenderTerm;
    assert RenderBody(b)[0] == b.lead[0];
  }

  /** Putting the node of the rest of the level in place. */
  lemma ChainFinishes(b: Body, tail: string, chain: Option<Kind>, parent: Option<Node>, opnode: Node)
    requires b.Chain? && ValidBody(b, chain) && Fits(chain, parent)
    requires opnode == if b.op == Else then Op(parent.value.op, parent.value.args + [TreeOfTerm(b.term)])
                       else Op(b.op, [TreeOfTerm(b.term)])
    ensures UsesParent(b.op, parent) <==> b.op == Else
    ensures Fits(Some(b.op), Some(opnode)) && MayChain(chain, parent, opnode, b.op)
    ensures Finish(Outcome(b.more, Some(opnode), tail), opnode, b.op == Else) == Outcome(b, parent, tail)
  {
    var x, more := TreeOfTerm(b.term), b.more;
    if b.op == Else {
      assert more.Last?;
      assert opnode.args + [TreeOf(more)] == parent.value.args + [x, TreeOf(more)];
    } else if more.Chain? && more.op == Else {
      assert [x] + [TreeOfTerm(more.term), TreeOf(more.more)] == [x, TreeOfTerm(more.term), TreeOf(more.more)];
    } else {
      assert [x] + [TreeOf(more)] == [x, TreeOf(more)];
    }
  }

  // ----- every text that is parsed belongs to the language

  lemma {:induction false} LeadOf(t: string) returns (w: string)
    ensures White(w) && t == w + SkipWhite(t)
    decreases |t|
  {
    if t != "" && IsSpace(t[0]) {
      var v := LeadOf(t[1..]);
      w := [t[0]] + v;
    } else {
      w := "";
    }
  }

  lemma {:induction false} TokenOf(t: string, bl: int)
    ensures var n := TokenLen(t, bl);
            Depth(t[..n], bl).Some? && (n < |t| ==> Ends(t[n], Depth(t[..n], bl).value))
    decreases |t|
  {
    var n := TokenLen(t, bl);
    if n > 0 {
      var next := if t[0] == '(' then bl + 1 else if t[0] == ')' then bl - 1 else bl;
      TokenOf(t[1..], next);
      assert t[..n][1..] == t[1..][..n - 1] && t[..n][0] == t[0];
    } else {
      assert t[..0] == "";
    }
  }

  lemma {:induction false} RelsOf(t: string)
    ensures AllRel(t[..RelLen(t)])
    decreases |t|
  {
    if t != "" && IsRelChar(t[0]) {
      RelsOf(t[1..]);
      assert t[..RelLen(t)] == [t[0]] + t[1..][..RelLen(t[1..])];
    }
  }

  lemma {:induction false} WordEnds(t: string)
    ensures WordLen(t) < |t| ==> IsSpace(t[WordLen(t)])
    decreases |t|
  {
    if t != "" && !IsSpace(t[0]) {
      WordEnds(t[1..]);
    }
  }

  lemma NameIsThere(t: string)
    ensures ParseWord(t).Item? ==> TokenLen(t, 0) > 0
  {
    hide TokenLen, SkipWhite, RelLen;
  }

  lemma BareBelongs(t: string, n: nat, before: string, t1: string) returns (x: Term, gap: string)
    requires t != "" && !IsSpace(t[0]) && t[0] != '(' && n == TokenLen(t, 0) && n > 0
    requires Depth(t[..n], 0).Some? && (n < |t| ==> Ends(t[n], Depth(t[..n], 0).value))
    requires t1 == SkipWhite(t[n..]) && White(before) && t == t[..n] + (before + t1) && RelLen(t1) == 0
    requires ParseWord(t).Item? && SkipWhite(ParseWord(t).rest) != ""
    ensures var after := SkipWhite(ParseWord(t).rest);
            && White(gap) && t == RenderTerm(x) + (gap + after)
            && ValidTerm(x, First(gap, after[0])) && TreeOfTerm(x) == ParseWord(t).node
  {
    x, gap := Word(t[..n], None), before;
    TokenIsDepth(t[..n], First(before, t1[0]));
    assert ParseWord(t) == Item(Leaf(t[..n], NO_RELATION, None), t1);
    SkipLead("", t1);
    hide ParseWord, SkipWhite, TokenLen, Depth, RelLen, RelOf;
    assert "" + t1 == t1;
    assert t[n] == First(before, t1[0]);
  }

  lemma WordBelongs(t: string) returns (x: Term, gap: string)
    requires t != "" && !IsSpace(t[0]) && t[0] != '('
    requires ParseWord(t).Item? && SkipWhite(ParseWord(t).rest) != ""
    ensures var after := SkipWhite(ParseWord(t).rest);
            && White(gap) && t == RenderTerm(x) + (gap + after)
            && ValidTerm(x, First(gap, after[0])) && TreeOfTerm(x) == ParseWord(t).node
  {
    hide *;
    NameIsThere(t);
    var n := TokenLen(t, 0);
    TokenOf(t, 0);
    var before := LeadOf(t[n..]);
    var t1 := SkipWhite(t[n..]);
    assert t == t[..n] + (before + t1);
    if RelLen(t1) == 0 {
      x, gap := BareBelongs(t, n, before, t1);
    } else {
      x, gap := VersionBelongs(t, n, before, t1);
    }
  }

  /** The pieces of a version requirement. */
  lemma VersionReads(t1: string) returns (v: Version, gap: string, after: string)
    requires RelLen(t1) > 0
    requires var t2 := SkipWhite(t1[RelLen(t1)..]);
             TokenLen(t2, 0) > 0 && SkipWhite(t2[TokenLen(t2, 0)..]) != ""
    ensures White(gap) && after != "" && ValidVersion(v, First(gap, after[0]))
    ensures t1 == v.ops + (v.after + (v.evr + (gap + after))) && v.before == ""
    ensures var t2 := SkipWhite(t1[RelLen(t1)..]);
            && v.ops == t1[..RelLen(t1)] && v.evr == t2[..TokenLen(t2, 0)]
            && after == SkipWhite(t2[TokenLen(t2, 0)..])
  {
    var k := RelLen(t1);
    RelsOf(t1);
    var mid := LeadOf(t1[k..]);
    var t2 := SkipWhite(t1[k..]);
    var m := TokenLen(t2, 0);
    TokenOf(t2, 0);
    gap := LeadOf(t2[m..]);
    after := SkipWhite(t2[m..]);
    v := Version("", t1[..k], mid, t2[..m]);
    TokenIsDepth(v.evr, First(gap, after[0]));
    hide SkipWhite, TokenLen, Depth, RelLen, Token;
    Cut(t2, m, gap, after);
    Cut(t1, k, mid, t2);
  }

  /** A text cut in three, and what its second cut begins with. */
  lemma Cut(t: string, n: nat, gap: string, after: string)
    requires n <= |t| && t[n..] == gap + after
    ensures t == t[..n] + (gap + after)
    ensures after != "" ==> n < |t| && t[n] == First(gap, after[0])
  {
    assert t == t[..n] + t[n..];
    assert n < |t| ==> t[n] == t[n..][0];
  }

  lemma VersionBelongs(t: string, n: nat, before: string, t1: string) returns (x: Term, gap: string)
    requires t != "" && !IsSpace(t[0]) && t[0] != '(' && n == TokenLen(t, 0) && n > 0
    requires Depth(t[..n], 0).Some? && (n < |t| ==> Ends(t[n], Depth(t[..n], 0).value))
    requires t1 == SkipWhite(t[n..]) && White(before) && t == t[..n] + (before + t1) && RelLen(t1) > 0
    requires ParseWord(t).Item? && SkipWhite(ParseWord(t).rest) != ""
    ensures var after := SkipWhite(ParseWord(t).rest);
            && White(gap) && t == RenderTerm(x) + (gap + after)
            && ValidTerm(x, First(gap, after[0])) && TreeOfTerm(x) == ParseWord(t).node
  {
    hide *;
    VersionNode(t, n, t1);
    var v, g, after := VersionReads(t1);
    x, gap := Word(t[..n], Some(v.(before := before))), g;
    TokenIsDepth(t[..n], First(before, v.ops[0]));
    VersionFits(t, n, before, v, gap, after);
  }

  /** What parse_dep makes of a name with a version requirement. */
  lemma VersionNode(t: string, n: nat, t1: string)
    requires n == TokenLen(t, 0) && n > 0 && t1 == SkipWhite(t[n..]) && RelLen(t1) > 0 && ParseWord(t).Item?
    ensures var t2 := SkipWhite(t1[RelLen(t1)..]);
            && TokenLen(t2, 0) > 0
            && ParseWord(t) == Item(Leaf(t[..n], RelOf(t1[..RelLen(t1)]), Some(t2[..TokenLen(t2, 0)])), t2[TokenLen(t2, 0)..])
  {
    hide SkipWhite, TokenLen, RelLen, RelOf;
  }

  /** The pieces put together. */
  lemma VersionFits(t: string, n: nat, before: string, v: Version, gap: string, after: string)
    requires n <= |t| && t[..n] != "" && !IsSpace(t[0]) && t[0] != '(' && after != "" && White(before) && v.before == ""
    requires ValidVersion(v, First(gap, after[0]))
    requires t == t[..n] + (before + (v.ops + (v.after + (v.evr + (gap + after)))))
    requires n < |t| && Depth(t[..n], 0).Some? && Ends(t[n], Depth(t[..n], 0).value)
    requires v.ops != "" && (Token(t[..n], First(before, v.ops[0])) <==>
             t[..n] != "" && Depth(t[..n], 0).Some? && Ends(First(before, v.ops[0]), Depth(t[..n], 0).value))
    ensures var x := Word(t[..n], Some(v.(before := before)));
            && t == RenderTerm(x) + (gap + after) && ValidTerm(x, First(gap, after[0]))
            && TreeOfTerm(x) == Leaf(t[..n], RelOf(v.ops), Some(v.evr))
  {
    hide Token, Depth, Ends, IsSpace;
    var x := Word(t[..n], Some(v.(before := before)));
    assert t[n] == First(before, v.ops[0]);
    Shift(v.evr, gap, after);
    Shift(v.after, v.evr, gap + after);
    assert RenderTerm(x) + (gap + after) == t;
  }

  /** Only a caller with room for two more arguments is completed by an else. */
  lemma ParentsHasRoom(t: string, chain: Option<Kind>, parent: Option<Node>)
    requires ParseBody(t, chain, parent).Parents?
    ensures parent.Some? && parent.value.Op? && |parent.value.args| < Ary(parent.value.op)
  {
    hide ParseItem, SkipWhite, WordLen, OpOf;
  }

  /** An operator that is accepted after chain is allowed there. */
  lemma AcceptedIsAllowed(chain: Option<Kind>, parent: Option<Node>, op: Kind, node: Node, left: string)
    requires Fits(chain, parent) && OpNode(op, parent, node).Some?
    requires var opnode := OpNode(op, parent, node).value;
             MayChain(chain, parent, opnode, op) &&
             !Finish(ParseBody(left, Some(op), Some(opnode)), opnode, UsesParent(op, parent)).Fail?
    ensures Allowed(chain, op) && Fits(Some(op), OpNode(op, parent, node))
    ensures UsesParent(op, parent) <==> op == Else
  {
    var opnode := OpNode(op, parent, node).value;
    if chain == Some(Else) && op == Else && ParseBody(left, Some(op), Some(opnode)).Parents? {
      ParentsHasRoom(left, Some(op), Some(opnode));
    }
    hide ParseBody;
  }

  lemma {:induction false} TermBelongs(t: string) returns (x: Term, gap: string)
    requires t != "" && !IsSpace(t[0])
    requires ParseItem(t).Item? && SkipWhite(ParseItem(t).rest) != ""
    ensures var after := SkipWhite(ParseItem(t).rest);
            && White(gap) && t == RenderTerm(x) + (gap + after)
            && ValidTerm(x, First(gap, after[0])) && TreeOfTerm(x) == ParseItem(t).node
    decreases |t|, 0
  {
    hide ParseBody, SkipWhite, ParseWord;
    if t[0] == '(' {
      var body := BodyBelongs(t[1..], None, None);
      x := Paren(body);
      gap := LeadOf(ParseItem(t).rest);
      assert t == "(" + t[1..];
      assert t == RenderTerm(x) + ParseItem(t).rest;
    } else {
      x, gap := WordBelongs(t);
    }
  }

  /** One step of the parser that does not fail: a term, then a closing parenthesis or an operator. */
  lemma BodyReads(t: string, chain: Option<Kind>, parent: Option<Node>)
      returns (t1: string, node: Node, t3: string, op: Option<Kind>, left: string)
    requires !ParseBody(t, chain, parent).Fail?
    ensures t1 == SkipWhite(t) && t1 != "" && !IsSpace(t1[0])
    ensures ParseItem(t1).Item? && node == ParseItem(t1).node && t3 == SkipWhite(ParseItem(t1).rest) && t3 != ""
    ensures op.None? ==> t3[0] == ')' && ParseBody(t, chain, parent) == Own(node, t3[1..])
    ensures op.Some? ==>
              && t3 == Name(op.value) + left && (left != "" ==> IsSpace(left[0])) && |left| < |t|
              && OpNode(op.value, parent, node).Some?
              && var opnode := OpNode(op.value, parent, node).value;
                 && MayChain(chain, parent, opnode, op.value)
                 && ParseBody(t, chain, parent) ==
                    Finish(ParseBody(left, Some(op.value), Some(opnode)), opnode, UsesParent(op.value, parent))
  {
    hide ParseItem, SkipWhite, OpOf, WordLen, MayChain, Finish, Name;
    t1 := SkipWhite(t);
    node, t3 := ParseItem(t1).node, SkipWhite(ParseItem(t1).rest);
    op, left := None, "";
    if t3[0] != ')' {
      var n := WordLen(t3);
      op, left := OpOf(t3[..n]), t3[n..];
      WordEnds(t3);
      assert t3 == t3[..n] + left;
    }
  }

  lemma {:induction false} BodyBelongs(t: string, chain: Option<Kind>, parent: Option<Node>) returns (b: Body)
    requires Fits(chain, parent) && !ParseBody(t, chain, parent).Fail?
    ensures var r := ParseBody(t, chain, parent);
            ValidBody(b, chain) && t == RenderBody(b) + r.rest && r == Outcome(b, parent, r.rest)
    decreases |t|, 1
  {
    hide ParseBody, ParseItem, SkipWhite, MayChain, Name, Outcome, Finish, ValidTerm, ValidBody,
         RenderTerm, RenderBody, White, Allowed;
    var lead := LeadOf(t);
    var t1, node, t3, op, left := BodyReads(t, chain, parent);
    var term, gap := TermBelongs(t1);
    if op.None? {
      b := Last(lead, term, gap);
      LastBelongs(t, b, t3, chain, parent);
    } else {
      var opnode := OpNode(op.value, parent, node).value;
      AcceptedIsAllowed(chain, parent, op.value, node, left);
      var more := BodyBelongs(left, Some(op.value), Some(opnode));
      b := Chain(lead, term, gap, op.value, more);
      OpBelongs(t, b, chain, parent, opnode, t3, left, ParseBody(t, chain, parent).rest);
    }
  }

  lemma LastBelongs(t: string, b: Body, t3: string, chain: Option<Kind>, parent: Option<Node>)
    requires b.Last? && t3 != "" && t3[0] == ')' && t == b.lead + (RenderTerm(b.term) + (b.gap + t3))
    requires White(b.lead) && White(b.gap) && ValidTerm(b.term, First(b.gap, ')'))
    ensures ValidBody(b, chain) && t == RenderBody(b) + t3[1..]
    ensures Outcome(b, parent, t3[1..]) == Own(TreeOfTerm(b.term), t3[1..])
  {
    hide RenderTerm, ValidTerm, White;
    assert t3 == ")" + t3[1..];
  }

  lemma Shift(a: string, b: string, c: string)
    ensures a + (b + c) == a + b + c
  {
  }

  lemma ChainRenders(t: string, b: Body, t3: string, rest: string)
    requires b.Chain? && t == b.lead + (RenderTerm(b.term) + (b.gap + t3))
    requires t3 == Name(b.op) + (RenderBody(b.more) + rest)
    ensures t == RenderBody(b) + rest
  {
    var name, more, rt := Name(b.op), RenderBody(b.more), RenderTerm(b.term);
    assert RenderBody(b) == b.lead + (rt + (b.gap + (name + more)));
    hide *;
    Shift(name, more, rest);
    Shift(b.gap, name + more, rest);
    Shift(rt, b.gap + (name + more), rest);
    Shift(b.lead, rt + (b.gap + (name + more)), rest);
  }

  lemma OpBelongs(t: string, b: Body, chain: Option<Kind>, parent: Option<Node>, opnode: Node, t3: string,
                  left: string, rest: string)
    requires b.Chain? && Fits(chain, parent) && White(b.lead) && White(b.gap) && Allowed(chain, b.op)
    requires t == b.lead + (RenderTerm(b.term) + (b.gap + t3)) && t3 != ""
    requires ValidTerm(b.term, First(b.gap, t3[0])) && ValidBody(b.more, Some(b.op))
    requires t3 == Name(b.op) + left && left == RenderBody(b.more) + rest && (left != "" ==> IsSpace(left[0]))
    requires opnode == if b.op == Else then Op(parent.value.op, parent.value.args + [TreeOfTerm(b.term)])
                       else Op(b.op, [TreeOfTerm(b.term)])
    ensures ValidBody(b, chain) && t == RenderBody(b) + rest
    ensures Finish(Outcome(b.more, Some(opnode), rest), opnode, b.op == Else) == Outcome(b, parent, rest)
  {
    LeadNeeded(b.more, rest, Some(b.op), left);
    NamesNonEmpty(b.op);
    hide Name, Outcome, Finish, ValidTerm, RenderTerm, RenderBody;
    assert t3[0] == Name(b.op)[0];
    ChainRenders(t, b, t3, rest);
    assert ValidBody(b, chain);
    hide ValidBody, White, Allowed;
    ChainFinishes(b, rest, chain, parent, opnode);
  }

  lemma NamesNonEmpty(op: Kind)
    ensures Name(op) != ""
  {
  }

  lemma LeadNeeded(b: Body, rest: string, chain: Option<Kind>, t: string)
    requires ValidBody(b, chain) && t == RenderBody(b) + rest && (t != "" ==> IsSpace(t[0]))
    ensures b.lead != ""
  {
    TermFirst(b.term, if b.Last? then First(b.gap, ')') else First(b.gap, Name(b.op)[0]));
    assert (b.lead + RenderTerm(b.term))[0] == RenderBody(b)[0] == t[0];
  }

  // ----- the main results

  /** The text is this level in parentheses, and something after it. */
  ghost predicate Reads(expr: string, body: Body, node: Node, rest: string) {
    ValidBody(body, None) && expr == "(" + (RenderBody(body) + rest) && node == TreeOf(body)
  }

  /** Without a node of a caller there is none to give back. */
  lemma NoParent(t: string)
    ensures !ParseBody(t, None, None).Parents?
  {
    hide SkipWhite, ParseItem, WordLen, OpOf, SetArg;
  }

  lemma ParseIsBody(expr: string, node: Node, rest: string)
    ensures Parse(expr) == Item(node, rest) <==>
            expr != "" && expr[0] == '(' && ParseBody(expr[1..], None, None) == Own(node, rest)
  {
    hide SkipWhite;
    if expr != "" && expr[0] == '(' { NoParent(expr[1..]); }
  }

  /** The parser accepts exactly the language, and gives each text its tree. */
  lemma ParserIsExact(expr: string, node: Node, rest: string)
    ensures Parse(expr) == Item(node, rest) <==> exists body :: Reads(expr, body, node, rest)
  {
    ParseIsBody(expr, node, rest);
    hide ValidBody, RenderBody, TreeOf, Parse;
    if Parse(expr) == Item(node, rest) {
      var body := BodyBelongs(expr[1..], None, None);
      assert expr == "(" + expr[1..];
      assert Reads(expr, body, node, rest);
    }
    if body :| Reads(expr, body, node, rest) {
      assert expr[1..] == RenderBody(body) + rest;
      BodyParses(body, rest, None, None);
    }
  }

  /** A text is accepted exactly when it begins with a parenthesised text of the language. */
  lemma AcceptedExactly(expr: string)
    ensures Parse(expr).Item? <==> exists body, rest :: Reads(expr, body, TreeOf(body), rest)
  {
    if Parse(expr).Item? {
      var node, rest := Parse(expr).node, Parse(expr).rest;
      ParserIsExact(expr, node, rest);
      var body :| Reads(expr, body, node, rest);
      assert Reads(expr, body, TreeOf(body), rest);
    }
    hide Parse, ValidBody, RenderBody, TreeOf;
    if body, rest :| Reads(expr, body, TreeOf(body), rest) {
      ParserIsExact(expr, TreeOf(body), rest);
    }
  }

  /** The words of the language. */
  lemma Words()
    ensures Name(And) == "and" && Name(Or) == "or" && Name(If) == "if" && Name(Unless) == "unless"
    ensures Name(Else) == "else" && Name(With) == "with" && Name(Without) == "without"
  {
  }

  /** isspace. */
  lemma Spaces(c: char)
    ensures IsSpace(c) <==> c in {' ', '\t', '\n', '\U{000b}', '\U{000c}', '\r'}
  {
  }

  /** The operators of one level, in order. */
  function LevelOps(b: Body): seq<Kind> {
    if b.Last? then [] else [b.op] + LevelOps(b.more)
  }

  /** One operator throughout, but that the last one may be the else of an if or unless. */
  predicate OneOperator(ops: seq<Kind>, op: Kind) {
    forall i :: 0 <= i < |ops| ==> ops[i] == op || (i == |ops| - 1 && ops[i] == Else && (op == If || op == Unless))
  }

  predicate Unmixed(b: Body)
    decreases b, 1
  {
    (b.Chain? ==> OneOperator(LevelOps(b), b.op)) && TermsUnmixed(b)
  }

  /** So it is in the parentheses within the level. */
  predicate TermsUnmixed(b: Body)
    decreases b, 0
  {
    (b.term.Paren? ==> Unmixed(b.term.body)) && (b.Chain? ==> TermsUnmixed(b.more))
  }

  lemma {:induction false} LevelHasOneOperator(b: Body, c: Kind)
    requires ValidBody(b, Some(c))
    ensures if c == Else then LevelOps(b) == [] else OneOperator(LevelOps(b), c)
    decreases b
  {
    if b.Chain? {
      LevelHasOneOperator(b.more, b.op);
    }
  }

  lemma {:induction false} ValidIsUnmixed(b: Body, chain: Option<Kind>)
    requires ValidBody(b, chain)
    ensures TermsUnmixed(b) && (chain.None? ==> Unmixed(b))
    decreases b
  {
    if b.term.Paren? { ValidIsUnmixed(b.term.body, None); }
    if b.Chain? {
      ValidIsUnmixed(b.more, Some(b.op));
      LevelHasOneOperator(b.more, b.op);
    }
  }

  /**
    No parsed tree has an else in it or a wrong number of arguments, and no level of the text it comes from
    mixes operators.
   */
  lemma ParsedIsWellFormed(expr: string)
    requires Parse(expr).Item?
    ensures WellFormed(Parse(expr).node)
    ensures exists body :: Reads(expr, body, Parse(expr).node, Parse(expr).rest) && Unmixed(body)
  {
    var r := Parse(expr);
    ParserIsExact(expr, r.node, r.rest);
    var body :| Reads(expr, body, r.node, r.rest);
    TreesAreWellFormed(body, None);
    ValidIsUnmixed(body, None);
  }

  lemma {:induction false} TermsAreWellFormed(x: Term, follow: char)
    requires ValidTerm(x, follow)
    ensures WellFormed(TreeOfTerm(x))
    decreases x
  {
    if x.Paren? {
      TreesAreWellFormed(x.body, None);
    }
  }

  lemma {:induction false} TreesAreWellFormed(b: Body, chain: Option<Kind>)
    requires ValidBody(b, chain) && !(b.Chain? && b.op == Else)
    ensures WellFormed(TreeOf(b))
    decreases b
  {
    TermsAreWellFormed(b.term, if b.Last? then First(b.gap, ')') else First(b.gap, Name(b.op)[0]));
    if b.Chain? {
      var more := b.more;
      if more.Chain? && more.op == Else {
        TermsAreWellFormed(more.term, First(more.gap, Name(more.op)[0]));
        assert ValidBody(more, Some(b.op));
        assert ValidBody(more.more, Some(Else));
        assert more.more.Last?;
        TreesAreWellFormed(more.more, Some(Else));
      } else {
        TreesAreWellFormed(more, Some(b.op));
      }
    }
  }

  // ----- fully parenthesised text

  function OpsText(rel: Rel): string {
    (if rel.lt then "<" else "") + (if rel.gt then ">" else "") + (if rel.eq then "=" else "")
  }

  /** A token that may be followed by a blank as well as by a closing parenthesis. */
  predicate CleanToken(n: string) {
    n != "" && Unbroken(n, 0) && Surplus(n) == 0 && !IsSpace(n[0])
  }

  /** Identifiers as they can be written down: a version exactly when there is a relation. */
  predicate Printable(n: Node) {
    match n
    case Leaf(name, rel, evr) =>
      && CleanToken(name) && name[0] != '('
      && (evr.Some? <==> rel != NO_RELATION) && (evr.Some? ==> CleanToken(evr.value))
    case Op(_, args) => forall a :: a in args ==> Printable(a)
  }

  function TermOf(n: Node): Term
    requires WellFormed(n)
    decreases n, 1
  {
    match n
    case Leaf(name, rel, evr) =>
      Word(name, if evr.None? then None else Some(Version(" ", OpsText(rel), " ", evr.value)))
    case Op(_, _) => Paren(BodyOf(n))
  }

  /** The tree written with parentheses around every operator and single blanks in between. */
  function BodyOf(n: Node): Body
    requires n.Op? && WellFormed(n)
    decreases n, 0
  {
    var last :=
      if |n.args| == 2 then Last(" ", TermOf(n.args[1]), "")
      else Chain(" ", TermOf(n.args[1]), " ", Else, Last(" ", TermOf(n.args[2]), ""));
    Chain("", TermOf(n.args[0]), " ", n.op, last)
  }

  function Print(n: Node): string
    requires WellFormed(n)
  {
    RenderTerm(TermOf(n))
  }

  lemma {:induction false} PrintedTerm(n: Node, follow: char)
    requires WellFormed(n) && Printable(n) && (follow == ' ' || follow == ')')
    ensures ValidTerm(TermOf(n), follow) && TreeOfTerm(TermOf(n)) == n
    decreases n
  {
    if n.Op? {
      ArgsPrintable(n);
      hide TermOf, ValidTerm, TreeOfTerm, Printable;
      PrintedTerm(n.args[0], ' ');
      if |n.args| == 2 {
        PrintedTerm(n.args[1], ')');
      } else {
        PrintedTerm(n.args[1], ' ');
        PrintedTerm(n.args[2], ')');
      }
      PrintedOp(n);
      PrintedParen(n, follow);
    } else {
      PrintedLeaf(n, follow);
    }
  }

  lemma PrintedParen(n: Node, follow: char)
    requires n.Op? && WellFormed(n) && ValidBody(BodyOf(n), None) && TreeOf(BodyOf(n)) == n
    ensures ValidTerm(TermOf(n), follow) && TreeOfTerm(TermOf(n)) == n
  {
    hide BodyOf, ValidBody, TreeOf;
  }

  lemma ArgsPrintable(n: Node)
    requires WellFormed(n) && Printable(n) && n.Op?
    ensures forall i :: 0 <= i < |n.args| ==> WellFormed(n.args[i]) && Printable(n.args[i])
  {
    assert forall i :: 0 <= i < |n.args| ==> n.args[i] in n.args;
  }

  lemma PrintedLeaf(n: Node, follow: char)
    requires n.Leaf? && Printable(n) && (follow == ' ' || follow == ')')
    ensures ValidTerm(TermOf(n), follow) && TreeOfTerm(TermOf(n)) == n
  {
    if n.evr.Some? {
      assert RelOf(OpsText(n.rel)) == n.rel;
      assert forall i :: 0 <= i < |OpsText(n.rel)| ==> IsRelChar(OpsText(n.rel)[i]);
      hide Unbroken, Surplus, OpsText, RelOf;
    }
  }

  lemma PrintedOp(n: Node)
    requires n.Op? && WellFormed(n)
    requires forall i :: 0 <= i < |n.args| ==> TreeOfTerm(TermOf(n.args[i])) == n.args[i]
    requires ValidTerm(TermOf(n.args[0]), ' ')
    requires |n.args| == 2 ==> ValidTerm(TermOf(n.args[1]), ')')
    requires |n.args| == 3 ==> ValidTerm(TermOf(n.args[1]), ' ') && ValidTerm(TermOf(n.args[2]), ')')
    ensures ValidBody(BodyOf(n), None) && TreeOf(BodyOf(n)) == n
  {
    hide TermOf, TreeOfTerm, ValidTerm;
    if |n.args| == 2 {
      assert n.args == [n.args[0], n.args[1]];
    } else {
      assert n.args == [n.args[0], n.args[1], n.args[2]];
      var last := Last(" ", TermOf(n.args[2]), "");
      assert ValidBody(last, Some(Else));
      assert ValidBody(Chain(" ", TermOf(n.args[1]), " ", Else, last), Some(n.op));
    }
  }

  /** Printing a tree and parsing the text gives the tree back, and stops after the closing parenthesis. */
  lemma PrintedParses(n: Node, rest: string)
    requires n.Op? && WellFormed(n) && Printable(n)
    ensures Parse(Print(n) + rest) == Item(n, rest)
  {
    PrintedTerm(n, ' ');
    var body := BodyOf(n);
    assert Print(n) + rest == "(" + (RenderBody(body) + rest);
    assert Reads(Print(n) + rest, body, n, rest);
    ParserIsExact(Print(n) + rest, n, rest);
  }
}
