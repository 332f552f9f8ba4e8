/** Evaluating a boolean dependency by the cost of its requirements (booldep_eval.c). */
module BooldepEvalSpec {
  import opened Wrappers
  import opened BooldepSpec
  import opened BooldepLeaves

  /** A struct dvalue without its link: no requirement in the one made for a missing branch. */
  datatype Dv = Dv(req: Option<Node>, cost: int)

  /** The trees whose evaluation never meets null: not as a value, and not as the capreq of an identifier. */
  predicate Evaluable(t: Node) {
    if t.Leaf? then HasCap(t)
    else
      && t.op != Kind.Else && t.op != With && t.op != Without
      && (|t.args| == 2 || (|t.args| == 3 && (t.op == If || t.op == Unless)))
      && forall i :: 0 <= i < |t.args| ==> Evaluable(t.args[i])
  }

  const EMPTY := Dv(None, 0)

  function Charge(cost: int): nat {
    if cost < 0 then 99 else cost
  }

  function Total(ds: seq<Dv>): nat {
    if ds == [] then 0 else Charge(ds[0].cost) + Total(ds[1..])
  }

  /** dvalue_cost: a list that starts without a requirement costs 99 whatever else is on it. */
  function DvalueCost(ds: seq<Dv>): nat
    requires ds != []
  {
    if ds[0].req.None? then 99 else Total(ds)
  }

  function Else(t: Node, cost: Node -> int): (ds: seq<Dv>)
    requires Evaluable(t) && t.Op? && (t.op == If || t.op == Unless)
    ensures ds != []
    decreases t, 0
  {
    if |t.args| == 3 then Eval(t.args[2], cost) else [EMPTY]
  }

  function Eval(t: Node, cost: Node -> int): (ds: seq<Dv>)
    requires Evaluable(t)
    ensures ds != []
    decreases t, 1
  {
    match t
    case Leaf(_, _, _) => [Dv(Some(t), cost(t))]
    case Op(op, args) =>
      var first, second := Eval(args[0], cost), Eval(args[1], cost);
      match op
      case And => first + second
      case Or => if DvalueCost(second) < DvalueCost(first) then second else first
      case If => if DvalueCost(second) == 0 then first else Else(t, cost)
      case Unless => if DvalueCost(second) != 0 then first else Else(t, cost)
  }

  /** booldep_eval: what the dependency resolves to. */
  function Reqs(ds: seq<Dv>): seq<Node> {
    if ds == [] then []
    else (if ds[0].req.Some? then [ds[0].req.value] else []) + Reqs(ds[1..])
  }

  // ----- what the dependency means

  /** Truth when exactly the requirements of no cost are met. */
  predicate Truth(t: Node, cost: Node -> int)
    requires Evaluable(t)
  {
    match t
    case Leaf(_, _, _) => cost(t) == 0
    case Op(op, args) =>
      var first, second := Truth(args[0], cost), Truth(args[1], cost);
      match op
      case And => first && second
      case Or => first || second
      case If => if second then first else |args| == 3 ==> Truth(args[2], cost)
      case Unless => if !second then first else |args| == 3 ==> Truth(args[2], cost)
  }

  /** What is left of a dependency once its conditions are decided. */
  datatype Plan = Nothing | Need(req: Node) | Both(left: Plan, right: Plan) | Either(left: Plan, right: Plan)

  function Decide(t: Node, cost: Node -> int): Plan
    requires Evaluable(t)
  {
    match t
    case Leaf(_, _, _) => Need(t)
    case Op(op, args) =>
      if op == And then Both(Decide(args[0], cost), Decide(args[1], cost))
      else if op == Or then Either(Decide(args[0], cost), Decide(args[1], cost))
      else if (op == If) == Truth(args[1], cost) then Decide(args[0], cost)
      else if |args| == 3 then Decide(args[2], cost)
      else Nothing
  }

  /** A selection says of every place where the plan names a requirement whether it is taken. */
  function Places(p: Plan): nat {
    match p
    case Nothing => 0
    case Need(_) => 1
    case Both(l, r) => Places(l) + Places(r)
    case Either(l, r) => Places(l) + Places(r)
  }

  predicate Satisfies(p: Plan, m: seq<bool>)
    requires |m| == Places(p)
  {
    match p
    case Nothing => true
    case Need(_) => m[0]
    case Both(l, r) => Satisfies(l, m[..Places(l)]) && Satisfies(r, m[Places(l)..])
    case Either(l, r) => Satisfies(l, m[..Places(l)]) || Satisfies(r, m[Places(l)..])
  }

  function Bill(p: Plan, m: seq<bool>, cost: Node -> int): nat
    requires |m| == Places(p)
  {
    match p
    case Nothing => 0
    case Need(req) => if m[0] then Charge(cost(req)) else 0
    case Both(l, r) => Bill(l, m[..Places(l)], cost) + Bill(r, m[Places(l)..], cost)
    case Either(l, r) => Bill(l, m[..Places(l)], cost) + Bill(r, m[Places(l)..], cost)
  }

  function Taken(p: Plan, m: seq<bool>): seq<Node>
    requires |m| == Places(p)
  {
    match p
    case Nothing => []
    case Need(req) => if m[0] then [req] else []
    case Both(l, r) => Taken(l, m[..Places(l)]) + Taken(r, m[Places(l)..])
    case Either(l, r) => Taken(l, m[..Places(l)]) + Taken(r, m[Places(l)..])
  }

  /** The least that any selection satisfying the plan costs (LeastIsLeast). */
  function Least(p: Plan, cost: Node -> int): nat {
    match p
    case Nothing => 0
    case Need(req) => Charge(cost(req))
    case Both(l, r) => Least(l, cost) + Least(r, cost)
    case Either(l, r) => if Least(r, cost) < Least(l, cost) then Least(r, cost) else Least(l, cost)
  }

  function LeastOf(t: Node, cost: Node -> int): nat
    requires Evaluable(t)
  {
    Least(Decide(t, cost), cost)
  }

  // ----- when the evaluator is misled

  /** The branch that an if or unless calls for, if it is there. */
  function Called(t: Node, cost: Node -> int): (b: Option<Node>)
    requires Evaluable(t) && t.Op? && (t.op == If || t.op == Unless)
    ensures b.Some? ==> Evaluable(b.value) && b.value < t
  {
    if (t.op == If) == Truth(t.args[1], cost) then Some(t.args[0])
    else if |t.args| == 3 then Some(t.args[2])
    else None
  }

  /** What a dependency is charged with: 99 if the missing branch of some if or unless comes first in it. */
  function Charged(least: nat, empty: bool): nat {
    if empty then 99 else least
  }

  /** The first branch taken is a missing one. */
  predicate StartsEmpty(t: Node, cost: Node -> int)
    requires Evaluable(t)
    decreases t
  {
    if t.Leaf? then false
    else if t.op == And then StartsEmpty(t.args[0], cost)
    else if t.op == Or then
      var l, r := StartsEmpty(t.args[0], cost), StartsEmpty(t.args[1], cost);
      if Charged(LeastOf(t.args[1], cost), r) < Charged(LeastOf(t.args[0], cost), l) then r else l
    else
      var b := Called(t, cost);
      b.None? || StartsEmpty(b.value, cost)
  }

  /** An or whose operands cost x and y at the least, and start empty or not, takes the dearer one. */
  predicate Misjudged(x: nat, leftEmpty: bool, y: nat, rightEmpty: bool) {
    if leftEmpty && rightEmpty then y < x
    else if leftEmpty then x < y < 99 || 99 <= y < x
    else if rightEmpty then y < x <= 99 || 99 < x < y
    else false
  }

  /** On the way that evaluation should take, no or takes the dearer operand and no condition is taken for false wrongly. */
  predicate Judged(t: Node, cost: Node -> int)
    requires Evaluable(t)
    decreases t
  {
    if t.Leaf? then true
    else if t.op == And then Judged(t.args[0], cost) && Judged(t.args[1], cost)
    else if t.op == Or then
      && Judged(t.args[0], cost) && Judged(t.args[1], cost)
      && !Misjudged(LeastOf(t.args[0], cost), StartsEmpty(t.args[0], cost),
                    LeastOf(t.args[1], cost), StartsEmpty(t.args[1], cost))
    else
      && Judged(t.args[1], cost) && !(StartsEmpty(t.args[1], cost) && Truth(t.args[1], cost))
      && (Called(t, cost).Some? ==> Judged(Called(t, cost).value, cost))
  }

  /** Whatever the costs, the list of t starts with a requirement, or may start with the value of a missing else. */
  predicate OpensEmpty(t: Node)
    requires Evaluable(t)
  {
    t.Op? &&
    if t.op == And then OpensEmpty(t.args[0])
    else if t.op == Or then OpensEmpty(t.args[0]) || OpensEmpty(t.args[1])
    else |t.args| == 2 || OpensEmpty(t.args[0]) || OpensEmpty(t.args[2])
  }

  /** No cost is ever asked of a list that may start empty: a sign in the text alone that nothing is misjudged. */
  predicate Guarded(t: Node)
    requires Evaluable(t)
  {
    t.Op? ==>
      && (forall i :: 0 <= i < |t.args| ==> Guarded(t.args[i]))
      && (t.op == Or ==> !OpensEmpty(t.args[0]))
      && (t.op != And ==> !OpensEmpty(t.args[1]))
  }
}

module BooldepEvalTheorems {
  import opened Wrappers
  import opened Relations
  import opened BooldepSpec
  import opened BooldepGrammar
  import opened BooldepLeaves
  import opened BooldepEvalSpec

  lemma {:induction false} TotalSplits(a: seq<Dv>, b: seq<Dv>)
    ensures Total(a + b) == Total(a) + Total(b)
    ensures Reqs(a + b) == Reqs(a) + Reqs(b)
  {
    hide Charge;
    if a == [] {
      assert a + b == b;
    } else {
      assert (a + b)[0] == a[0] && (a + b)[1..] == a[1..] + b;
      TotalSplits(a[1..], b);
      var head := if a[0].req.Some? then [a[0].req.value] else [];
      assert head + (Reqs(a[1..]) + Reqs(b)) == head + Reqs(a[1..]) + Reqs(b);
    }
  }

  /** A dependency costs nothing at the least exactly when it already holds. */
  lemma {:induction false} HoldsIffFree(t: Node, cost: Node -> int)
    requires Evaluable(t)
    ensures LeastOf(t, cost) == 0 <==> Truth(t, cost)
    decreases t
  {
    if t.Op? {
      HoldsIffFree(t.args[0], cost);
      HoldsIffFree(t.args[1], cost);
      if |t.args| == 3 { HoldsIffFree(t.args[2], cost); }
    }
  }

  /** Where nothing is misjudged the list costs the least in total, and starts empty when the input says so. */
  lemma {:induction false} EvalCostsLeast(t: Node, cost: Node -> int)
    requires Evaluable(t) && Judged(t, cost)
    ensures Total(Eval(t, cost)) == LeastOf(t, cost)
    ensures Eval(t, cost)[0].req.None? <==> StartsEmpty(t, cost)
    decreases t
  {
    if t.Leaf? {
      assert Eval(t, cost)[1..] == [];
    } else if t.op == And || t.op == Or {
      EvalCostsLeast(t.args[0], cost);
      EvalCostsLeast(t.args[1], cost);
      if t.op == And { AndCosts(t, cost); } else { OrCosts(t, cost); }
    } else {
      EvalCostsLeast(t.args[1], cost);
      HoldsIffFree(t.args[1], cost);
      var b := Called(t, cost);
      if b.Some? {
        EvalCostsLeast(b.value, cost);
      } else {
        NothingIsCheapest(cost);
      }
    }
  }

  /** The costs of the operands, and which of them start empty, are known. */
  ghost predicate Known(t: Node, cost: Node -> int)
    requires Evaluable(t)
  {
    Total(Eval(t, cost)) == LeastOf(t, cost) && (Eval(t, cost)[0].req.None? <==> StartsEmpty(t, cost))
  }

  lemma AndCosts(t: Node, cost: Node -> int)
    requires Evaluable(t) && t.Op? && t.op == And && Known(t.args[0], cost) && Known(t.args[1], cost)
    ensures Known(t, cost)
  {
    hide Truth, Total, Misjudged;
    TotalSplits(Eval(t.args[0], cost), Eval(t.args[1], cost));
  }

  lemma OrCosts(t: Node, cost: Node -> int)
    requires Evaluable(t) && Judged(t, cost) && t.Op? && t.op == Or && Known(t.args[0], cost) && Known(t.args[1], cost)
    ensures Known(t, cost)
  {
    hide Truth, Total;
  }

  /** A condition is taken for what it is if and only if it does not hold with a missing branch in front. */
  lemma ConditionIsRightExactly(c: Node, cost: Node -> int)
    requires Evaluable(c) && Judged(c, cost)
    ensures (DvalueCost(Eval(c, cost)) == 0 <==> Truth(c, cost)) <==> !(StartsEmpty(c, cost) && Truth(c, cost))
  {
    EvalCostsLeast(c, cost);
    HoldsIffFree(c, cost);
  }

  /** An or costs the least it can if and only if it is not misled by a missing branch in front of an operand. */
  lemma OrIsRightExactly(l: Node, r: Node, cost: Node -> int)
    requires Evaluable(l) && Evaluable(r) && Judged(l, cost) && Judged(r, cost) && Evaluable(Op(Or, [l, r]))
    ensures Total(Eval(Op(Or, [l, r]), cost)) == LeastOf(Op(Or, [l, r]), cost) <==>
            !Misjudged(LeastOf(l, cost), StartsEmpty(l, cost), LeastOf(r, cost), StartsEmpty(r, cost))
  {
    EvalCostsLeast(l, cost);
    EvalCostsLeast(r, cost);
  }

  /** The evaluator is right about t and every operand, condition and branch on the way it should take. */
  ghost predicate Right(t: Node, cost: Node -> int)
    requires Evaluable(t)
    decreases t
  {
    && Total(Eval(t, cost)) == LeastOf(t, cost)
    && (t.Op? ==>
          if t.op == And || t.op == Or then Right(t.args[0], cost) && Right(t.args[1], cost)
          else
            && Right(t.args[1], cost) && (DvalueCost(Eval(t.args[1], cost)) == 0 <==> Truth(t.args[1], cost))
            && (Called(t, cost).Some? ==> Right(Called(t, cost).value, cost)))
  }

  /** It is, if and only if no missing branch comes first in the wrong place. */
  lemma {:induction false} RightExactly(t: Node, cost: Node -> int)
    requires Evaluable(t)
    ensures Right(t, cost) <==> Judged(t, cost)
    decreases t
  {
    hide Eval, Total, DvalueCost, Truth, StartsEmpty, Misjudged, LeastOf;
    if Judged(t, cost) { EvalCostsLeast(t, cost); }
    if t.Op? {
      RightExactly(t.args[1], cost);
      if t.op == And || t.op == Or {
        RightExactly(t.args[0], cost);
        if t.op == Or && Judged(t.args[0], cost) && Judged(t.args[1], cost) {
          assert t == Op(Or, [t.args[0], t.args[1]]);
          OrIsRightExactly(t.args[0], t.args[1], cost);
        }
      } else {
        if Judged(t.args[1], cost) { ConditionIsRightExactly(t.args[1], cost); }
        if Called(t, cost).Some? { RightExactly(Called(t, cost).value, cost); }
      }
    }
  }

  lemma {:induction false} OpensFull(t: Node, cost: Node -> int)
    requires Evaluable(t) && !OpensEmpty(t)
    ensures Eval(t, cost)[0].req.Some?
    decreases t
  {
    if t.Op? {
      OpensFull(t.args[0], cost);
      if t.op == Or { OpensFull(t.args[1], cost); }
      if |t.args| == 3 { OpensFull(t.args[2], cost); }
    }
  }

  lemma {:induction false} NotOpenedFull(t: Node, cost: Node -> int)
    requires Evaluable(t) && !OpensEmpty(t)
    ensures !StartsEmpty(t, cost)
    decreases t
  {
    if t.Op? {
      NotOpenedFull(t.args[0], cost);
      if t.op == Or { NotOpenedFull(t.args[1], cost); }
      if |t.args| == 3 { NotOpenedFull(t.args[2], cost); }
    }
  }

  /** A guarded dependency is never misjudged. */
  lemma {:induction false} GuardedIsJudged(t: Node, cost: Node -> int)
    requires Evaluable(t) && Guarded(t)
    ensures Judged(t, cost)
    decreases t
  {
    if t.Op? {
      assert Guarded(t.args[0]) && Guarded(t.args[1]);
      GuardedIsJudged(t.args[0], cost);
      GuardedIsJudged(t.args[1], cost);
      if |t.args| == 3 { GuardedIsJudged(t.args[2], cost); }
      if t.op == Or { NotOpenedFull(t.args[0], cost); }
      if t.op != And { NotOpenedFull(t.args[1], cost); }
    }
  }

  /** The cost that decides between branches is the total if and only if the input does not start empty, or costs 99. */
  lemma CostIsTotal(t: Node, cost: Node -> int)
    requires Evaluable(t)
    ensures !OpensEmpty(t) ==> DvalueCost(Eval(t, cost)) == Total(Eval(t, cost))
    ensures Judged(t, cost) ==>
              (DvalueCost(Eval(t, cost)) == Total(Eval(t, cost)) <==> !StartsEmpty(t, cost) || LeastOf(t, cost) == 99)
  {
    if Judged(t, cost) { EvalCostsLeast(t, cost); }
    if !OpensEmpty(t) { OpensFull(t, cost); }
  }

  /** What is returned costs nothing exactly when the dependency already holds. */
  lemma FreeIffHolds(t: Node, cost: Node -> int)
    requires Evaluable(t) && Judged(t, cost)
    ensures Total(Eval(t, cost)) == 0 <==> Truth(t, cost)
  {
    EvalCostsLeast(t, cost);
    HoldsIffFree(t, cost);
  }

  lemma {:induction false} TakeNone(p: Plan, m: seq<bool>, cost: Node -> int)
    requires |m| == Places(p) && forall i :: 0 <= i < |m| ==> !m[i]
    ensures Taken(p, m) == [] && Bill(p, m, cost) == 0
    decreases p
  {
    if p.Both? || p.Either? {
      TakeNone(p.left, m[..Places(p.left)], cost);
      TakeNone(p.right, m[Places(p.left)..], cost);
    }
  }

  function Nots(n: nat): (m: seq<bool>)
    ensures |m| == n && forall i :: 0 <= i < n ==> !m[i]
  {
    seq(n, i => false)
  }

  ghost predicate Cheapest(p: Plan, m: seq<bool>, cost: Node -> int) {
    |m| == Places(p) && Satisfies(p, m) &&
    forall other: seq<bool> :: |other| == Places(p) && Satisfies(p, other) ==> Bill(p, m, cost) <= Bill(p, other, cost)
  }

  lemma Halves(p: Plan, m: seq<bool>, n: seq<bool>, cost: Node -> int)
    requires (p.Both? || p.Either?) && |m| == Places(p.left) && |n| == Places(p.right)
    ensures Satisfies(p, m + n) <==> if p.Both? then Satisfies(p.left, m) && Satisfies(p.right, n)
                                     else Satisfies(p.left, m) || Satisfies(p.right, n)
    ensures Bill(p, m + n, cost) == Bill(p.left, m, cost) + Bill(p.right, n, cost)
    ensures Taken(p, m + n) == Taken(p.left, m) + Taken(p.right, n)
  {
    assert (m + n)[..Places(p.left)] == m && (m + n)[Places(p.left)..] == n;
  }

  lemma BothCheapest(l: Plan, r: Plan, m: seq<bool>, n: seq<bool>, cost: Node -> int)
    requires Cheapest(l, m, cost) && Cheapest(r, n, cost)
    ensures Cheapest(Both(l, r), m + n, cost)
    ensures Bill(Both(l, r), m + n, cost) == Bill(l, m, cost) + Bill(r, n, cost)
    ensures Taken(Both(l, r), m + n) == Taken(l, m) + Taken(r, n)
  {
    hide Satisfies, Bill, Taken;
    var p := Both(l, r);
    Halves(p, m, n, cost);
    forall other: seq<bool> | |other| == Places(p) && Satisfies(p, other)
      ensures Bill(p, m + n, cost) <= Bill(p, other, cost)
    {
      var a, b := other[..Places(l)], other[Places(l)..];
      assert other == a + b;
      Halves(p, a, b, cost);
    }
  }

  lemma EitherLeft(l: Plan, r: Plan, m: seq<bool>, n: seq<bool>, cost: Node -> int)
    requires Cheapest(l, m, cost) && Cheapest(r, n, cost) && Bill(l, m, cost) <= Bill(r, n, cost)
    ensures var k := m + Nots(Places(r));
            Cheapest(Either(l, r), k, cost) && Bill(Either(l, r), k, cost) == Bill(l, m, cost) &&
            Taken(Either(l, r), k) == Taken(l, m)
  {
    hide Satisfies, Bill, Taken, Nots;
    TakeNone(r, Nots(Places(r)), cost);
    Halves(Either(l, r), m, Nots(Places(r)), cost);
    EitherBounds(l, r, m, n, cost);
  }

  lemma EitherRight(l: Plan, r: Plan, m: seq<bool>, n: seq<bool>, cost: Node -> int)
    requires Cheapest(l, m, cost) && Cheapest(r, n, cost) && Bill(r, n, cost) <= Bill(l, m, cost)
    ensures var k := Nots(Places(l)) + n;
            Cheapest(Either(l, r), k, cost) && Bill(Either(l, r), k, cost) == Bill(r, n, cost) &&
            Taken(Either(l, r), k) == Taken(r, n)
  {
    hide Satisfies, Bill, Taken, Nots;
    TakeNone(l, Nots(Places(l)), cost);
    Halves(Either(l, r), Nots(Places(l)), n, cost);
    EitherBounds(l, r, m, n, cost);
  }

  /** Whatever satisfies one of two plans costs as much as the cheaper one. */
  lemma EitherBounds(l: Plan, r: Plan, m: seq<bool>, n: seq<bool>, cost: Node -> int)
    requires Cheapest(l, m, cost) && Cheapest(r, n, cost)
    ensures var p := Either(l, r);
            forall other: seq<bool> :: |other| == Places(p) && Satisfies(p, other) ==>
              Bill(l, m, cost) <= Bill(p, other, cost) || Bill(r, n, cost) <= Bill(p, other, cost)
  {
    hide Satisfies, Bill, Taken;
    var p := Either(l, r);
    forall other: seq<bool> | |other| == Places(p) && Satisfies(p, other)
      ensures Bill(l, m, cost) <= Bill(p, other, cost) || Bill(r, n, cost) <= Bill(p, other, cost)
    {
      var a, b := other[..Places(l)], other[Places(l)..];
      assert other == a + b;
      Halves(p, a, b, cost);
    }
  }

  lemma LeafIsCheapest(t: Node, cost: Node -> int) returns (m: seq<bool>)
    requires t.Leaf? && Evaluable(t)
    ensures Cheapest(Decide(t, cost), m, cost)
    ensures Reqs(Eval(t, cost)) == Taken(Decide(t, cost), m)
    ensures Total(Eval(t, cost)) == Bill(Decide(t, cost), m, cost)
  {
    m := [true];
    var ds := Eval(t, cost);
    assert ds[1..] == [];
  }

  lemma NothingIsCheapest(cost: Node -> int)
    ensures Cheapest(Nothing, [], cost) && Bill(Nothing, [], cost) == 0 && Taken(Nothing, []) == []
    ensures Total([EMPTY]) == 0 && Reqs([EMPTY]) == []
  {
    assert [EMPTY][1..] == [];
  }

  /**
   * With the conditions decided by what already holds, the requirements returned satisfy the dependency
   * at the least possible cost, each place where one is named paid for separately.
   */
  lemma {:induction false} EvalIsCheapest(t: Node, cost: Node -> int) returns (m: seq<bool>)
    requires Evaluable(t) && Judged(t, cost)
    ensures Cheapest(Decide(t, cost), m, cost)
    ensures Reqs(Eval(t, cost)) == Taken(Decide(t, cost), m)
    ensures Total(Eval(t, cost)) == Bill(Decide(t, cost), m, cost)
    decreases t
  {
    hide Satisfies, Bill, Taken;
    if t.Leaf? {
      m := LeafIsCheapest(t, cost);
    } else if t.op == And {
      var first := EvalIsCheapest(t.args[0], cost);
      var second := EvalIsCheapest(t.args[1], cost);
      TotalSplits(Eval(t.args[0], cost), Eval(t.args[1], cost));
      BothCheapest(Decide(t.args[0], cost), Decide(t.args[1], cost), first, second, cost);
      m := first + second;
    } else if t.op == Or {
      m := OrIsCheapest(t, cost);
    } else {
      EvalCostsLeast(t.args[1], cost);
      ConditionIsRightExactly(t.args[1], cost);
      if Called(t, cost).Some? {
        m := EvalIsCheapest(Called(t, cost).value, cost);
      } else {
        m := [];
        NothingIsCheapest(cost);
      }
    }
  }

  lemma {:induction false} OrIsCheapest(t: Node, cost: Node -> int) returns (m: seq<bool>)
    requires Evaluable(t) && Judged(t, cost) && t.Op? && t.op == Or
    ensures Cheapest(Decide(t, cost), m, cost)
    ensures Reqs(Eval(t, cost)) == Taken(Decide(t, cost), m)
    ensures Total(Eval(t, cost)) == Bill(Decide(t, cost), m, cost)
    decreases t, 0
  {
    hide Satisfies, Bill, Taken;
    var l, r := t.args[0], t.args[1];
    var first := EvalIsCheapest(l, cost);
    var second := EvalIsCheapest(r, cost);
    EvalCostsLeast(l, cost);
    EvalCostsLeast(r, cost);
    var p, q := Decide(l, cost), Decide(r, cost);
    if Eval(t, cost) == Eval(l, cost) && LeastOf(l, cost) <= LeastOf(r, cost) {
      m := first + Nots(Places(q));
      EitherLeft(p, q, first, second, cost);
    } else {
      m := Nots(Places(p)) + second;
      EitherRight(p, q, first, second, cost);
    }
  }

  /** What requirements cost together: 99 for one that cannot be met, otherwise what it is said to cost. */
  function Price(reqs: seq<Node>, cost: Node -> int): nat {
    if reqs == [] then 0 else (if cost(reqs[0]) < 0 then 99 else cost(reqs[0])) + Price(reqs[1..], cost)
  }

  lemma {:induction false} PriceSplits(a: seq<Node>, b: seq<Node>, cost: Node -> int)
    ensures Price(a + b, cost) == Price(a, cost) + Price(b, cost)
  {
    if a == [] {
      assert a + b == b;
    } else {
      assert (a + b)[1..] == a[1..] + b;
      PriceSplits(a[1..], b, cost);
    }
  }

  /** The list costs what the requirements on it cost, whatever was judged on the way. */
  lemma {:induction false} TotalIsPrice(t: Node, cost: Node -> int)
    requires Evaluable(t)
    ensures Total(Eval(t, cost)) == Price(Reqs(Eval(t, cost)), cost)
    decreases t
  {
    if t.Leaf? {
      assert Eval(t, cost)[1..] == [] && [t][1..] == [];
    } else {
      var first, second := Eval(t.args[0], cost), Eval(t.args[1], cost);
      TotalIsPrice(t.args[0], cost);
      TotalIsPrice(t.args[1], cost);
      if |t.args| == 3 { TotalIsPrice(t.args[2], cost); }
      if t.op == And {
        TotalSplits(first, second);
        PriceSplits(Reqs(first), Reqs(second), cost);
      } else if t.op != Or {
        NothingIsCheapest(cost);
      }
    }
  }

  /** So does a selection. */
  lemma {:induction false} BillIsPrice(p: Plan, m: seq<bool>, cost: Node -> int)
    requires |m| == Places(p)
    ensures Bill(p, m, cost) == Price(Taken(p, m), cost)
    decreases p
  {
    match p
    case Nothing =>
    case Need(req) => assert [req][1..] == [];
    case Both(l, r) =>
      BillIsPrice(l, m[..Places(l)], cost);
      BillIsPrice(r, m[Places(l)..], cost);
      PriceSplits(Taken(l, m[..Places(l)]), Taken(r, m[Places(l)..]), cost);
    case Either(l, r) =>
      BillIsPrice(l, m[..Places(l)], cost);
      BillIsPrice(r, m[Places(l)..], cost);
      PriceSplits(Taken(l, m[..Places(l)]), Taken(r, m[Places(l)..]), cost);
  }

  /** The least is what the cheapest selection costs. */
  lemma {:induction false} LeastIsLeast(p: Plan, cost: Node -> int) returns (m: seq<bool>)
    ensures Cheapest(p, m, cost) && Bill(p, m, cost) == Least(p, cost)
    decreases p
  {
    match p
    case Nothing => m := []; NothingIsCheapest(cost);
    case Need(req) => m := [true];
    case Both(l, r) =>
      var a := LeastIsLeast(l, cost);
      var b := LeastIsLeast(r, cost);
      m := a + b;
      BothCheapest(l, r, a, b, cost);
    case Either(l, r) =>
      var a := LeastIsLeast(l, cost);
      var b := LeastIsLeast(r, cost);
      if Least(r, cost) < Least(l, cost) {
        m := Nots(Places(l)) + b;
        EitherRight(l, r, a, b, cost);
      } else {
        m := a + Nots(Places(r));
        EitherLeft(l, r, a, b, cost);
      }
  }

  /**
   * An or keeps its left operand unless what the right one is charged with is less; without missing branches
   * in front that is exactly when nothing that satisfies the right one is cheaper.
   */
  lemma OrKeepsLeft(l: Node, r: Node, cost: Node -> int)
    requires Evaluable(l) && Evaluable(r) && Judged(l, cost) && Judged(r, cost)
    requires Evaluable(Op(Or, [l, r]))
    ensures var x, y := Charged(LeastOf(l, cost), StartsEmpty(l, cost)), Charged(LeastOf(r, cost), StartsEmpty(r, cost));
            Eval(Op(Or, [l, r]), cost) == if x <= y then Eval(l, cost) else Eval(r, cost)
    ensures !StartsEmpty(l, cost) && !StartsEmpty(r, cost) ==>
              (Eval(Op(Or, [l, r]), cost) == Eval(l, cost) <==>
               exists m: seq<bool> :: Cheapest(Decide(l, cost), m, cost) &&
                 forall n: seq<bool> :: |n| == Places(Decide(r, cost)) && Satisfies(Decide(r, cost), n) ==>
                   Bill(Decide(l, cost), m, cost) <= Bill(Decide(r, cost), n, cost))
  {
    hide *;
    OrChooses(l, r, cost);
    LeastMeansLess(Decide(l, cost), Decide(r, cost), cost);
  }

  /** Comparing the least costs is comparing a cheapest selection with all others. */
  lemma LeastMeansLess(p: Plan, q: Plan, cost: Node -> int)
    ensures Least(p, cost) <= Least(q, cost) <==>
            exists m: seq<bool> :: Cheapest(p, m, cost) &&
              forall n: seq<bool> :: |n| == Places(q) && Satisfies(q, n) ==> Bill(p, m, cost) <= Bill(q, n, cost)
  {
    hide Satisfies, Bill, Places, Least;
    var m := LeastIsLeast(p, cost);
    var n := LeastIsLeast(q, cost);
  }

  lemma OrChooses(l: Node, r: Node, cost: Node -> int)
    requires Evaluable(l) && Evaluable(r) && Judged(l, cost) && Judged(r, cost)
    requires Evaluable(Op(Or, [l, r]))
    ensures var x, y := Charged(LeastOf(l, cost), StartsEmpty(l, cost)), Charged(LeastOf(r, cost), StartsEmpty(r, cost));
            && Eval(Op(Or, [l, r]), cost) == (if x <= y then Eval(l, cost) else Eval(r, cost))
            && (!StartsEmpty(l, cost) && !StartsEmpty(r, cost) ==>
                  (Eval(Op(Or, [l, r]), cost) == Eval(l, cost) <==>
                   Least(Decide(l, cost), cost) <= Least(Decide(r, cost), cost)))
  {
    EvalCostsLeast(l, cost);
    EvalCostsLeast(r, cost);
  }

  /** No with or without anywhere. */
  predicate Plain(t: Node) {
    t.Op? ==> t.op != With && t.op != Without && forall a :: a in t.args ==> Plain(a)
  }

  lemma {:induction false} WellFormedIsEvaluable(t: Node)
    requires WellFormed(t)
    ensures Evaluable(t) <==> Plain(t) && Readable(t)
    decreases t
  {
    if t.Op? {
      forall i | 0 <= i < |t.args| ensures Evaluable(t.args[i]) <==> Plain(t.args[i]) && Readable(t.args[i]) {
        WellFormedIsEvaluable(t.args[i]);
      }
      assert Plain(t) <==> t.op != With && t.op != Without && forall i :: 0 <= i < |t.args| ==> Plain(t.args[i]);
    }
  }

  /** A parsed tree can be evaluated exactly when it has no with or without and every identifier got its capreq. */
  lemma ParsedIsEvaluable(expr: string)
    requires Parse(expr).Item?
    ensures Evaluable(Parse(expr).node) <==> Plain(Parse(expr).node) && Readable(Parse(expr).node)
  {
    ParsedIsWellFormed(expr);
    WellFormedIsEvaluable(Parse(expr).node);
  }

  /** A dependency of and and or only. */
  predicate AndOr(t: Node) {
    t.Op? ==> (t.op == And || t.op == Or) && |t.args| == 2 && AndOr(t.args[0]) && AndOr(t.args[1])
  }

  /** A formula of requirements under the set of those met. */
  predicate Met(t: Node, met: set<Node>)
    requires AndOr(t)
  {
    if t.Leaf? then t in met
    else if t.op == And then Met(t.args[0], met) && Met(t.args[1], met)
    else Met(t.args[0], met) || Met(t.args[1], met)
  }

  lemma {:induction false} AndOrGuarded(t: Node)
    requires AndOr(t) && Readable(t)
    ensures Evaluable(t) && Guarded(t) && !OpensEmpty(t)
    decreases t
  {
    if t.Op? {
      assert Readable(t.args[0]) && Readable(t.args[1]);
      AndOrGuarded(t.args[0]);
      AndOrGuarded(t.args[1]);
    }
  }

  /** With the requirements it resolves to met, an and/or dependency holds. */
  lemma {:induction false} ResolvedIsMet(t: Node, cost: Node -> int, met: set<Node>)
    requires AndOr(t) && Evaluable(t)
    requires forall r :: r in Reqs(Eval(t, cost)) ==> r in met
    ensures Met(t, met)
    decreases t
  {
    if t.Op? {
      var l, r := t.args[0], t.args[1];
      if t.op == And {
        TotalSplits(Eval(l, cost), Eval(r, cost));
        ResolvedIsMet(l, cost, met);
        ResolvedIsMet(r, cost, met);
      } else if DvalueCost(Eval(r, cost)) < DvalueCost(Eval(l, cost)) {
        ResolvedIsMet(r, cost, met);
      } else {
        ResolvedIsMet(l, cost, met);
      }
    } else {
      assert t in Reqs(Eval(t, cost));
    }
  }

  /** Any set of requirements that makes the dependency hold contains a selection of its places. */
  lemma {:induction false} MetIsSelection(t: Node, cost: Node -> int, met: set<Node>) returns (m: seq<bool>)
    requires AndOr(t) && Evaluable(t) && Met(t, met)
    ensures |m| == Places(Decide(t, cost)) && Satisfies(Decide(t, cost), m)
    ensures forall r :: r in Taken(Decide(t, cost), m) ==> r in met
    decreases t
  {
    match t
    case Leaf(_, _, _) => m := [true];
    case Op(op, args) =>
      var l, r := Decide(args[0], cost), Decide(args[1], cost);
      if op == And {
        var a := MetIsSelection(args[0], cost, met);
        var b := MetIsSelection(args[1], cost, met);
        m := a + b;
        Halves(Both(l, r), a, b, cost);
      } else if Met(args[0], met) {
        var a := MetIsSelection(args[0], cost, met);
        m := a + Nots(Places(r));
        Halves(Either(l, r), a, Nots(Places(r)), cost);
        TakeNone(r, Nots(Places(r)), cost);
      } else {
        var b := MetIsSelection(args[1], cost, met);
        m := Nots(Places(l)) + b;
        Halves(Either(l, r), Nots(Places(l)), b, cost);
        TakeNone(l, Nots(Places(l)), cost);
      }
  }

  function Req(name: string): Node {
    Leaf(name, NO_RELATION, None)
  }

  /**
   * A condition that does not hold and has no else makes an operand of no cost look dear: the or takes
   * the other one, although nothing was needed.
   */
  lemma MissingElseLosesOr(a: string, b: string, c: string, cost: Node -> int)
    requires cost(Req(b)) == 1 && cost(Req(c)) == 1
    ensures var t := Op(Or, [Op(If, [Req(a), Req(c)]), Req(b)]);
            && Evaluable(t) && !Guarded(t) && !Judged(t, cost) && Truth(t, cost)
            && Reqs(Eval(t, cost)) == [Req(b)] && Total(Eval(t, cost)) == 1
            && Decide(t, cost) == Either(Nothing, Need(Req(b)))
            && Satisfies(Either(Nothing, Need(Req(b))), [false])
  {
    var left, right := Op(If, [Req(a), Req(c)]), Req(b);
    var t := Op(Or, [left, right]);
    var one := [Dv(Some(right), 1)];
    assert one[1..] == [] && Total(one) == 1 && Reqs(one) == [right];
    assert Eval(Req(c), cost)[1..] == [] && Total(Eval(Req(c), cost)) == 1;
    assert t.args[0] == left && t.args[1] == right && left.args[0] == Req(a) && left.args[1] == Req(c);
    assert Eval(left, cost) == [EMPTY];
    assert Eval(right, cost) == one;
    assert Eval(t, cost) == one;
    assert Decide(left, cost) == Nothing && Decide(t, cost) == Either(Nothing, Need(right));
  }
}

/** The evaluator on linked lists of values, as the source builds them. */
module BooldepEval {
  import opened Wrappers
  import opened Relations
  import opened BooldepSpec
  import opened BooldepEvalSpec
  import opened BooldepEvalTheorems

  class Dvalue {
    const req: Option<Node>
    const cost: int
    var next: Dvalue?

    constructor (req: Option<Node>, cost: int)
      ensures this.req == req && this.cost == cost && next == null
    {
      this.req, this.cost, next := req, cost, null;
    }
  }

  ghost function At(ds: seq<Dvalue>, i: nat): Dvalue? {
    if i < |ds| then ds[i] else null
  }

  /** ds are the nodes of one list, in order. */
  ghost predicate Linked(ds: seq<Dvalue>)
    reads ds
  {
    && ds != []
    && (forall i, j :: 0 <= i < j < |ds| ==> ds[i] != ds[j])
    && (forall i :: 0 <= i < |ds| ==> ds[i].next == At(ds, i + 1))
  }

  ghost function Values(ds: seq<Dvalue>): (r: seq<Dv>)
    ensures |r| == |ds|
  {
    seq(|ds|, i requires 0 <= i < |ds| => Dv(ds[i].req, ds[i].cost))
  }

  /** dvalue_cost. */
  method CostOf(dv: Dvalue, ghost ds: seq<Dvalue>) returns (cost: nat)
    requires Linked(ds) && dv == ds[0]
    ensures cost == DvalueCost(Values(ds))
  {
    if dv.req.None? { return 99; }
    var d: Dvalue? := dv;
    ghost var i := 0;
    cost := 0;
    while d != null
      invariant 0 <= i <= |ds|
      invariant d == At(ds, i)
      invariant cost + Total(Values(ds)[i..]) == Total(Values(ds))
      decreases |ds| - i
    {
      assert Values(ds)[i] == Dv(d.req, d.cost) && Values(ds)[i..][1..] == Values(ds)[i + 1..];
      cost := cost + if d.cost < 0 then 99 else d.cost;
      assert d == ds[i];
      d := d.next;
      i := i + 1;
    }
  }

  /** eval_and's splice: the right list is hung onto the last value of the left one. */
  method Append(left: Dvalue, right: Dvalue, ghost l: seq<Dvalue>, ghost r: seq<Dvalue>)
    requires Linked(l) && Linked(r) && left == l[0] && right == r[0]
    requires forall i, j :: 0 <= i < |l| && 0 <= j < |r| ==> l[i] != r[j]
    modifies l
    ensures Linked(l + r) && Values(l + r) == Values(l) + Values(r)
  {
    var dv := left;
    ghost var i := 0;
    while dv.next != null
      invariant 0 <= i < |l| && dv == l[i]
      decreases |l| - i
    {
      assert dv == l[i];
      dv := dv.next;
      i := i + 1;
    }
    dv.next := right;
    assert Values(l + r) == Values(l) + Values(r);
  }

  /** The node for an argument, if there is one. */
  function Arg(t: Node, i: nat): Option<Node>
    requires t.Op?
  {
    if i < |t.args| then Some(t.args[i]) else None
  }

  /** eval; a missing argument gives the empty value. */
  method Eval(node: Option<Node>, cost: Node -> int) returns (dv: Dvalue, ghost ds: seq<Dvalue>)
    requires node.Some? ==> Evaluable(node.value)
    ensures Linked(ds) && dv == ds[0] && forall i :: 0 <= i < |ds| ==> fresh(ds[i])
    ensures Values(ds) == if node.Some? then BooldepEvalSpec.Eval(node.value, cost) else [EMPTY]
    decreases node.Some?, if node.Some? then node.value else Leaf("", NO_RELATION, None), 1
  {
    match node
    case None =>
      dv := new Dvalue(None, 0);
      ds := [dv];
    case Some(Leaf(_, _, _)) =>
      dv := new Dvalue(node, cost(node.value));
      ds := [dv];
    case Some(Op(op, args)) =>
      match op {
        case And => dv, ds := EvalAnd(node.value, cost);
        case Or => dv, ds := EvalOr(node.value, cost);
        case If => dv, ds := EvalIf(node.value, cost);
        case Unless => dv, ds := EvalUnless(node.value, cost);
      }
  }

  method EvalAnd(t: Node, cost: Node -> int) returns (dv: Dvalue, ghost ds: seq<Dvalue>)
    requires Evaluable(t) && t.Op? && t.op == And
    ensures Linked(ds) && dv == ds[0] && forall i :: 0 <= i < |ds| ==> fresh(ds[i])
    ensures Values(ds) == BooldepEvalSpec.Eval(t, cost)
    decreases true, t, 0
  {
    var left, l := Eval(Arg(t, 0), cost);
    var right, r := Eval(Arg(t, 1), cost);
    Append(left, right, l, r);
    dv, ds := left, l + r;
  }

  method EvalOr(t: Node, cost: Node -> int) returns (dv: Dvalue, ghost ds: seq<Dvalue>)
    requires Evaluable(t) && t.Op? && t.op == Or
    ensures Linked(ds) && dv == ds[0] && forall i :: 0 <= i < |ds| ==> fresh(ds[i])
    ensures Values(ds) == BooldepEvalSpec.Eval(t, cost)
    decreases true, t, 0
  {
    var left, l := Eval(Arg(t, 0), cost);
    var right, r := Eval(Arg(t, 1), cost);
    var lcost := CostOf(left, l);
    var rcost := CostOf(right, r);
    if rcost < lcost {
      return right, r;
    }
    return left, l;
  }

  method EvalIf(t: Node, cost: Node -> int) returns (dv: Dvalue, ghost ds: seq<Dvalue>)
    requires Evaluable(t) && t.Op? && t.op == If
    ensures Linked(ds) && dv == ds[0] && forall i :: 0 <= i < |ds| ==> fresh(ds[i])
    ensures Values(ds) == BooldepEvalSpec.Eval(t, cost)
    decreases true, t, 0
  {
    var cond, c := Eval(Arg(t, 1), cost);
    var ccost := CostOf(cond, c);
    dv, ds := Eval(if ccost == 0 then Arg(t, 0) else Arg(t, 2), cost);
  }

  method EvalUnless(t: Node, cost: Node -> int) returns (dv: Dvalue, ghost ds: seq<Dvalue>)
    requires Evaluable(t) && t.Op? && t.op == Unless
    ensures Linked(ds) && dv == ds[0] && forall i :: 0 <= i < |ds| ==> fresh(ds[i])
    ensures Values(ds) == BooldepEvalSpec.Eval(t, cost)
    decreases true, t, 0
  {
    var cond, c := Eval(Arg(t, 1), cost);
    var ccost := CostOf(cond, c);
    dv, ds := Eval(if ccost != 0 then Arg(t, 0) else Arg(t, 2), cost);
  }

  /** booldep_eval: the requirements of the list, without the empty values. */
  method BooldepEval(t: Node, cost: Node -> int) returns (reqs: seq<Node>)
    requires Evaluable(t)
    ensures reqs == Reqs(BooldepEvalSpec.Eval(t, cost))
  {
    hide BooldepEvalSpec.Eval, Reqs, Values, Linked;
    var dv, ds := Eval(Some(t), cost);
    NodeAt(ds, 0);
    var d: Dvalue? := dv;
    ghost var i := 0;
    reqs := [];
    assert Values(ds)[0..] == Values(ds) && [] + Reqs(Values(ds)) == Reqs(Values(ds));
    while d != null
      invariant 0 <= i <= |ds| && Linked(ds)
      invariant d == At(ds, i)
      invariant reqs + Reqs(Values(ds)[i..]) == Reqs(Values(ds))
      decreases |ds| - i
    {
      ghost var more := Reqs(Values(ds)[i + 1..]);
      ReqsStep(Values(ds), i);
      NodeAt(ds, i);
      if d.req.Some? {
        assert reqs + ([d.req.value] + more) == reqs + [d.req.value] + more;
        reqs := reqs + [d.req.value];
      }
      assert d == ds[i];
      d := d.next;
      i := i + 1;
    }
    ReqsStep([], 0);
    assert Values(ds)[|ds|..] == [];
  }

  lemma NodeAt(ds: seq<Dvalue>, i: nat)
    requires Linked(ds) && (i == 0 || i < |ds|)
    ensures i < |ds| && ds[i].next == At(ds, i + 1) && Values(ds)[i] == Dv(ds[i].req, ds[i].cost)
  {
  }

  lemma ReqsStep(vs: seq<Dv>, i: nat)
    ensures i < |vs| ==> Reqs(vs[i..]) == (if vs[i].req.Some? then [vs[i].req.value] + Reqs(vs[i + 1..]) else Reqs(vs[i + 1..]))
    ensures Reqs([]) == []
  {
    if i < |vs| {
      assert vs[i..][0] == vs[i] && vs[i..][1..] == vs[i + 1..];
      assert [] + Reqs(vs[i + 1..]) == Reqs(vs[i + 1..]);
    }
  }
}
