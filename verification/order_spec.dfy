/** The requirement graph that both the ordering and the marking passes walk. */
module ReqGraph {

  /** Packages are compared by identity only, so a number stands for each of them. */
  type Pkg = int

  /** One `struct reqpkg` without its alternatives: a required package and the kind of the requirement. */
  datatype Alt = Alt(pkg: Pkg, prereq: bool, prereqUn: bool)

  /** A `struct reqpkg`: a head, and for REQPKG_MULTI entries a non-empty NULL-terminated list of alternatives. */
  datatype Entry = Entry(head: Alt, adds: seq<Alt>) {
    predicate Multi() {
      adds != []
    }
  }

  /** What pkgset_get_required_packages answers for each package; the cache keeps the answers stable. */
  type Graph = map<Pkg, seq<Entry>>

  function Entries(g: Graph, p: Pkg): seq<Entry> {
    if p in g then g[p] else []
  }

  /** The order in which `rp` moves over the heads and alternatives. */
  function Flatten(entries: seq<Entry>): seq<Alt> {
    if entries == [] then [] else [entries[0].head] + entries[0].adds + Flatten(entries[1..])
  }

  function Edges(g: Graph, p: Pkg): seq<Alt> {
    Flatten(Entries(g, p))
  }

  ghost predicate Distinct<T>(s: seq<T>) {
    forall i, j :: 0 <= i < j < |s| ==> s[i] != s[j]
  }
}

/** Ordering of packages (pkgset-order.c), as functions on the whole visible state. */
module OrderSpec {
  import opened ReqGraph

  datatype Color = NoColor | White | Gray | Black

  /** The `reqpkg_flag` argument: 0, REQPKG_PREREQ or REQPKG_PREREQ_UN. */
  datatype Mode = AllRequires | PreOnly | UnOnly

  /** Flag words of the packages together with the fields of visit_install_order_s. */
  datatype State = State(color: map<Pkg, Color>, prereqed: set<Pkg>,
                         stack: seq<Pkg>, ordered: seq<Pkg>, nerrors: nat)

  predicate Flagged(mode: Mode, a: Alt) {
    match mode
    case AllRequires => false
    case PreOnly => a.prereq
    case UnOnly => a.prereqUn
  }

  predicate Followed(mode: Mode, a: Alt) {
    mode == AllRequires || Flagged(mode, a)
  }

  function ColorOf(color: map<Pkg, Color>, p: Pkg): Color {
    if p in color then color[p] else NoColor
  }

  function Whites(color: map<Pkg, Color>): set<Pkg> {
    set p | p in color && color[p] == White
  }

  /** The downward walk over the stack: (packages passed, prereqed packages passed). */
  function StackScan(stack: seq<Pkg>, prereqed: set<Pkg>, target: Pkg): (nat, nat) {
    if stack == [] || stack[|stack| - 1] == target then (0, 0)
    else if stack[|stack| - 1] !in prereqed then (1, 0)
    else
      var (nn, nprereqs) := StackScan(stack[..|stack| - 1], prereqed, target);
      (nn + 1, nprereqs + 1)
  }

  predicate IsLoop(s: State, target: Pkg) {
    var (nn, nprereqs) := StackScan(s.stack, s.prereqed, target);
    nn > 0 && nn == nprereqs
  }

  function Finish(s: State, p: Pkg): State {
    s.(color := s.color[p := Black], prereqed := s.prereqed - {p}, ordered := s.ordered + [p])
  }

  function Enter(g: Graph, s: State, p: Pkg): State {
    s.(color := s.color[p := Gray],
       stack := if Entries(g, p) == [] then s.stack else s.stack + [p])
  }

  function Leave(s: State, stack: seq<Pkg>, p: Pkg): State {
    Finish(s, p).(stack := stack)
  }

  /** visit_install_order on a white package. */
  function Visit(g: Graph, mode: Mode, s: State, p: Pkg): (r: State)
    requires ColorOf(s.color, p) == White
    ensures r.stack == s.stack
    ensures Whites(r.color) < Whites(s.color)
    decreases |Whites(s.color)|, 0, 0
  {
    var entered := Enter(g, s, p);
    assert Whites(entered.color) < Whites(s.color) by {
      assert p in Whites(s.color) && p !in Whites(entered.color);
    }
    WhitesShrink(entered.color, s.color);
    Leave(VisitEdges(g, mode, entered, Edges(g, p)), s.stack, p)
  }

  /** The body of the loop over the required packages, one `rp` at a time. */
  function VisitEdges(g: Graph, mode: Mode, s: State, edges: seq<Alt>): (r: State)
    ensures r.stack == s.stack
    ensures Whites(r.color) <= Whites(s.color)
    decreases |Whites(s.color)|, |edges|
  {
    if edges == [] then s
    else
      var next := VisitEdge(g, mode, s, edges[0]);
      WhitesShrink(next.color, s.color);
      VisitEdges(g, mode, next, edges[1..])
  }

  function VisitEdge(g: Graph, mode: Mode, s: State, a: Alt): (r: State)
    ensures r.stack == s.stack
    ensures Whites(r.color) <= Whites(s.color)
    decreases |Whites(s.color)|, 0, 1
  {
    match ColorOf(s.color, a.pkg)
    case NoColor => s
    case White =>
      var marked := s.(prereqed := if Flagged(mode, a) then s.prereqed + {a.pkg} else s.prereqed - {a.pkg});
      if Followed(mode, a) then Visit(g, mode, marked, a.pkg) else marked
    case Black => s
    case Gray => if Flagged(mode, a) && IsLoop(s, a.pkg) then s.(nerrors := s.nerrors + 1) else s
  }

  lemma WhitesShrink(after: map<Pkg, Color>, before: map<Pkg, Color>)
    requires Whites(after) <= Whites(before)
    ensures |Whites(after)| <= |Whites(before)|
    ensures Whites(after) < Whites(before) ==> |Whites(after)| < |Whites(before)|
  {
    var extra := Whites(before) - Whites(after);
    assert Whites(before) == Whites(after) + extra;
    assert |Whites(before)| == |Whites(after)| + |extra|;
    if Whites(after) < Whites(before) {
      assert extra != {};
    }
  }

  /** The loop of do_order over the pool. */
  function VisitRoots(g: Graph, mode: Mode, s: State, roots: seq<Pkg>): State
    requires s.stack == []
    decreases |roots|
  {
    if roots == [] then s
    else if ColorOf(s.color, roots[0]) == White then
      VisitRoots(g, mode, Visit(g, mode, s, roots[0]), roots[1..])
    else VisitRoots(g, mode, s, roots[1..])
  }

  /** mapfn_clean_pkg_color over the pool. */
  function CleanColors(color: map<Pkg, Color>, pkgs: seq<Pkg>): map<Pkg, Color>
    decreases |pkgs|
  {
    if pkgs == [] then color else CleanColors(color[pkgs[0] := White], pkgs[1..])
  }

  function Start(color: map<Pkg, Color>, prereqed: set<Pkg>, pkgs: seq<Pkg>): State {
    State(CleanColors(color, pkgs), prereqed - (set p | p in pkgs), [], [], 0)
  }

  /** do_order: one pass over the pool, from whatever flags earlier passes left behind. */
  function DoOrder(g: Graph, mode: Mode, color: map<Pkg, Color>, prereqed: set<Pkg>, pkgs: seq<Pkg>): State {
    VisitRoots(g, mode, Start(color, prereqed, pkgs), pkgs)
  }

  datatype OrderType = Install | Uninstall

  function FlagOf(t: OrderType): Mode {
    match t case Install => PreOnly case Uninstall => UnOnly
  }

  /** do_packages_order: a pass over every Requires, then one over the flagged Requires. */
  function PackagesOrder(g: Graph, t: OrderType, color: map<Pkg, Color>, prereqed: set<Pkg>, pkgs: seq<Pkg>): State {
    var first := DoOrder(g, AllRequires, color, prereqed, pkgs);
    DoOrder(g, FlagOf(t), first.color, first.prereqed, first.ordered)
  }
}
