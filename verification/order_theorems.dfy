/** What the ordering passes guarantee on any requirement graph, cyclic or not. */
module OrderTheorems {
  import opened ReqGraph
  import opened OrderSpec

  /** A pass looks at one graph through one requirement kind, inside one pool. */
  datatype Scope = Scope(g: Graph, mode: Mode, pool: set<Pkg>)

  /** One of the entries of u has a as its head or among its alternatives. */
  ghost predicate Requires(g: Graph, u: Pkg, a: Alt) {
    exists e :: e in Entries(g, u) && (a == e.head || a in e.adds)
  }

  ghost predicate Edge(c: Scope, u: Pkg, v: Pkg) {
    u in c.pool && v in c.pool && exists a :: Requires(c.g, u, a) && a.pkg == v && Followed(c.mode, a)
  }

  ghost predicate IsPath(c: Scope, path: seq<Pkg>) {
    && path != []
    && (forall i :: 0 <= i < |path| ==> path[i] in c.pool)
    && (forall i :: 0 <= i < |path| - 1 ==> Edge(c, path[i], path[i + 1]))
  }

  ghost predicate PathFromTo(c: Scope, path: seq<Pkg>, u: Pkg, v: Pkg) {
    IsPath(c, path) && path[0] == u && path[|path| - 1] == v
  }

  ghost predicate Reaches(c: Scope, u: Pkg, v: Pkg) {
    exists path :: PathFromTo(c, path, u, v)
  }

  /** Two different packages that require each other, directly or not. */
  ghost predicate HasCycle(c: Scope) {
    exists u, v :: u != v && Reaches(c, u, v) && Reaches(c, v, u)
  }

  /** Every followed requirement comes first, unless the package requires itself. */
  ghost predicate Respects(c: Scope, s: seq<Pkg>) {
    forall j, v :: 0 <= j < |s| && Edge(c, s[j], v) ==> v == s[j] || v in s[..j]
  }

  /** Every followed requirement comes first, except those that lead back to the requirer. */
  ghost predicate PostOrdered(c: Scope, s: seq<Pkg>) {
    forall j, v :: 0 <= j < |s| && Edge(c, s[j], v) ==> v in s[..j] || Reaches(c, v, s[j])
  }

  lemma {:induction false} FlattenLists(es: seq<Entry>, a: Alt)
    ensures a in Flatten(es) <==> exists e :: e in es && (a == e.head || a in e.adds)
  {
    if es != [] {
      FlattenLists(es[1..], a);
      assert es == [es[0]] + es[1..];
    }
  }

  /** The walk over a package's entries comes to each head and each alternative, and to nothing else. */
  lemma EdgesAreRequired(g: Graph, u: Pkg)
    ensures forall a :: a in Edges(g, u) <==> Requires(g, u, a)
  {
    forall a ensures a in Edges(g, u) <==> Requires(g, u, a) {
      FlattenLists(Entries(g, u), a);
    }
  }

  // ----- paths

  lemma EdgeReaches(c: Scope, u: Pkg, v: Pkg)
    requires Edge(c, u, v)
    ensures Reaches(c, u, v)
  {
    assert PathFromTo(c, [u, v], u, v);
  }

  /** A stretch of a path is a path. */
  lemma SliceReaches(c: Scope, path: seq<Pkg>, i: nat, j: nat)
    requires IsPath(c, path) && i <= j < |path|
    ensures Reaches(c, path[i], path[j])
  {
    var slice := path[i..j + 1];
    forall k | 0 <= k < |slice| - 1 ensures Edge(c, slice[k], slice[k + 1]) {
      assert Edge(c, path[i + k], path[i + k + 1]);
    }
    assert PathFromTo(c, slice, path[i], path[j]);
  }

  /** Along a path, a respected order only goes backwards. */
  lemma {:induction false} PathGoesBack(c: Scope, s: seq<Pkg>, path: seq<Pkg>, j: nat)
    requires Respects(c, s) && Distinct(s)
    requires IsPath(c, path) && j < |s| && s[j] == path[0]
    requires forall p :: p in c.pool ==> p in s
    ensures path[|path| - 1] in s[..j + 1]
    decreases |path|
  {
    if |path| > 1 {
      assert Edge(c, path[0], path[1]);
      var k :| 0 <= k <= j && s[k] == path[1];
      var rest := path[1..];
      forall i | 0 <= i < |rest| - 1 ensures Edge(c, rest[i], rest[i + 1]) {
        assert Edge(c, path[i + 1], path[i + 2]);
      }
      PathGoesBack(c, s, rest, k);
      assert s[..k + 1] <= s[..j + 1];
    }
  }

  lemma RespectedIsAcyclic(c: Scope, s: seq<Pkg>)
    requires Respects(c, s) && Distinct(s)
    requires forall p :: p in c.pool ==> p in s
    ensures !HasCycle(c)
  {
    if u, v :| u != v && Reaches(c, u, v) && Reaches(c, v, u) {
      var there :| PathFromTo(c, there, u, v);
      var back :| PathFromTo(c, back, v, u);
      var i :| 0 <= i < |s| && s[i] == u;
      var j :| 0 <= j < |s| && s[j] == v;
      PathGoesBack(c, s, there, i);
      PathGoesBack(c, s, back, j);
      assert false;
    }
  }

  // ----- what every step keeps

  /** Colours, stack and output agree: gray is on the stack, black is in the output. */
  ghost predicate Colored(c: Scope, s: State) {
    && Distinct(s.stack) && Distinct(s.ordered)
    && (forall p :: p in c.pool ==> ColorOf(s.color, p) != NoColor)
    && (forall p :: p !in c.pool ==> ColorOf(s.color, p) == NoColor || ColorOf(s.color, p) == Black)
    && (forall p :: p in s.stack <==> ColorOf(s.color, p) == Gray)
    && (forall p :: p in s.ordered <==> p in c.pool && ColorOf(s.color, p) == Black)
  }

  /** The stack is a requirement chain whose packages above the root are prereqed in a flagged pass. */
  ghost predicate Chained(c: Scope, s: State) {
    && (forall i :: 0 <= i < |s.stack| - 1 ==> Edge(c, s.stack[i], s.stack[i + 1]))
    && (c.mode != AllRequires ==> forall i :: 1 <= i < |s.stack| ==> s.stack[i] in s.prereqed)
  }

  ghost predicate Judged(c: Scope, s: State) {
    && PostOrdered(c, s.ordered)
    && (c.mode == AllRequires ==> s.nerrors == 0)
    && (c.mode != AllRequires && s.nerrors == 0 ==> Respects(c, s.ordered))
    && (s.nerrors > 0 ==> HasCycle(c))
  }

  ghost predicate Inv(c: Scope, s: State) {
    Colored(c, s) && Chained(c, s) && Judged(c, s)
  }

  ghost predicate Grows(s: State, r: State) {
    s.stack == r.stack && s.ordered <= r.ordered && s.nerrors <= r.nerrors
  }

  /** p may be entered: a followed requirement led to it from the top of the stack. */
  ghost predicate Enterable(c: Scope, s: State, p: Pkg) {
    && p in c.pool
    && ColorOf(s.color, p) == White
    && (s.stack != [] ==> Edge(c, s.stack[|s.stack| - 1], p) && (c.mode != AllRequires ==> p in s.prereqed))
  }

  /** The requirement a of the top package has been dealt with. */
  ghost predicate Handled(c: Scope, s: State, a: Alt) {
    Followed(c.mode, a) && a.pkg in c.pool ==>
      || a.pkg in s.ordered
      || (a.pkg in s.stack && (c.mode != AllRequires && s.nerrors == 0 ==> a.pkg == s.stack[|s.stack| - 1]))
  }

  lemma {:induction false} ScanSeesPrereqed(stack: seq<Pkg>, prereqed: set<Pkg>, target: Pkg, k: nat)
    requires Distinct(stack) && k < |stack| && stack[k] == target
    requires forall i :: 1 <= i < |stack| ==> stack[i] in prereqed
    ensures StackScan(stack, prereqed, target) == (|stack| - 1 - k, |stack| - 1 - k)
    decreases |stack|
  {
    if k < |stack| - 1 {
      ScanSeesPrereqed(stack[..|stack| - 1], prereqed, target, k);
    }
  }

  /** On a gray package the scan reports a loop exactly when the package is not the current one. */
  lemma GrayIsLoop(c: Scope, s: State, target: Pkg)
    requires Colored(c, s) && Chained(c, s) && c.mode != AllRequires && target in s.stack
    ensures IsLoop(s, target) <==> target != s.stack[|s.stack| - 1]
  {
    var k :| 0 <= k < |s.stack| && s.stack[k] == target;
    ScanSeesPrereqed(s.stack, s.prereqed, target, k);
  }

  lemma StackIsPath(c: Scope, s: State, i: nat)
    requires Colored(c, s) && Chained(c, s) && i < |s.stack|
    ensures Reaches(c, s.stack[i], s.stack[|s.stack| - 1])
  {
    hide Edge, Reaches;
    forall k | 0 <= k < |s.stack| ensures s.stack[k] in c.pool {
      var p := s.stack[k];
      assert p in s.stack;
    }
    assert IsPath(c, s.stack);
    SliceReaches(c, s.stack, i, |s.stack| - 1);
  }

  lemma CountedLoopIsCycle(c: Scope, s: State, a: Alt)
    requires Colored(c, s) && Chained(c, s) && s.stack != []
    requires a in Edges(c.g, s.stack[|s.stack| - 1]) && Followed(c.mode, a)
    requires a.pkg in s.stack && a.pkg != s.stack[|s.stack| - 1]
    ensures HasCycle(c)
  {
    var k :| 0 <= k < |s.stack| && s.stack[k] == a.pkg;
    StackIsPath(c, s, k);
    EdgesAreRequired(c.g, s.stack[|s.stack| - 1]);
    EdgeReaches(c, s.stack[|s.stack| - 1], a.pkg);
  }

  lemma EnterKeeps(c: Scope, s: State, p: Pkg)
    requires Inv(c, s) && Enterable(c, s, p) && Entries(c.g, p) != []
    ensures Inv(c, Enter(c.g, s, p))
  {
    var r := Enter(c.g, s, p);
    forall i | 0 <= i < |r.stack| - 1 ensures Edge(c, r.stack[i], r.stack[i + 1]) {
      assert i < |s.stack| - 1 ==> r.stack[i + 1] == s.stack[i + 1];
    }
  }

  /** The state when p is blackened: its requirements are all dealt with. */
  ghost predicate ReadyToLeave(c: Scope, s: State, p: Pkg) {
    && s.stack != [] && s.stack[|s.stack| - 1] == p
    && (forall a :: a in Edges(c.g, p) ==> Handled(c, s, a))
  }

  lemma ReadyReaches(c: Scope, s: State, p: Pkg, v: Pkg)
    requires Inv(c, s) && ReadyToLeave(c, s, p) && Edge(c, p, v)
    ensures v in s.ordered || Reaches(c, v, p)
    ensures v in s.ordered || v in s.stack
    ensures c.mode != AllRequires && s.nerrors == 0 ==> v in s.ordered || v == p
  {
    var a :| Requires(c.g, p, a) && a.pkg == v && Followed(c.mode, a);
    EdgesAreRequired(c.g, p);
    assert Handled(c, s, a);
    if v !in s.ordered {
      var k :| 0 <= k < |s.stack| && s.stack[k] == v;
      StackIsPath(c, s, k);
    }
  }

  lemma LeaveJudged(c: Scope, s: State, r: State, p: Pkg)
    requires Judged(c, s) && r.ordered == s.ordered + [p] && r.nerrors == s.nerrors
    requires forall v :: Edge(c, p, v) ==> v in s.ordered || Reaches(c, v, p)
    requires c.mode != AllRequires && s.nerrors == 0 ==> forall v :: Edge(c, p, v) ==> v in s.ordered || v == p
    ensures Judged(c, r)
  {
    var n := |s.ordered|;
    assert r.ordered[..n] == s.ordered;
    forall j, v | 0 <= j < |r.ordered| && Edge(c, r.ordered[j], v)
      ensures v in r.ordered[..j] || Reaches(c, v, r.ordered[j])
      ensures c.mode != AllRequires && r.nerrors == 0 ==> v == r.ordered[j] || v in r.ordered[..j]
    {
      if j < n {
        assert r.ordered[j] == s.ordered[j] && r.ordered[..j] == s.ordered[..j];
      }
    }
  }

  lemma LeaveKeeps(c: Scope, before: State, s: State, p: Pkg)
    requires Inv(c, before) && Inv(c, s) && Enterable(c, before, p)
    requires s.stack == before.stack + [p] && ReadyToLeave(c, s, p)
    ensures Inv(c, Leave(s, before.stack, p))
  {
    hide Reaches, Edge, PostOrdered, Respects, HasCycle;
    var r := Leave(s, before.stack, p);
    forall v | Edge(c, p, v)
      ensures v in s.ordered || Reaches(c, v, p)
      ensures c.mode != AllRequires && s.nerrors == 0 ==> v in s.ordered || v == p
    {
      ReadyReaches(c, s, p, v);
    }
    LeaveJudged(c, s, r, p);
    assert p !in s.ordered by { assert p in s.stack; }
    assert forall i :: 0 <= i < |r.stack| ==> r.stack[i] == s.stack[i];
  }

  /** What a visit promises. */
  ghost predicate Visited(c: Scope, s: State, p: Pkg, r: State) {
    && Inv(c, r) && Grows(s, r) && |s.ordered| < |r.ordered|
    && r.ordered[|r.ordered| - 1] == p
    && (forall v :: Edge(c, p, v) ==> v == p || v in r.ordered[..|r.ordered| - 1] || v in s.stack)
  }

  lemma {:induction false} VisitKeeps(c: Scope, s: State, p: Pkg)
    requires Inv(c, s) && Enterable(c, s, p)
    ensures Visited(c, s, p, Visit(c.g, c.mode, s, p))
    decreases |Whites(s.color)|, 0, 0
  {
    if Entries(c.g, p) == [] {
      LeafKeeps(c, s, p);
    } else {
      hide Inv, Reaches, Edge, Handled, Visited, Enterable;
      var entered := Enter(c.g, s, p);
      assert Whites(entered.color) < Whites(s.color) by {
        EnterDarkens(c, s, p);
      }
      WhitesShrink(entered.color, s.color);
      EnterKeeps(c, s, p);
      VisitEdgesKeep(c, entered, Edges(c.g, p));
      InnerKeeps(c, s, p, VisitEdges(c.g, c.mode, entered, Edges(c.g, p)));
    }
  }

  lemma EnterDarkens(c: Scope, s: State, p: Pkg)
    requires Enterable(c, s, p)
    ensures Whites(Enter(c.g, s, p).color) < Whites(s.color)
  {
    assert p in Whites(s.color) && p !in Whites(Enter(c.g, s, p).color);
  }

  lemma NoEdges(c: Scope, p: Pkg)
    requires Entries(c.g, p) == []
    ensures forall v :: !Edge(c, p, v)
  {
  }

  /** A package without requirements is blackened at once. */
  lemma LeafIsBlackened(c: Scope, s: State, p: Pkg)
    requires ColorOf(s.color, p) == White && Entries(c.g, p) == []
    ensures Visit(c.g, c.mode, s, p) ==
            s.(color := s.color[p := Gray][p := Black], prereqed := s.prereqed - {p}, ordered := s.ordered + [p])
  {
    var entered := Enter(c.g, s, p);
    assert Edges(c.g, p) == [];
    assert VisitEdges(c.g, c.mode, entered, Edges(c.g, p)) == entered;
  }

  lemma LeafColored(c: Scope, s: State, p: Pkg)
    requires Colored(c, s) && Chained(c, s) && Enterable(c, s, p)
    ensures var r := s.(color := s.color[p := Gray][p := Black], prereqed := s.prereqed - {p}, ordered := s.ordered + [p]);
            Colored(c, r) && Chained(c, r)
  {
    hide Edge;
    assert p !in s.stack && p !in s.ordered;
  }

  lemma LeafKeeps(c: Scope, s: State, p: Pkg)
    requires Inv(c, s) && Enterable(c, s, p) && Entries(c.g, p) == []
    ensures Visited(c, s, p, Visit(c.g, c.mode, s, p))
  {
    NoEdges(c, p);
    LeafIsBlackened(c, s, p);
    LeafColored(c, s, p);
    hide Colored, Chained, Judged, Enterable, Edge, Reaches, Visit;
    var r := Visit(c.g, c.mode, s, p);
    LeaveJudged(c, s, r, p);
    assert r.ordered[..|s.ordered|] == s.ordered;
  }

  lemma InnerKeeps(c: Scope, s: State, p: Pkg, done: State)
    requires Inv(c, s) && Enterable(c, s, p) && Inv(c, done)
    requires done.stack == s.stack + [p] && s.ordered <= done.ordered && s.nerrors <= done.nerrors
    requires forall a :: a in Edges(c.g, p) ==> Handled(c, done, a)
    ensures Visited(c, s, p, Leave(done, s.stack, p))
  {
    hide Inv, Reaches, Edge, Handled, Enterable;
    LeaveKeeps(c, s, done, p);
    var r := Leave(done, s.stack, p);
    assert r.ordered[..|done.ordered|] == done.ordered;
    forall v | Edge(c, p, v) ensures v == p || v in done.ordered || v in s.stack {
      ReadyReaches(c, done, p, v);
    }
  }

  lemma {:induction false} VisitEdgesKeep(c: Scope, s: State, edges: seq<Alt>)
    requires Inv(c, s) && s.stack != []
    requires forall a :: a in edges ==> a in Edges(c.g, s.stack[|s.stack| - 1])
    ensures var r := VisitEdges(c.g, c.mode, s, edges);
            Inv(c, r) && Grows(s, r) && forall a :: a in edges ==> Handled(c, r, a)
    decreases |Whites(s.color)|, |edges|
  {
    if edges != [] {
      var next := VisitEdge(c.g, c.mode, s, edges[0]);
      WhitesShrink(next.color, s.color);
      assert edges[0] in edges;
      VisitEdgeKeeps(c, s, edges[0]);
      assert forall a :: a in edges[1..] ==> a in edges;
      VisitEdgesKeep(c, next, edges[1..]);
    }
  }

  lemma {:induction false} VisitEdgeKeeps(c: Scope, s: State, a: Alt)
    requires Inv(c, s) && s.stack != [] && a in Edges(c.g, s.stack[|s.stack| - 1])
    ensures var r := VisitEdge(c.g, c.mode, s, a);
            Inv(c, r) && Grows(s, r) && Handled(c, r, a)
    decreases |Whites(s.color)|, 0, 1
  {
    match ColorOf(s.color, a.pkg)
    case NoColor =>
    case White =>
      var marked := s.(prereqed := if Flagged(c.mode, a) then s.prereqed + {a.pkg} else s.prereqed - {a.pkg});
      assert a.pkg !in s.stack;
      assert Inv(c, marked);
      if Followed(c.mode, a) {
        EdgesAreRequired(c.g, s.stack[|s.stack| - 1]);
        VisitKeeps(c, marked, a.pkg);
      }
    case Black =>
    case Gray =>
      if Flagged(c.mode, a) {
        GrayIsLoop(c, s, a.pkg);
        if IsLoop(s, a.pkg) {
          CountedLoopIsCycle(c, s, a);
        }
      }
  }

  // ----- one whole pass

  ghost function PoolOf(pkgs: seq<Pkg>): set<Pkg> {
    set p | p in pkgs
  }

  /** Nothing is white or gray: no pass is running. */
  ghost predicate Settled(color: map<Pkg, Color>) {
    forall p :: ColorOf(color, p) == NoColor || ColorOf(color, p) == Black
  }

  ghost predicate Before(s: seq<Pkg>, v: Pkg, u: Pkg) {
    exists i, j :: 0 <= i < j < |s| && s[i] == v && s[j] == u
  }

  ghost predicate Permutes(s: seq<Pkg>, t: seq<Pkg>) {
    Distinct(s) && |s| == |t| && multiset(s) == multiset(t)
  }

  lemma {:induction false} CleanColorsAt(color: map<Pkg, Color>, pkgs: seq<Pkg>, p: Pkg)
    ensures ColorOf(CleanColors(color, pkgs), p) == if p in pkgs then White else ColorOf(color, p)
    decreases |pkgs|
  {
    if pkgs != [] {
      CleanColorsAt(color[pkgs[0] := White], pkgs[1..], p);
    }
  }

  lemma StartInv(c: Scope, color: map<Pkg, Color>, prereqed: set<Pkg>, pkgs: seq<Pkg>)
    requires Settled(color) && c.pool == PoolOf(pkgs)
    ensures Inv(c, Start(color, prereqed, pkgs))
    ensures forall p :: p in pkgs ==> ColorOf(Start(color, prereqed, pkgs).color, p) == White
  {
    forall p
      ensures ColorOf(CleanColors(color, pkgs), p) == if p in pkgs then White else ColorOf(color, p)
    {
      CleanColorsAt(color, pkgs, p);
    }
  }

  lemma {:induction false} RootsKeep(c: Scope, s: State, roots: seq<Pkg>)
    requires Inv(c, s) && s.stack == []
    requires forall p :: p in roots ==> p in c.pool
    ensures var r := VisitRoots(c.g, c.mode, s, roots);
            Inv(c, r) && Grows(s, r) && forall p :: p in roots ==> p in r.ordered
    decreases |roots|
  {
    if roots != [] {
      var p := roots[0];
      assert p in roots && forall q :: q in roots[1..] ==> q in roots;
      if ColorOf(s.color, p) == White {
        VisitKeeps(c, s, p);
        RootsKeep(c, Visit(c.g, c.mode, s, p), roots[1..]);
      } else {
        RootsKeep(c, s, roots[1..]);
      }
    }
  }

  lemma {:induction false} DistinctMultiset(s: seq<Pkg>)
    requires Distinct(s)
    ensures forall p :: multiset(s)[p] == if p in s then 1 else 0
    ensures |multiset(s)| == |s|
  {
    if s != [] {
      var init := s[..|s| - 1];
      DistinctMultiset(init);
      assert s == init + [s[|s| - 1]];
    }
  }

  lemma SameElementsPermute(s: seq<Pkg>, t: seq<Pkg>)
    requires Distinct(s) && Distinct(t) && forall p :: p in s <==> p in t
    ensures Permutes(s, t)
  {
    DistinctMultiset(s);
    DistinctMultiset(t);
    assert multiset(s) == multiset(t);
  }

  lemma PassInv(g: Graph, mode: Mode, color: map<Pkg, Color>, prereqed: set<Pkg>, pkgs: seq<Pkg>)
    requires Distinct(pkgs) && Settled(color)
    ensures var r := DoOrder(g, mode, color, prereqed, pkgs);
            && Inv(Scope(g, mode, PoolOf(pkgs)), r)
            && Permutes(r.ordered, pkgs) && PoolOf(r.ordered) == PoolOf(pkgs)
            && r.stack == [] && Settled(r.color)
  {
    var c := Scope(g, mode, PoolOf(pkgs));
    var s := Start(color, prereqed, pkgs);
    var r := DoOrder(g, mode, color, prereqed, pkgs);
    StartInv(c, color, prereqed, pkgs);
    RootsKeep(c, s, pkgs);
    SameElementsPermute(r.ordered, pkgs);
  }

  lemma PostOrderedBefore(c: Scope, s: seq<Pkg>, u: Pkg, v: Pkg)
    requires PostOrdered(c, s) && u in s && Edge(c, u, v) && !Reaches(c, v, u)
    ensures Before(s, v, u)
  {
    var j :| 0 <= j < |s| && s[j] == u;
    var i :| 0 <= i < j && s[i] == v;
  }

  lemma RespectedBefore(c: Scope, s: seq<Pkg>)
    requires Distinct(s) && c.pool == PoolOf(s)
    ensures Respects(c, s) <==> forall u, v :: Edge(c, u, v) && u != v ==> Before(s, v, u)
  {
    if Respects(c, s) {
      forall u, v | Edge(c, u, v) && u != v ensures Before(s, v, u) {
        var j :| 0 <= j < |s| && s[j] == u;
        var i :| 0 <= i < j && s[i] == v;
      }
    }
    if forall u, v :: Edge(c, u, v) && u != v ==> Before(s, v, u) {
      forall j, v | 0 <= j < |s| && Edge(c, s[j], v) ensures v == s[j] || v in s[..j] {
        if v != s[j] {
          assert Before(s, v, s[j]);
        }
      }
    }
  }

  /**
    The main theorem about one pass: on any graph the output is a permutation of the pool, a followed
    requirement comes before its requirer unless it leads back to it, and the flags are settled again.
   */
  lemma OnePass(g: Graph, mode: Mode, color: map<Pkg, Color>, prereqed: set<Pkg>, pkgs: seq<Pkg>)
    requires Distinct(pkgs) && Settled(color)
    ensures var c := Scope(g, mode, PoolOf(pkgs));
            var r := DoOrder(g, mode, color, prereqed, pkgs);
            && Permutes(r.ordered, pkgs)
            && Settled(r.color)
            && forall u, v :: Edge(c, u, v) && !Reaches(c, v, u) ==> Before(r.ordered, v, u)
  {
    var c := Scope(g, mode, PoolOf(pkgs));
    var r := DoOrder(g, mode, color, prereqed, pkgs);
    PassInv(g, mode, color, prereqed, pkgs);
    forall u, v | Edge(c, u, v) && !Reaches(c, v, u) ensures Before(r.ordered, v, u) {
      assert u in PoolOf(r.ordered);
      PostOrderedBefore(c, r.ordered, u, v);
    }
  }

  /**
    Loop detection is exact: a flagged pass counts no loop exactly when no two packages of the pool
    require each other through flagged requirements, and exactly when its output respects all of these.
    The unflagged pass never counts a loop.
   */
  lemma LoopsCounted(g: Graph, mode: Mode, color: map<Pkg, Color>, prereqed: set<Pkg>, pkgs: seq<Pkg>)
    requires Distinct(pkgs) && Settled(color)
    ensures var c := Scope(g, mode, PoolOf(pkgs));
            var r := DoOrder(g, mode, color, prereqed, pkgs);
            && (mode == AllRequires ==> r.nerrors == 0)
            && (mode != AllRequires ==> (r.nerrors == 0 <==> !HasCycle(c)))
            && (mode != AllRequires ==> (r.nerrors == 0 <==> Respects(c, r.ordered)))
  {
    var c := Scope(g, mode, PoolOf(pkgs));
    var r := DoOrder(g, mode, color, prereqed, pkgs);
    PassInv(g, mode, color, prereqed, pkgs);
    if Respects(c, r.ordered) {
      RespectedIsAcyclic(c, r.ordered);
    }
  }

  // ----- when a pass changes nothing

  /** Every requirement to be followed is already in the output, or is the current package itself. */
  lemma {:induction false} IdleEdges(c: Scope, s: State, edges: seq<Alt>)
    requires Inv(c, s) && s.stack != []
    requires forall a :: a in edges ==> Followed(c.mode, a) && a.pkg in c.pool ==>
               a.pkg in s.ordered || a.pkg == s.stack[|s.stack| - 1]
    ensures var r := VisitEdges(c.g, c.mode, s, edges);
            r.color == s.color && r.ordered == s.ordered && r.nerrors == s.nerrors
    decreases |edges|
  {
    if edges != [] {
      var a := edges[0];
      assert a in edges && forall b :: b in edges[1..] ==> b in edges;
      var next := VisitEdge(c.g, c.mode, s, a);
      if ColorOf(s.color, a.pkg) == Gray && Flagged(c.mode, a) {
        GrayIsLoop(c, s, a.pkg);
      }
      assert next.color == s.color && next.ordered == s.ordered && next.nerrors == s.nerrors && next.stack == s.stack;
      assert Inv(c, next);
      IdleEdges(c, next, edges[1..]);
    }
  }

  lemma IdleVisit(c: Scope, s: State, p: Pkg)
    requires Inv(c, s) && s.stack == [] && Enterable(c, s, p)
    requires forall v :: Edge(c, p, v) ==> v == p || v in s.ordered
    ensures Visit(c.g, c.mode, s, p).ordered == s.ordered + [p]
  {
    var entered := Enter(c.g, s, p);
    if Entries(c.g, p) == [] {
      assert VisitEdges(c.g, c.mode, entered, Edges(c.g, p)) == entered;
    } else {
      EnterKeeps(c, s, p);
      forall a | a in Edges(c.g, p) && Followed(c.mode, a) && a.pkg in c.pool
        ensures a.pkg in entered.ordered || a.pkg == p
      {
        EdgesAreRequired(c.g, p);
        assert Edge(c, p, a.pkg);
      }
      IdleEdges(c, entered, Edges(c.g, p));
    }
  }

  lemma {:induction false} IdleRoots(c: Scope, s: State, pkgs: seq<Pkg>, i: nat)
    requires Distinct(pkgs) && c.pool == PoolOf(pkgs) && i <= |pkgs|
    requires Inv(c, s) && s.stack == [] && s.ordered == pkgs[..i] && Respects(c, pkgs)
    ensures VisitRoots(c.g, c.mode, s, pkgs[i..]).ordered == pkgs
    decreases |pkgs| - i
  {
    if i < |pkgs| {
      hide Inv, Respects, Edge, Reaches;
      var p := pkgs[i];
      assert p in c.pool && p !in pkgs[..i];
      RootIsWhite(c, s, p);
      RespectedUpTo(c, pkgs, i);
      IdleVisit(c, s, p);
      VisitKeeps(c, s, p);
      assert pkgs[..i] + [p] == pkgs[..i + 1];
      assert pkgs[i..][1..] == pkgs[i + 1..];
      IdleRoots(c, Visit(c.g, c.mode, s, p), pkgs, i + 1);
    }
  }

  lemma RespectedUpTo(c: Scope, pkgs: seq<Pkg>, i: nat)
    requires Respects(c, pkgs) && i < |pkgs|
    ensures forall v :: Edge(c, pkgs[i], v) ==> v == pkgs[i] || v in pkgs[..i]
  {
  }

  /** A root that is not in the output yet is white. */
  lemma RootIsWhite(c: Scope, s: State, p: Pkg)
    requires Inv(c, s) && s.stack == [] && p in c.pool && p !in s.ordered
    ensures ColorOf(s.color, p) == White && Enterable(c, s, p)
  {
  }

  lemma UnchangedRoot(c: Scope, s: State, pkgs: seq<Pkg>, i: nat)
    requires Distinct(pkgs) && c.pool == PoolOf(pkgs) && i < |pkgs|
    requires Inv(c, s) && s.stack == [] && s.ordered == pkgs[..i]
    requires VisitRoots(c.g, c.mode, s, pkgs[i..]).ordered == pkgs
    ensures ColorOf(s.color, pkgs[i]) == White
    ensures var r := Visit(c.g, c.mode, s, pkgs[i]);
            && Inv(c, r) && r.ordered == pkgs[..i + 1]
            && VisitRoots(c.g, c.mode, r, pkgs[i + 1..]).ordered == pkgs
            && forall v :: Edge(c, pkgs[i], v) ==> v == pkgs[i] || v in pkgs[..i]
  {
    hide Inv, Edge, Reaches;
    var p := pkgs[i];
    assert p in c.pool && p !in pkgs[..i];
    RootIsWhite(c, s, p);
    var r := Visit(c.g, c.mode, s, p);
    VisitKeeps(c, s, p);
    assert pkgs[i..][1..] == pkgs[i + 1..];
    forall q | q in pkgs[i + 1..] ensures q in c.pool { assert q in pkgs; }
    RootsKeep(c, r, pkgs[i + 1..]);
    assert pkgs[|r.ordered| - 1] == p;
    assert r.ordered[..i] == pkgs[..i];
  }

  lemma {:induction false} UnchangedRootsRespect(c: Scope, s: State, pkgs: seq<Pkg>, i: nat)
    requires Distinct(pkgs) && c.pool == PoolOf(pkgs) && i <= |pkgs|
    requires Inv(c, s) && s.stack == [] && s.ordered == pkgs[..i]
    requires VisitRoots(c.g, c.mode, s, pkgs[i..]).ordered == pkgs
    ensures forall j, v :: i <= j < |pkgs| && Edge(c, pkgs[j], v) ==> v == pkgs[j] || v in pkgs[..j]
    decreases |pkgs| - i
  {
    if i < |pkgs| {
      UnchangedRoot(c, s, pkgs, i);
      UnchangedRootsRespect(c, Visit(c.g, c.mode, s, pkgs[i]), pkgs, i + 1);
    }
  }

  /** A pass leaves a sequence as it is exactly when the sequence already respects the followed requirements. */
  lemma UnchangedIffRespected(g: Graph, mode: Mode, color: map<Pkg, Color>, prereqed: set<Pkg>, pkgs: seq<Pkg>)
    requires Distinct(pkgs) && Settled(color)
    ensures DoOrder(g, mode, color, prereqed, pkgs).ordered == pkgs <==> Respects(Scope(g, mode, PoolOf(pkgs)), pkgs)
  {
    var c := Scope(g, mode, PoolOf(pkgs));
    var s := Start(color, prereqed, pkgs);
    StartInv(c, color, prereqed, pkgs);
    assert pkgs[..0] == [] && pkgs[0..] == pkgs;
    if Respects(c, pkgs) {
      IdleRoots(c, s, pkgs, 0);
    }
    if DoOrder(g, mode, color, prereqed, pkgs).ordered == pkgs {
      UnchangedRootsRespect(c, s, pkgs, 0);
    }
  }

  // ----- the two passes together

  lemma FlaggedEdgeIsEdge(g: Graph, mode: Mode, pool: set<Pkg>, u: Pkg, v: Pkg)
    requires Edge(Scope(g, mode, pool), u, v)
    ensures Edge(Scope(g, AllRequires, pool), u, v)
  {
  }

  /**
    The final order is a permutation of the pool; it respects every flagged requirement exactly when no
    loop was counted; and it respects every requirement of any kind exactly when no two packages of the
    pool require each other: the second pass never spoils what the first one achieved.
   */
  lemma TwoPasses(g: Graph, t: OrderType, color: map<Pkg, Color>, prereqed: set<Pkg>, pkgs: seq<Pkg>)
    requires Distinct(pkgs) && Settled(color)
    ensures var r := PackagesOrder(g, t, color, prereqed, pkgs);
            var flagged := Scope(g, FlagOf(t), PoolOf(pkgs));
            var all := Scope(g, AllRequires, PoolOf(pkgs));
            && Permutes(r.ordered, pkgs) && Settled(r.color)
            && (r.nerrors == 0 <==> !HasCycle(flagged))
            && (r.nerrors == 0 <==> Respects(flagged, r.ordered))
            && (Respects(all, r.ordered) <==> !HasCycle(all))
            && forall u, v :: Edge(flagged, u, v) && !Reaches(flagged, v, u) ==> Before(r.ordered, v, u)
  {
    var all := Scope(g, AllRequires, PoolOf(pkgs));
    var flagged := Scope(g, FlagOf(t), PoolOf(pkgs));
    var first := DoOrder(g, AllRequires, color, prereqed, pkgs);
    var r := PackagesOrder(g, t, color, prereqed, pkgs);
    PassInv(g, AllRequires, color, prereqed, pkgs);
    PassInv(g, FlagOf(t), first.color, first.prereqed, first.ordered);
    OnePass(g, FlagOf(t), first.color, first.prereqed, first.ordered);
    LoopsCounted(g, FlagOf(t), first.color, first.prereqed, first.ordered);
    if !HasCycle(all) {
      AcyclicPassRespects(all, first);
      forall j, v | 0 <= j < |first.ordered| && Edge(flagged, first.ordered[j], v)
        ensures v == first.ordered[j] || v in first.ordered[..j]
      {
        FlaggedEdgeIsEdge(g, FlagOf(t), PoolOf(pkgs), first.ordered[j], v);
      }
      UnchangedIffRespected(g, FlagOf(t), first.color, first.prereqed, first.ordered);
    }
    if Respects(all, r.ordered) {
      RespectedIsAcyclic(all, r.ordered);
    }
  }

  /** The kind of requirement that an order of this type goes by. */
  predicate Wanted(t: OrderType, a: Alt) {
    if t.Install? then a.prereq else a.prereqUn
  }

  /**
    A package in the pool that an entry of another one lists, as its head or as an alternative, for installing
    by a Requires(pre) and for uninstalling by a Requires(un), goes first, whenever it does not lead back over
    such requirements; if no loop is counted, in any case.
   */
  lemma ListedFirst(g: Graph, t: OrderType, color: map<Pkg, Color>, prereqed: set<Pkg>, pkgs: seq<Pkg>,
                    u: Pkg, e: Entry, a: Alt)
    requires Distinct(pkgs) && Settled(color) && u in pkgs && a.pkg in pkgs
    requires e in Entries(g, u) && (a == e.head || a in e.adds) && Wanted(t, a) && a.pkg != u
    ensures var r := PackagesOrder(g, t, color, prereqed, pkgs);
            r.nerrors == 0 || !Reaches(Scope(g, FlagOf(t), PoolOf(pkgs)), a.pkg, u) ==> Before(r.ordered, a.pkg, u)
  {
    var flagged := Scope(g, FlagOf(t), PoolOf(pkgs));
    assert Requires(g, u, a);
    assert Edge(flagged, u, a.pkg);
    TwoPasses(g, t, color, prereqed, pkgs);
    var ordered := PackagesOrder(g, t, color, prereqed, pkgs).ordered;
    assert PoolOf(ordered) == PoolOf(pkgs) by {
      assert forall p :: p in ordered <==> p in multiset(ordered);
      assert forall p :: p in pkgs <==> p in multiset(pkgs);
    }
    RespectedBefore(flagged, ordered);
  }

  lemma AcyclicPassRespects(c: Scope, s: State)
    requires Inv(c, s) && !HasCycle(c)
    ensures Respects(c, s.ordered)
  {
    forall j, v | 0 <= j < |s.ordered| && Edge(c, s.ordered[j], v)
      ensures v == s.ordered[j] || v in s.ordered[..j]
    {
      EdgeReaches(c, s.ordered[j], v);
    }
  }

  // ----- the scan for a loop, on any stack

  ghost predicate LoopFrom(stack: seq<Pkg>, prereqed: set<Pkg>, target: Pkg, k: int) {
    && 0 <= k < |stack| && (k == 0 || stack[k - 1] == target)
    && forall i :: k <= i < |stack| ==> stack[i] != target && stack[i] in prereqed
  }

  /** The packages above the target, or all if it is not there, are counted and have to be prereqed, each of them. */
  lemma {:induction false} LoopExactly(stack: seq<Pkg>, prereqed: set<Pkg>, target: Pkg)
    ensures var (nn, nprereqs) := StackScan(stack, prereqed, target);
            && nprereqs <= nn
            && (stack == [] || stack[|stack| - 1] == target <==> nn == 0)
            && (nn > 0 && nn == nprereqs <==> exists k :: LoopFrom(stack, prereqed, target, k))
    decreases |stack|
  {
    if stack != [] && stack[|stack| - 1] != target && stack[|stack| - 1] in prereqed {
      var n, below := |stack| - 1, stack[..|stack| - 1];
      LoopExactly(below, prereqed, target);
      if below == [] || below[n - 1] == target {
        assert LoopFrom(stack, prereqed, target, n);
      } else {
        if k :| LoopFrom(below, prereqed, target, k) { assert LoopFrom(stack, prereqed, target, k); }
        forall k | LoopFrom(stack, prereqed, target, k) ensures LoopFrom(below, prereqed, target, k) {
          LoopBelow(stack, prereqed, target, k);
        }
      }
    }
  }

  lemma LoopBelow(stack: seq<Pkg>, prereqed: set<Pkg>, target: Pkg, k: int)
    requires LoopFrom(stack, prereqed, target, k) && |stack| > 1 && stack[|stack| - 2] != target
    ensures LoopFrom(stack[..|stack| - 1], prereqed, target, k)
  {
    var below := stack[..|stack| - 1];
    assert below[|below| - 1] == stack[|stack| - 2];
    forall i | k <= i < |below| ensures below[i] != target && below[i] in prereqed { assert below[i] == stack[i]; }
  }

  // ----- flags left behind

  /** Only packages being visited have the prereqed bit. */
  ghost predicate BitsAreGray(pool: set<Pkg>, s: State) {
    forall q :: q in pool && q in s.prereqed ==> ColorOf(s.color, q) == Gray
  }

  lemma {:induction false} VisitClears(g: Graph, mode: Mode, pool: set<Pkg>, s: State, p: Pkg)
    requires ColorOf(s.color, p) == White && BitsAreGray(pool, s.(prereqed := s.prereqed - {p}))
    ensures BitsAreGray(pool, Visit(g, mode, s, p))
    decreases |Whites(s.color)|, 0, 0
  {
    var entered := Enter(g, s, p);
    assert Whites(entered.color) < Whites(s.color) by {
      assert p in Whites(s.color) && p !in Whites(entered.color);
    }
    WhitesShrink(entered.color, s.color);
    EdgesClear(g, mode, pool, entered, Edges(g, p));
  }

  lemma {:induction false} EdgesClear(g: Graph, mode: Mode, pool: set<Pkg>, s: State, edges: seq<Alt>)
    requires BitsAreGray(pool, s)
    ensures BitsAreGray(pool, VisitEdges(g, mode, s, edges))
    decreases |Whites(s.color)|, |edges|
  {
    if edges != [] {
      var a, next := edges[0], VisitEdge(g, mode, s, edges[0]);
      WhitesShrink(next.color, s.color);
      if ColorOf(s.color, a.pkg) == White && Followed(mode, a) {
        var marked := s.(prereqed := if Flagged(mode, a) then s.prereqed + {a.pkg} else s.prereqed - {a.pkg});
        VisitClears(g, mode, pool, marked, a.pkg);
      }
      EdgesClear(g, mode, pool, next, edges[1..]);
    }
  }

  lemma {:induction false} RootsClear(g: Graph, mode: Mode, pool: set<Pkg>, s: State, roots: seq<Pkg>)
    requires BitsAreGray(pool, s) && s.stack == []
    ensures BitsAreGray(pool, VisitRoots(g, mode, s, roots))
    decreases |roots|
  {
    if roots != [] {
      if ColorOf(s.color, roots[0]) == White {
        VisitClears(g, mode, pool, s, roots[0]);
        RootsClear(g, mode, pool, Visit(g, mode, s, roots[0]), roots[1..]);
      } else {
        RootsClear(g, mode, pool, s, roots[1..]);
      }
    }
  }

  /** A pass leaves no prereqed bit on the packages of the pool. */
  lemma PassClearsBits(g: Graph, mode: Mode, color: map<Pkg, Color>, prereqed: set<Pkg>, pkgs: seq<Pkg>)
    requires Distinct(pkgs) && Settled(color)
    ensures DoOrder(g, mode, color, prereqed, pkgs).prereqed !! PoolOf(pkgs)
  {
    RootsClear(g, mode, PoolOf(pkgs), Start(color, prereqed, pkgs), pkgs);
    PassInv(g, mode, color, prereqed, pkgs);
  }

  /** The same pass seen from two different pasts: only the flags outside the pool may differ. */
  ghost predicate Alike(c: Scope, s: State, t: State) {
    && s.stack == t.stack && s.ordered == t.ordered && s.nerrors == t.nerrors
    && (forall p :: p in c.pool ==> ColorOf(s.color, p) == ColorOf(t.color, p))
    && (forall p :: p in c.pool ==> (p in s.prereqed <==> p in t.prereqed))
  }

  lemma {:induction false} ScanAlike(stack: seq<Pkg>, m: set<Pkg>, n: set<Pkg>, target: Pkg)
    requires forall p :: p in stack ==> (p in m <==> p in n)
    ensures StackScan(stack, m, target) == StackScan(stack, n, target)
    decreases |stack|
  {
    if stack != [] {
      assert stack[|stack| - 1] in stack;
      ScanAlike(stack[..|stack| - 1], m, n, target);
    }
  }

  lemma {:induction false} VisitAlike(c: Scope, s: State, t: State, p: Pkg)
    requires Inv(c, s) && Inv(c, t) && Alike(c, s, t) && Enterable(c, s, p) && Enterable(c, t, p)
    ensures Alike(c, Visit(c.g, c.mode, s, p), Visit(c.g, c.mode, t, p))
    decreases |Whites(s.color)|, 0, 0
  {
    hide Reaches, Colored, Chained, Judged;
    var es, et := Enter(c.g, s, p), Enter(c.g, t, p);
    if Entries(c.g, p) == [] {
      assert Edges(c.g, p) == [];
      assert VisitEdges(c.g, c.mode, es, []) == es && VisitEdges(c.g, c.mode, et, []) == et;
    } else {
      assert Whites(es.color) < Whites(s.color) by {
        assert p in Whites(s.color) && p !in Whites(es.color);
      }
      WhitesShrink(es.color, s.color);
      EnterKeeps(c, s, p);
      EnterKeeps(c, t, p);
      EdgesAlike(c, es, et, Edges(c.g, p));
    }
  }

  lemma {:induction false} EdgesAlike(c: Scope, s: State, t: State, edges: seq<Alt>)
    requires Inv(c, s) && Inv(c, t) && Alike(c, s, t) && s.stack != []
    requires forall a :: a in edges ==> a in Edges(c.g, s.stack[|s.stack| - 1])
    ensures Alike(c, VisitEdges(c.g, c.mode, s, edges), VisitEdges(c.g, c.mode, t, edges))
    decreases |Whites(s.color)|, |edges|
  {
    if edges != [] {
      assert edges[0] in edges && forall a :: a in edges[1..] ==> a in edges;
      var ns, nt := VisitEdge(c.g, c.mode, s, edges[0]), VisitEdge(c.g, c.mode, t, edges[0]);
      WhitesShrink(ns.color, s.color);
      EdgeAlike(c, s, t, edges[0]);
      VisitEdgeKeeps(c, s, edges[0]);
      VisitEdgeKeeps(c, t, edges[0]);
      EdgesAlike(c, ns, nt, edges[1..]);
    }
  }

  /** Marking a white package as prereqed or not, before it is entered, keeps everything. */
  lemma MarkKeepsInv(c: Scope, s: State, a: Alt)
    requires Inv(c, s) && s.stack != [] && a in Edges(c.g, s.stack[|s.stack| - 1]) && ColorOf(s.color, a.pkg) == White
    ensures var m := s.(prereqed := if Flagged(c.mode, a) then s.prereqed + {a.pkg} else s.prereqed - {a.pkg});
            Inv(c, m) && (Followed(c.mode, a) ==> Enterable(c, m, a.pkg))
  {
    hide Reaches;
    assert a.pkg !in s.stack;
    EdgesAreRequired(c.g, s.stack[|s.stack| - 1]);
  }

  lemma {:induction false} EdgeAlike(c: Scope, s: State, t: State, a: Alt)
    requires Inv(c, s) && Inv(c, t) && Alike(c, s, t) && s.stack != []
    requires a in Edges(c.g, s.stack[|s.stack| - 1])
    ensures Alike(c, VisitEdge(c.g, c.mode, s, a), VisitEdge(c.g, c.mode, t, a))
    decreases |Whites(s.color)|, 0, 1
  {
    match ColorOf(s.color, a.pkg)
    case NoColor =>
    case Black =>
    case White =>
      var ms := s.(prereqed := if Flagged(c.mode, a) then s.prereqed + {a.pkg} else s.prereqed - {a.pkg});
      var mt := t.(prereqed := if Flagged(c.mode, a) then t.prereqed + {a.pkg} else t.prereqed - {a.pkg});
      MarkKeepsInv(c, s, a);
      MarkKeepsInv(c, t, a);
      assert Alike(c, ms, mt);
      if Followed(c.mode, a) {
        VisitAlike(c, ms, mt, a.pkg);
      }
    case Gray =>
      ScanAlike(s.stack, s.prereqed, t.prereqed, a.pkg);
  }

  lemma {:induction false} RootsAlike(c: Scope, s: State, t: State, roots: seq<Pkg>)
    requires Inv(c, s) && Inv(c, t) && Alike(c, s, t) && s.stack == []
    requires forall p :: p in roots ==> p in c.pool
    ensures Alike(c, VisitRoots(c.g, c.mode, s, roots), VisitRoots(c.g, c.mode, t, roots))
    decreases |roots|
  {
    if roots != [] {
      var p := roots[0];
      assert p in roots && forall q :: q in roots[1..] ==> q in roots;
      if ColorOf(s.color, p) == White {
        VisitAlike(c, s, t, p);
        VisitKeeps(c, s, p);
        VisitKeeps(c, t, p);
        RootsAlike(c, Visit(c.g, c.mode, s, p), Visit(c.g, c.mode, t, p), roots[1..]);
      } else {
        RootsAlike(c, s, t, roots[1..]);
      }
    }
  }

  /** Black marks and prereqed bits that earlier passes left on any package never change a result. */
  lemma StaleFlagsIgnored(g: Graph, mode: Mode, pkgs: seq<Pkg>, color: map<Pkg, Color>, prereqed: set<Pkg>,
                          color': map<Pkg, Color>, prereqed': set<Pkg>)
    requires Distinct(pkgs) && Settled(color) && Settled(color')
    ensures var r, r' := DoOrder(g, mode, color, prereqed, pkgs), DoOrder(g, mode, color', prereqed', pkgs);
            r.ordered == r'.ordered && r.nerrors == r'.nerrors
  {
    var c := Scope(g, mode, PoolOf(pkgs));
    StartInv(c, color, prereqed, pkgs);
    StartInv(c, color', prereqed', pkgs);
    RootsAlike(c, Start(color, prereqed, pkgs), Start(color', prereqed', pkgs), pkgs);
  }
}
