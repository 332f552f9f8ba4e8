/** In which order a visit comes to what a package requires: entry by entry, the head and then the alternatives. */
module OrderWalk {
  import opened ReqGraph
  import opened OrderSpec
  import opened OrderTheorems

  /** The k-th package of an entry, the head being the first. */
  function Listed(e: Entry, k: nat): Alt
    requires k <= |e.adds|
  {
    if k == 0 then e.head else e.adds[k - 1]
  }

  ghost predicate IsPlace(es: seq<Entry>, i: int, k: int) {
    0 <= i < |es| && 0 <= k <= |es[i].adds|
  }

  /** Some place up to this one lists the package. */
  ghost predicate ListedUpTo(es: seq<Entry>, i: int, k: int, q: Pkg) {
    exists x, y :: IsPlace(es, x, y) && (x < i || (x == i && y <= k)) && Listed(es[x], y).pkg == q
  }

  /** White packages without requirements of their own, all of them to be followed. */
  ghost predicate Leaves(g: Graph, mode: Mode, color: map<Pkg, Color>, edges: seq<Alt>) {
    forall a :: a in edges ==> Entries(g, a.pkg) == [] && Followed(mode, a) &&
                               (ColorOf(color, a.pkg) == White || ColorOf(color, a.pkg) == Black)
  }

  lemma {:induction false} FollowInTwoSteps(g: Graph, mode: Mode, s: State, xs: seq<Alt>, ys: seq<Alt>)
    ensures VisitEdges(g, mode, s, xs + ys) == VisitEdges(g, mode, VisitEdges(g, mode, s, xs), ys)
    decreases |xs|
  {
    if xs == [] {
      assert xs + ys == ys;
    } else {
      assert (xs + ys)[1..] == xs[1..] + ys;
      FollowInTwoSteps(g, mode, VisitEdge(g, mode, s, xs[0]), xs[1..], ys);
    }
  }

  lemma LeafVisited(g: Graph, mode: Mode, s: State, a: Alt)
    requires Leaves(g, mode, s.color, [a])
    ensures var r := VisitEdge(g, mode, s, a);
            && (forall q :: ColorOf(r.color, q) == if q == a.pkg then Black else ColorOf(s.color, q))
            && r.ordered == if ColorOf(s.color, a.pkg) == White then s.ordered + [a.pkg] else s.ordered
  {
    assert a in [a];
    if ColorOf(s.color, a.pkg) == White {
      var marked := s.(prereqed := if Flagged(mode, a) then s.prereqed + {a.pkg} else s.prereqed - {a.pkg});
      assert Edges(g, a.pkg) == [];
      assert VisitEdges(g, mode, Enter(g, marked, a.pkg), []) == Enter(g, marked, a.pkg);
    }
  }

  ghost predicate Among(edges: seq<Alt>, q: Pkg) {
    exists a :: a in edges && a.pkg == q
  }

  lemma {:induction false} LeavesVisited(g: Graph, mode: Mode, s: State, edges: seq<Alt>)
    requires Leaves(g, mode, s.color, edges)
    ensures var r := VisitEdges(g, mode, s, edges);
            && s.ordered <= r.ordered
            && (forall q :: ColorOf(r.color, q) == if Among(edges, q) then Black else ColorOf(s.color, q))
            && (forall q :: Among(edges, q) && ColorOf(s.color, q) == White ==> q in r.ordered)
            && (forall q :: q in r.ordered ==> q in s.ordered || Among(edges, q))
    decreases |edges|
  {
    if edges != [] {
      var a, next := edges[0], VisitEdge(g, mode, s, edges[0]);
      assert forall b :: b in edges <==> b == a || b in edges[1..];
      LeafVisited(g, mode, s, a);
      LeavesVisited(g, mode, next, edges[1..]);
      assert VisitEdges(g, mode, s, edges) == VisitEdges(g, mode, next, edges[1..]);
      assert forall q :: Among(edges, q) <==> a.pkg == q || Among(edges[1..], q);
      if ColorOf(s.color, a.pkg) == White {
        assert next.ordered[|s.ordered|] == a.pkg;
      }
    }
  }

  /** Of two leaves the one that the walk comes to first goes first. */
  lemma LeavesInOrder(g: Graph, mode: Mode, s: State, edges: seq<Alt>, n: nat, m: nat)
    requires Leaves(g, mode, s.color, edges) && n < m < |edges|
    requires ColorOf(s.color, edges[n].pkg) == White && ColorOf(s.color, edges[m].pkg) == White
    requires edges[m].pkg !in s.ordered && !Among(edges[..n + 1], edges[m].pkg)
    ensures Before(VisitEdges(g, mode, s, edges).ordered, edges[n].pkg, edges[m].pkg)
  {
    hide VisitEdges;
    var xs, ys := edges[..n + 1], edges[n + 1..];
    var mid, r := VisitEdges(g, mode, s, xs), VisitEdges(g, mode, s, edges);
    assert edges == xs + ys;
    FollowInTwoSteps(g, mode, s, xs, ys);
    LeavesVisited(g, mode, s, xs);
    assert xs[n] == edges[n] && ys[m - n - 1] == edges[m];
    assert Among(xs, edges[n].pkg) && Among(ys, edges[m].pkg);
    LeavesVisited(g, mode, mid, ys);
    var i :| 0 <= i < |mid.ordered| && mid.ordered[i] == edges[n].pkg;
    var k :| 0 <= k < |r.ordered| && r.ordered[k] == edges[m].pkg;
    assert edges[m].pkg !in mid.ordered;
    assert r.ordered[..|mid.ordered|] == mid.ordered;
    assert k >= |mid.ordered|;
  }

  // ----- from places to the walk

  /** The place of the walk that belongs to the k-th package of the i-th entry; only earlier ones are walked before. */
  lemma {:induction false} PlaceInWalk(es: seq<Entry>, i: nat, k: nat) returns (n: nat)
    requires IsPlace(es, i, k)
    ensures n < |Flatten(es)| && Flatten(es)[n] == Listed(es[i], k)
    ensures forall x :: 0 <= x <= n ==> ListedUpTo(es, i, k, Flatten(es)[x].pkg)
    ensures n == PlaceOf(es, i, k)
    decreases |es|
  {
    var first := [es[0].head] + es[0].adds;
    n := PlaceOf(es, i, k);
    assert Flatten(es) == first + Flatten(es[1..]);
    forall y | 0 <= y < |first| ensures IsPlace(es, 0, y) && Listed(es[0], y) == first[y] {}
    if i > 0 {
      var m := PlaceInWalk(es[1..], i - 1, k);
      forall x | 0 <= x <= n ensures ListedUpTo(es, i, k, Flatten(es)[x].pkg) {
        if x >= |first| {
          var q := Flatten(es)[x].pkg;
          assert q == Flatten(es[1..])[x - |first|].pkg;
          assert ListedUpTo(es[1..], i - 1, k, q);
          var a, b :| IsPlace(es[1..], a, b) && (a < i - 1 || (a == i - 1 && b <= k)) && Listed(es[1..][a], b).pkg == q;
          assert IsPlace(es, a + 1, b) && es[1..][a] == es[a + 1];
        } else {
          assert IsPlace(es, 0, x);
        }
      }
    } else {
      forall x | 0 <= x <= n ensures ListedUpTo(es, i, k, Flatten(es)[x].pkg) {
        assert IsPlace(es, 0, x);
      }
    }
  }

  ghost function PlaceOf(es: seq<Entry>, i: nat, k: nat): nat
    requires IsPlace(es, i, k)
    decreases |es|
  {
    if i == 0 then k else 1 + |es[0].adds| + PlaceOf(es[1..], i - 1, k)
  }

  lemma {:induction false} PlacesAscend(es: seq<Entry>, i: nat, k: nat, j: nat, l: nat)
    requires IsPlace(es, i, k) && IsPlace(es, j, l) && (i < j || (i == j && k < l))
    ensures PlaceOf(es, i, k) < PlaceOf(es, j, l)
    decreases |es|
  {
    if i > 0 { PlacesAscend(es[1..], i - 1, k, j - 1, l); }
  }

  /**
    A visit of p, whose entries list white packages without requirements, puts them in the order of the entries
    and, within an entry, the head before the alternatives in their order; p itself comes last.
   */
  lemma WalkOrder(g: Graph, mode: Mode, s: State, p: Pkg, i: nat, k: nat, j: nat, l: nat)
    requires ColorOf(s.color, p) == White
    requires forall a :: Requires(g, p, a) ==> a.pkg != p && Entries(g, a.pkg) == [] && Followed(mode, a) &&
                                               ColorOf(s.color, a.pkg) == White && a.pkg !in s.ordered
    requires var es := Entries(g, p);
             && IsPlace(es, i, k) && IsPlace(es, j, l) && (i < j || (i == j && k < l))
             && !ListedUpTo(es, i, k, Listed(es[j], l).pkg)
    ensures var es, r := Entries(g, p), Visit(g, mode, s, p);
            && Before(r.ordered, Listed(es[i], k).pkg, Listed(es[j], l).pkg)
            && Before(r.ordered, Listed(es[j], l).pkg, p)
  {
    var es, entered := Entries(g, p), Enter(g, s, p);
    var n := PlaceInWalk(es, i, k);
    var m := PlaceInWalk(es, j, l);
    PlacesAscend(es, i, k, j, l);
    var edges := Edges(g, p);
    forall a | a in edges[..n + 1] ensures a.pkg != edges[m].pkg {
      var x :| 0 <= x <= n && edges[x] == a;
      assert ListedUpTo(es, i, k, Flatten(es)[x].pkg);
    }
    hide *;
    RequiredAreLeaves(g, mode, s, p);
    assert Requires(g, p, edges[n]) && Requires(g, p, edges[m]);
    LeavesInOrder(g, mode, entered, edges, n, m);
    VisitEnds(g, mode, s, p);
    LeftLast(VisitEdges(g, mode, entered, edges).ordered, edges[n].pkg, edges[m].pkg, p);
  }

  lemma RequiredAreLeaves(g: Graph, mode: Mode, s: State, p: Pkg)
    requires forall a :: Requires(g, p, a) ==> a.pkg != p && Entries(g, a.pkg) == [] && Followed(mode, a) &&
                                               ColorOf(s.color, a.pkg) == White && a.pkg !in s.ordered
    ensures var entered, edges := Enter(g, s, p), Edges(g, p);
            && Leaves(g, mode, entered.color, edges) && entered.ordered == s.ordered
            && forall n :: 0 <= n < |edges| ==> Requires(g, p, edges[n]) && ColorOf(entered.color, edges[n].pkg) == White
  {
    EdgesAreRequired(g, p);
    forall n | 0 <= n < |Edges(g, p)| ensures Requires(g, p, Edges(g, p)[n]) {
      assert Edges(g, p)[n] in Edges(g, p);
    }
  }

  lemma VisitEnds(g: Graph, mode: Mode, s: State, p: Pkg)
    requires ColorOf(s.color, p) == White
    ensures Visit(g, mode, s, p).ordered == VisitEdges(g, mode, Enter(g, s, p), Edges(g, p)).ordered + [p]
  {
  }

  lemma LeftLast(s: seq<Pkg>, v: Pkg, u: Pkg, p: Pkg)
    requires Before(s, v, u)
    ensures Before(s + [p], v, u) && Before(s + [p], u, p)
  {
    var i, j :| 0 <= i < j < |s| && s[i] == v && s[j] == u;
    var r := s + [p];
    assert r[i] == v && r[j] == u && r[|s|] == p;
  }

  // ----- how far the order of the pool is kept

  lemma ReachesTwice(c: Scope, u: Pkg, v: Pkg, w: Pkg)
    requires Reaches(c, u, v) && Reaches(c, v, w)
    ensures Reaches(c, u, w)
  {
    var there :| PathFromTo(c, there, u, v);
    var more :| PathFromTo(c, more, v, w);
    var path := there + more[1..];
    forall i | 0 <= i < |path| - 1 ensures Edge(c, path[i], path[i + 1]) {
      if i < |there| - 1 {
        assert Edge(c, there[i], there[i + 1]);
      } else {
        assert Edge(c, more[i - |there| + 1], more[i - |there| + 2]);
      }
    }
    assert PathFromTo(c, path, u, w);
  }

  lemma ReachesSelf(c: Scope, u: Pkg)
    requires u in c.pool
    ensures Reaches(c, u, u)
  {
    assert PathFromTo(c, [u], u, u);
  }

  /** Whatever is new in the output, p leads to it. */
  ghost predicate NewFrom(c: Scope, s: State, r: State, p: Pkg) {
    forall q :: q in r.ordered && q !in s.ordered ==> Reaches(c, p, q)
  }

  lemma {:induction false} VisitReaches(c: Scope, s: State, p: Pkg)
    requires Inv(c, s) && Enterable(c, s, p)
    ensures NewFrom(c, s, Visit(c.g, c.mode, s, p), p)
    decreases |Whites(s.color)|, 0, 0
  {
    hide Reaches, Inv, Edge;
    var entered := Enter(c.g, s, p);
    ReachesSelf(c, p);
    VisitEnds(c.g, c.mode, s, p);
    if Entries(c.g, p) == [] {
      assert Edges(c.g, p) == [];
    } else {
      EnterDarkens(c, s, p);
      WhitesShrink(entered.color, s.color);
      EnterKeeps(c, s, p);
      EdgesReach(c, entered, Edges(c.g, p));
    }
  }

  lemma {:induction false} EdgesReach(c: Scope, s: State, edges: seq<Alt>)
    requires Inv(c, s) && s.stack != []
    requires forall a :: a in edges ==> a in Edges(c.g, s.stack[|s.stack| - 1])
    ensures NewFrom(c, s, VisitEdges(c.g, c.mode, s, edges), s.stack[|s.stack| - 1])
    decreases |Whites(s.color)|, |edges|
  {
    hide Reaches, Inv, Edge;
    if edges != [] {
      var a, p := edges[0], s.stack[|s.stack| - 1];
      var next := VisitEdge(c.g, c.mode, s, a);
      assert a in edges && forall b :: b in edges[1..] ==> b in edges;
      WhitesShrink(next.color, s.color);
      VisitEdgeKeeps(c, s, a);
      EdgeReached(c, s, a);
      EdgesReach(c, next, edges[1..]);
    }
  }

  lemma {:induction false} EdgeReached(c: Scope, s: State, a: Alt)
    requires Inv(c, s) && s.stack != [] && a in Edges(c.g, s.stack[|s.stack| - 1])
    ensures NewFrom(c, s, VisitEdge(c.g, c.mode, s, a), s.stack[|s.stack| - 1])
    decreases |Whites(s.color)|, 0, 1
  {
    hide Reaches, Inv;
    var p := s.stack[|s.stack| - 1];
    if ColorOf(s.color, a.pkg) == White && Followed(c.mode, a) {
      var marked := s.(prereqed := if Flagged(c.mode, a) then s.prereqed + {a.pkg} else s.prereqed - {a.pkg});
      MarkKeepsInv(c, s, a);
      VisitReaches(c, marked, a.pkg);
      EdgeReaches(c, p, a.pkg);
      forall q | q in Visit(c.g, c.mode, marked, a.pkg).ordered && q !in s.ordered ensures Reaches(c, p, q) {
        ReachesTwice(c, p, a.pkg, q);
      }
    }
  }

  /** After the first roots, everything in the output is one that some of them leads to. */
  lemma {:induction false} RootsReach(c: Scope, s: State, roots: seq<Pkg>, n: nat)
    requires Inv(c, s) && s.stack == [] && n <= |roots| && forall p :: p in roots ==> p in c.pool
    ensures var mid, r := VisitRoots(c.g, c.mode, s, roots[..n]), VisitRoots(c.g, c.mode, s, roots);
            && mid.ordered <= r.ordered && (forall k :: 0 <= k < n ==> roots[k] in mid.ordered)
            && forall q :: q in mid.ordered ==> q in s.ordered || exists k :: 0 <= k < n && Reaches(c, roots[k], q)
    decreases |roots|
  {
    hide Reaches, Inv, Edge, Visit;
    if n == 0 {
      assert roots[..0] == [];
      RootsKeep(c, s, roots);
    } else {
      var p := roots[0];
      assert p in roots && forall q :: q in roots[1..] ==> q in roots;
      assert roots[..n][1..] == roots[1..][..n - 1] && roots[..n][0] == p;
      var next := if ColorOf(s.color, p) == White then Visit(c.g, c.mode, s, p) else s;
      RootVisited(c, s, p);
      RootsReach(c, next, roots[1..], n - 1);
      var mid := VisitRoots(c.g, c.mode, next, roots[1..][..n - 1]);
      RootsKeep(c, next, roots[1..][..n - 1]);
      forall k | 0 <= k < n ensures roots[k] in mid.ordered {
        if k > 0 { assert roots[1..][k - 1] == roots[k]; }
      }
      forall q | q in mid.ordered && q !in s.ordered ensures exists k :: 0 <= k < n && Reaches(c, roots[k], q) {
        if q !in next.ordered {
          var k :| 0 <= k < n - 1 && Reaches(c, roots[1..][k], q);
          assert roots[1..][k] == roots[k + 1];
        }
      }
    }
  }

  lemma RootVisited(c: Scope, s: State, p: Pkg)
    requires Inv(c, s) && s.stack == [] && p in c.pool
    ensures var next := if ColorOf(s.color, p) == White then Visit(c.g, c.mode, s, p) else s;
            && Inv(c, next) && next.stack == [] && s.ordered <= next.ordered && p in next.ordered
            && forall q :: q in next.ordered && q !in s.ordered ==> Reaches(c, p, q)
  {
    if ColorOf(s.color, p) == White {
      VisitKeeps(c, s, p);
      VisitReaches(c, s, p);
    }
  }

  /**
    A pass keeps the order of the pool as far as it can: a package comes before one that stands in front of it
    in the pool only if that one, or one still further in front, leads to it.
   */
  lemma NoOvertaking(g: Graph, mode: Mode, color: map<Pkg, Color>, prereqed: set<Pkg>, pkgs: seq<Pkg>, i: nat, j: nat)
    requires Distinct(pkgs) && Settled(color) && i < j < |pkgs|
    requires Before(DoOrder(g, mode, color, prereqed, pkgs).ordered, pkgs[j], pkgs[i])
    ensures exists k :: 0 <= k <= i && Reaches(Scope(g, mode, PoolOf(pkgs)), pkgs[k], pkgs[j])
  {
    hide *;
    PassInv(g, mode, color, prereqed, pkgs);
    var r := DoOrder(g, mode, color, prereqed, pkgs).ordered;
    PermutesDistinct(r, pkgs);
    var s := PassUpTo(g, mode, color, prereqed, pkgs, i, pkgs[j]);
    InPrefix(s, r, pkgs[j], pkgs[i]);
  }

  /** The output after the root at i, and what led to w if it is in there. */
  lemma PassUpTo(g: Graph, mode: Mode, color: map<Pkg, Color>, prereqed: set<Pkg>, pkgs: seq<Pkg>, i: nat, w: Pkg)
    returns (s: seq<Pkg>)
    requires Distinct(pkgs) && Settled(color) && i < |pkgs|
    ensures s <= DoOrder(g, mode, color, prereqed, pkgs).ordered && pkgs[i] in s
    ensures w in s ==> exists k :: 0 <= k <= i && Reaches(Scope(g, mode, PoolOf(pkgs)), pkgs[k], w)
  {
    var c, start := Scope(g, mode, PoolOf(pkgs)), Start(color, prereqed, pkgs);
    s := VisitRoots(g, mode, start, pkgs[..i + 1]).ordered;
    StartInv(c, color, prereqed, pkgs);
    hide Reaches, Inv, Settled, Distinct, VisitRoots, CleanColors;
    RootsReach(c, start, pkgs, i + 1);
  }

  lemma PermutesDistinct(s: seq<Pkg>, t: seq<Pkg>)
    requires Permutes(s, t)
    ensures Distinct(s)
  {
  }

  lemma InPrefix(s: seq<Pkg>, r: seq<Pkg>, v: Pkg, u: Pkg)
    requires s <= r && Distinct(r) && Before(r, v, u) && u in s
    ensures v in s
  {
    var x, y :| 0 <= x < y < |r| && r[x] == v && r[y] == u;
    var z :| 0 <= z < |s| && s[z] == u;
    assert r[z] == u && z == y && s[x] == v;
  }

  lemma FlaggedReaches(g: Graph, mode: Mode, pool: set<Pkg>, u: Pkg, v: Pkg)
    requires Reaches(Scope(g, mode, pool), u, v)
    ensures Reaches(Scope(g, AllRequires, pool), u, v)
  {
    var path :| PathFromTo(Scope(g, mode, pool), path, u, v);
    forall i | 0 <= i < |path| - 1 ensures Edge(Scope(g, AllRequires, pool), path[i], path[i + 1]) {
      FlaggedEdgeIsEdge(g, mode, pool, path[i], path[i + 1]);
    }
    assert PathFromTo(Scope(g, AllRequires, pool), path, u, v);
  }

  /** Whoever stands at or before the place of u in the output of a pass is led to from the pool up to u. */
  lemma LedTo(c: Scope, pkgs: seq<Pkg>, s: seq<Pkg>, i: nat, x: Pkg)
    requires c.pool == PoolOf(pkgs) && i < |pkgs| && x in pkgs
    requires x == pkgs[i] || Before(s, x, pkgs[i])
    requires forall j :: i < j < |pkgs| && Before(s, pkgs[j], pkgs[i]) ==> exists k :: 0 <= k <= i && Reaches(c, pkgs[k], pkgs[j])
    ensures exists k :: 0 <= k <= i && Reaches(c, pkgs[k], x)
  {
    hide Reaches;
    var m :| 0 <= m < |pkgs| && pkgs[m] == x;
    ReachesSelf(c, x);
    if m > i && x != pkgs[i] {
      assert Before(s, pkgs[m], pkgs[i]);
    }
  }

  /**
    The same holds of the order that both passes give: a package overtakes another one only where that one, or
    one in front of it, leads to it over requirements of any kind.
   */
  lemma NoOvertakingTwice(g: Graph, t: OrderType, color: map<Pkg, Color>, prereqed: set<Pkg>, pkgs: seq<Pkg>, i: nat, j: nat)
    requires Distinct(pkgs) && Settled(color) && i < j < |pkgs|
    requires Before(PackagesOrder(g, t, color, prereqed, pkgs).ordered, pkgs[j], pkgs[i])
    ensures exists k :: 0 <= k <= i && Reaches(Scope(g, AllRequires, PoolOf(pkgs)), pkgs[k], pkgs[j])
  {
    hide Reaches, DoOrder;
    var all := Scope(g, AllRequires, PoolOf(pkgs));
    var first := DoOrder(g, AllRequires, color, prereqed, pkgs);
    PassInv(g, AllRequires, color, prereqed, pkgs);
    forall m | i < m < |pkgs| && Before(first.ordered, pkgs[m], pkgs[i])
      ensures exists k :: 0 <= k <= i && Reaches(all, pkgs[k], pkgs[m])
    {
      NoOvertaking(g, AllRequires, color, prereqed, pkgs, i, m);
    }
    var u, w := pkgs[i], pkgs[j];
    assert u in PoolOf(first.ordered) && w in PoolOf(first.ordered);
    var a :| 0 <= a < |first.ordered| && first.ordered[a] == u;
    var b :| 0 <= b < |first.ordered| && first.ordered[b] == w;
    if a < b {
      NoOvertaking(g, FlagOf(t), first.color, first.prereqed, first.ordered, a, b);
      var d :| 0 <= d <= a && Reaches(Scope(g, FlagOf(t), PoolOf(first.ordered)), first.ordered[d], w);
      var x := first.ordered[d];
      FlaggedReaches(g, FlagOf(t), PoolOf(pkgs), x, w);
      assert x in PoolOf(first.ordered);
      LedTo(all, pkgs, first.ordered, i, x);
      var k :| 0 <= k <= i && Reaches(all, pkgs[k], x);
      ReachesTwice(all, pkgs[k], x, w);
    } else {
      assert Before(first.ordered, w, u);
    }
  }
}
