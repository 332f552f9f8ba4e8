/** Marking packages together with what they require (pkgmark.c), as functions on the mark set. */
module MarkSpec {
  import opened ReqGraph
  import opened ReqEntries

  /** The PKGMARK_MARK and PKGMARK_DEP bits of a pkgmark_set, and the packages recorded in its `unreqh`. */
  datatype Marks = Marks(hand: set<Pkg>, dep: set<Pkg>, unreq: set<Pkg>) {
    function All(): set<Pkg> {
      hand + dep
    }
  }

  const INT_MAX: nat := 0x7fff_ffff

  predicate AnyMarked(marked: set<Pkg>, alts: seq<Alt>) {
    exists a :: a in alts && a.pkg in marked
  }

  /** The head or one of the alternatives is marked. */
  predicate Met(marked: set<Pkg>, e: Entry) {
    e.head.pkg in marked || AnyMarked(marked, e.adds)
  }

  /** pkgmark_pkg_drags: how many packages a package would drag along, looking a few steps ahead. */
  function Drags(g: Graph, marked: set<Pkg>, p: Pkg, deep: int): nat
    decreases if deep <= 0 then 0 else deep, 1, 0
  {
    if deep <= 0 then 0 else DragsOver(g, marked, Entries(g, p), deep)
  }

  function DragsOver(g: Graph, marked: set<Pkg>, es: seq<Entry>, deep: int): nat
    requires deep > 0
    decreases deep, 0, |es|
  {
    if es == [] then 0
    else (if Met(marked, es[0]) then 0 else Drags(g, marked, es[0].head.pkg, deep - 1) + 1)
         + DragsOver(g, marked, es[1..], deep)
  }

  /** The selection loop over the equivalents, from the minimum found so far. */
  function Cheapest(g: Graph, marked: set<Pkg>, pkgs: seq<Pkg>, best: Pkg, min: nat): Pkg
    decreases |pkgs|
  {
    if pkgs == [] then best
    else
      var n := Drags(g, marked, pkgs[0], 2);
      if n < min then Cheapest(g, marked, pkgs[1..], pkgs[0], n)
      else Cheapest(g, marked, pkgs[1..], best, min)
  }

  function ToMark(g: Graph, marked: set<Pkg>, e: Entry): (p: Pkg)
  {
    if e.Multi() then Cheapest(g, marked, PkgsOf(e), e.head.pkg, INT_MAX - 1) else e.head.pkg
  }

  /** Packages with requirements that are still unmarked: the measure of the recursion. */
  function Unmarked(g: Graph, m: Marks): set<Pkg> {
    g.Keys - m.All()
  }

  function Enter(unmatched: set<Pkg>, m: Marks, p: Pkg): Marks {
    m.(dep := if p in m.All() then m.dep else m.dep + {p},
       unreq := if p in unmatched then m.unreq + {p} else m.unreq)
  }

  /** visit_mark_reqs; unmatched are the packages with a requirement that nothing provides. */
  function VisitMark(g: Graph, unmatched: set<Pkg>, m: Marks, p: Pkg): (r: Marks)
    ensures r.hand == m.hand && m.dep <= r.dep && m.unreq <= r.unreq
    ensures (r.dep - m.dep) !! m.hand
    ensures p in r.All()
    decreases |Unmarked(g, m)|, if p in m.All() then 2 else 0, 0
  {
    if p in m.dep then m
    else
      var entered := Enter(unmatched, m, p);
      if Entries(g, p) == [] then entered
      else
        Shrinks(g, m, entered, p);
        VisitEntries(g, unmatched, entered, Entries(g, p))
  }

  /** The loop over the entries of a package. */
  function VisitEntries(g: Graph, unmatched: set<Pkg>, m: Marks, es: seq<Entry>): (r: Marks)
    ensures r.hand == m.hand && m.dep <= r.dep && m.unreq <= r.unreq
    ensures (r.dep - m.dep) !! m.hand
    decreases |Unmarked(g, m)|, 1, |es|
  {
    if es == [] then m
    else
      var next := VisitEntry(g, unmatched, m, es[0]);
      NeverGrows(g, m, next);
      VisitEntries(g, unmatched, next, es[1..])
  }

  function VisitEntry(g: Graph, unmatched: set<Pkg>, m: Marks, e: Entry): (r: Marks)
    ensures r.hand == m.hand && m.dep <= r.dep && m.unreq <= r.unreq
    ensures (r.dep - m.dep) !! m.hand
    decreases |Unmarked(g, m)|, 1, 0
  {
    if Met(m.All(), e) then m
    else
      ToMarkUnmarked(g, m.All(), e);
      VisitMark(g, unmatched, m, ToMark(g, m.All(), e))
  }

  lemma Shrinks(g: Graph, m: Marks, entered: Marks, p: Pkg)
    requires Entries(g, p) != [] && p in entered.All() && m.All() <= entered.All()
    ensures p in m.All() ==> |Unmarked(g, entered)| <= |Unmarked(g, m)|
    ensures p !in m.All() ==> |Unmarked(g, entered)| < |Unmarked(g, m)|
  {
    NeverGrows(g, m, entered);
    if p !in m.All() {
      assert p in Unmarked(g, m) && p !in Unmarked(g, entered);
      SmallerSet(Unmarked(g, entered), Unmarked(g, m) - {p});
    }
  }

  lemma SmallerSet(a: set<Pkg>, b: set<Pkg>)
    requires a <= b
    ensures |a| <= |b|
  {
    assert b == a + (b - a);
  }

  lemma NeverGrows(g: Graph, m: Marks, r: Marks)
    requires m.All() <= r.All()
    ensures |Unmarked(g, r)| <= |Unmarked(g, m)|
  {
    SmallerSet(Unmarked(g, r), Unmarked(g, m));
  }

  lemma {:induction false} CheapestOneOf(g: Graph, marked: set<Pkg>, pkgs: seq<Pkg>, best: Pkg, min: nat)
    ensures var c := Cheapest(g, marked, pkgs, best, min);
            && (c == best || c in pkgs)
            && (forall p :: p in pkgs && Drags(g, marked, p, 2) < min ==> Drags(g, marked, c, 2) <= Drags(g, marked, p, 2))
            && ((exists p :: p in pkgs && Drags(g, marked, p, 2) < min) ==> Drags(g, marked, c, 2) < min)
            && (!(exists p :: p in pkgs && Drags(g, marked, p, 2) < min) ==> c == best)
    decreases |pkgs|
  {
    if pkgs != [] {
      var n := Drags(g, marked, pkgs[0], 2);
      assert forall p :: p in pkgs <==> p == pkgs[0] || p in pkgs[1..];
      if n < min {
        CheapestOneOf(g, marked, pkgs[1..], pkgs[0], n);
      } else {
        CheapestOneOf(g, marked, pkgs[1..], best, min);
      }
    }
  }

  /** The chosen package is one of the equivalents, so it is not marked yet. */
  lemma ToMarkUnmarked(g: Graph, marked: set<Pkg>, e: Entry)
    requires !Met(marked, e)
    ensures ToMark(g, marked, e) in PkgsOf(e)
    ensures ToMark(g, marked, e) !in marked
  {
    assert PkgsOf(e)[0] == e.head.pkg;
    if e.Multi() {
      CheapestOneOf(g, marked, PkgsOf(e), e.head.pkg, INT_MAX - 1);
    }
    MetByPkgs(marked, e);
  }

  lemma MetByPkgs(marked: set<Pkg>, e: Entry)
    ensures Met(marked, e) <==> Hits(marked, PkgsOf(e))
  {
    var q := PkgsOf(e);
    assert q[0] == e.head.pkg;
    assert forall k :: 1 <= k < |q| ==> q[k] == e.adds[k - 1].pkg;
    if Met(marked, e) && e.head.pkg !in marked {
      var k :| 0 <= k < |e.adds| && e.adds[k].pkg in marked;
      assert q[k + 1] in q;
    }
    if p :| p in q && p in marked {
      var k :| 0 <= k < |q| && q[k] == p;
      if k > 0 {
        assert e.adds[k - 1] in e.adds;
      }
    }
  }

  /** pkg_hand_mark over the list of depmark_packages. */
  function HandMark(m: Marks, pkgs: seq<Pkg>): Marks {
    m.(hand := m.hand + (set p | p in pkgs))
  }

  function VisitAll(g: Graph, unmatched: set<Pkg>, m: Marks, pkgs: seq<Pkg>): Marks
    decreases |pkgs|
  {
    if pkgs == [] then m else VisitAll(g, unmatched, VisitMark(g, unmatched, m, pkgs[0]), pkgs[1..])
  }

  /** depmark_packages. */
  function DepMark(g: Graph, unmatched: set<Pkg>, m: Marks, pkgs: seq<Pkg>, withDeps: bool): Marks {
    var marked := HandMark(m, pkgs);
    if withDeps then VisitAll(g, unmatched, marked, pkgs) else marked
  }
}

/** What pkgmark_pkg_drags counts. */
module DragTheorems {
  import opened ReqGraph
  import opened MarkSpec

  /** Neither the head nor an alternative is marked. */
  ghost predicate Lacking(marked: set<Pkg>, e: Entry) {
    e.head.pkg !in marked && forall k :: 0 <= k < |e.adds| ==> e.adds[k].pkg !in marked
  }

  /** The entries of p that lack a marked package, by their places. */
  ghost function Unmet(g: Graph, marked: set<Pkg>, p: Pkg): set<nat> {
    UnmetOf(marked, Entries(g, p))
  }

  ghost function UnmetOf(marked: set<Pkg>, es: seq<Entry>): set<nat> {
    set i: nat | i < |es| && Lacking(marked, es[i])
  }

  /** Pairs of such an entry and of such an entry of its head. */
  ghost function UnmetBehind(g: Graph, marked: set<Pkg>, es: seq<Entry>): set<(nat, nat)> {
    set i, j | i in UnmetOf(marked, es) && j in Unmet(g, marked, es[i].head.pkg) :: (i, j)
  }

  /** What marking p would take: its unmet entries, and those that the heads of these have in turn. */
  ghost function Burden(g: Graph, marked: set<Pkg>, p: Pkg): nat {
    |Unmet(g, marked, p)| + |UnmetBehind(g, marked, Entries(g, p))|
  }

  lemma MetOrLacking(marked: set<Pkg>, e: Entry)
    ensures Met(marked, e) <==> !Lacking(marked, e)
  {
    if !Lacking(marked, e) && e.head.pkg !in marked {
      var k :| 0 <= k < |e.adds| && e.adds[k].pkg in marked;
      assert e.adds[k] in e.adds;
    }
  }

  lemma {:induction false} DragsAppend(g: Graph, marked: set<Pkg>, es: seq<Entry>, e: Entry, deep: int)
    requires deep > 0
    ensures DragsOver(g, marked, es + [e], deep) ==
            DragsOver(g, marked, es, deep) + if Lacking(marked, e) then 1 + Drags(g, marked, e.head.pkg, deep - 1) else 0
    decreases |es|
  {
    MetOrLacking(marked, e);
    var all := es + [e];
    if es == [] {
      assert all[1..] == [] && all[0] == e;
    } else {
      assert all[1..] == es[1..] + [e] && all[0] == es[0];
      DragsAppend(g, marked, es[1..], e, deep);
    }
  }

  lemma UnmetAppend(marked: set<Pkg>, es: seq<Entry>, e: Entry)
    ensures UnmetOf(marked, es + [e]) == UnmetOf(marked, es) + if Lacking(marked, e) then {|es|} else {}
    ensures |UnmetOf(marked, es + [e])| == |UnmetOf(marked, es)| + if Lacking(marked, e) then 1 else 0
  {
    hide Lacking;
    var all := es + [e];
    assert forall i :: 0 <= i < |es| ==> all[i] == es[i];
    assert |es| !in UnmetOf(marked, es);
  }

  /** Looking one step ahead, the unmet entries are counted. */
  lemma {:induction false} CountsUnmet(g: Graph, marked: set<Pkg>, es: seq<Entry>)
    ensures DragsOver(g, marked, es, 1) == |UnmetOf(marked, es)|
    decreases |es|
  {
    if es == [] {
      assert UnmetOf(marked, es) == {};
    } else {
      var init, e := es[..|es| - 1], es[|es| - 1];
      assert es == init + [e];
      CountsUnmet(g, marked, init);
      DragsAppend(g, marked, init, e, 1);
      UnmetAppend(marked, init, e);
    }
  }

  ghost function Paired(n: nat, js: set<nat>): set<(nat, nat)> {
    set j | j in js :: (n, j)
  }

  lemma {:induction false} PairedCount(n: nat, js: set<nat>)
    ensures |Paired(n, js)| == |js|
    decreases |js|
  {
    if js == {} {
      assert Paired(n, js) == {};
    } else {
      var j :| j in js;
      PairedCount(n, js - {j});
      assert Paired(n, js) == Paired(n, js - {j}) + {(n, j)};
    }
  }

  lemma PairsSplit(g: Graph, marked: set<Pkg>, es: seq<Entry>, e: Entry)
    requires UnmetOf(marked, es + [e]) == UnmetOf(marked, es) + {|es|}
    requires forall i :: i in UnmetOf(marked, es) ==> i < |es| && (es + [e])[i] == es[i]
    ensures |UnmetBehind(g, marked, es + [e])| == |UnmetBehind(g, marked, es)| + |Paired(|es|, Unmet(g, marked, e.head.pkg))|
  {
    hide UnmetOf, Unmet;
    var more := Paired(|es|, Unmet(g, marked, e.head.pkg));
    var before, after := UnmetBehind(g, marked, es), UnmetBehind(g, marked, es + [e]);
    assert after == before + more;
    assert before !! more;
  }

  lemma SamePairs(g: Graph, marked: set<Pkg>, es: seq<Entry>, e: Entry)
    requires UnmetOf(marked, es + [e]) == UnmetOf(marked, es)
    requires forall i :: i in UnmetOf(marked, es) ==> i < |es| && (es + [e])[i] == es[i]
    ensures UnmetBehind(g, marked, es + [e]) == UnmetBehind(g, marked, es)
  {
    hide UnmetOf, Unmet;
  }

  lemma BehindAppend(g: Graph, marked: set<Pkg>, es: seq<Entry>, e: Entry)
    ensures |UnmetBehind(g, marked, es + [e])| ==
            |UnmetBehind(g, marked, es)| + if Lacking(marked, e) then |Unmet(g, marked, e.head.pkg)| else 0
  {
    var all, n := es + [e], |es|;
    UnmetAppend(marked, es, e);
    assert forall i :: i in UnmetOf(marked, es) ==> i < n && all[i] == es[i];
    hide *;
    PairedCount(n, Unmet(g, marked, e.head.pkg));
    if Lacking(marked, e) {
      PairsSplit(g, marked, es, e);
    } else {
      SamePairs(g, marked, es, e);
    }
  }

  lemma DragsOnce(g: Graph, marked: set<Pkg>, p: Pkg)
    ensures Drags(g, marked, p, 1) == |Unmet(g, marked, p)|
  {
    CountsUnmet(g, marked, Entries(g, p));
  }

  lemma {:induction false} CountsBehind(g: Graph, marked: set<Pkg>, es: seq<Entry>)
    ensures DragsOver(g, marked, es, 2) == |UnmetOf(marked, es)| + |UnmetBehind(g, marked, es)|
    decreases |es|
  {
    if es == [] {
      assert UnmetOf(marked, es) == {} && UnmetBehind(g, marked, es) == {};
    } else {
      hide UnmetBehind, Lacking;
      var init, e := es[..|es| - 1], es[|es| - 1];
      assert es == init + [e];
      CountsBehind(g, marked, init);
      DragsAppend(g, marked, init, e, 2);
      UnmetAppend(marked, init, e);
      BehindAppend(g, marked, init, e);
      DragsOnce(g, marked, e.head.pkg);
    }
  }

  /** The estimate that decides between alternatives, looking two steps ahead, is the burden. */
  lemma DragsIsBurden(g: Graph, marked: set<Pkg>, p: Pkg)
    ensures Drags(g, marked, p, 2) == Burden(g, marked, p)
    ensures Drags(g, marked, p, 1) == |Unmet(g, marked, p)|
  {
    CountsBehind(g, marked, Entries(g, p));
    DragsOnce(g, marked, p);
  }

  /** Nothing is dragged exactly when nothing is unmet, or it is not looked at. */
  lemma DragsNothing(g: Graph, marked: set<Pkg>, p: Pkg, deep: int)
    ensures Drags(g, marked, p, deep) == 0 <==> deep <= 0 || forall e :: e in Entries(g, p) ==> !Lacking(marked, e)
  {
    if deep > 0 { NothingOver(g, marked, Entries(g, p), deep); }
  }

  lemma {:induction false} NothingOver(g: Graph, marked: set<Pkg>, es: seq<Entry>, deep: int)
    requires deep > 0
    ensures DragsOver(g, marked, es, deep) == 0 <==> forall e :: e in es ==> !Lacking(marked, e)
    decreases |es|
  {
    if es != [] {
      MetOrLacking(marked, es[0]);
      NothingOver(g, marked, es[1..], deep);
      assert forall e :: e in es <==> e == es[0] || e in es[1..];
    }
  }
}

/** What marking guarantees. */
module MarkTheorems {
  import opened ReqGraph
  import opened ReqEntries
  import opened MarkSpec
  import opened DragTheorems

  /** Every entry of the package is met. */
  ghost predicate Served(g: Graph, marked: set<Pkg>, p: Pkg) {
    forall e :: e in Entries(g, p) ==> Met(marked, e)
  }

  ghost predicate Link(g: Graph, u: Pkg, v: Pkg) {
    exists e :: e in Entries(g, u) && v in PkgsOf(e)
  }

  /** A chain of entries leads from u to v. */
  ghost predicate Linked(g: Graph, u: Pkg, v: Pkg) {
    exists path: seq<Pkg> :: IsChain(g, path) && path[0] == u && path[|path| - 1] == v
  }

  ghost predicate IsChain(g: Graph, path: seq<Pkg>) {
    path != [] && forall i :: 0 <= i < |path| - 1 ==> Link(g, path[i], path[i + 1])
  }

  lemma LinkedStep(g: Graph, u: Pkg, v: Pkg, w: Pkg)
    requires Link(g, u, v) && Linked(g, v, w)
    ensures Linked(g, u, w)
  {
    var path: seq<Pkg> :| IsChain(g, path) && path[0] == v && path[|path| - 1] == w;
    var longer := [u] + path;
    forall i | 0 <= i < |longer| - 1 ensures Link(g, longer[i], longer[i + 1]) {
      if i > 0 {
        assert longer[i] == path[i - 1] && longer[i + 1] == path[i];
      }
    }
    assert IsChain(g, longer);
  }

  lemma LinkedSelf(g: Graph, u: Pkg)
    ensures Linked(g, u, u)
  {
    assert IsChain(g, [u]);
  }

  /** The packages a visit has looked into: the new dependency marks and the start itself. */
  ghost function Looked(m: Marks, r: Marks, p: Pkg): set<Pkg> {
    (r.dep - m.dep) + if p in m.dep then {} else {p}
  }

  ghost predicate VisitDone(g: Graph, unmatched: set<Pkg>, m: Marks, r: Marks, looked: set<Pkg>, from: Pkg) {
    && (forall q :: q in looked ==> Served(g, r.All(), q) && Linked(g, from, q))
    && r.unreq == m.unreq + (looked * unmatched)
  }

  lemma {:induction false} VisitMarks(g: Graph, unmatched: set<Pkg>, m: Marks, p: Pkg)
    ensures var r := VisitMark(g, unmatched, m, p);
            VisitDone(g, unmatched, m, r, Looked(m, r, p), p)
    decreases |Unmarked(g, m)|, if p in m.All() then 2 else 0, 0
  {
    if p !in m.dep {
      var entered := Enter(unmatched, m, p);
      var r := VisitMark(g, unmatched, m, p);
      LinkedSelf(g, p);
      if Entries(g, p) != [] {
        Shrinks(g, m, entered, p);
        EntriesMarked(g, unmatched, entered, p, Entries(g, p));
        hide *;
        EnteredToo(g, unmatched, m, p, r);
      }
    }
  }

  /** What the entries of a package add, and the package itself. */
  lemma EnteredToo(g: Graph, unmatched: set<Pkg>, m: Marks, p: Pkg, r: Marks)
    requires var entered := Enter(unmatched, m, p);
             VisitDone(g, unmatched, entered, r, r.dep - entered.dep, p) && entered.dep <= r.dep
    requires p !in m.dep && Linked(g, p, p) && forall e :: e in Entries(g, p) ==> Met(r.All(), e)
    ensures VisitDone(g, unmatched, m, r, Looked(m, r, p), p)
  {
    assert Served(g, r.All(), p);
    hide Served, Linked, Met;
    var entered := Enter(unmatched, m, p);
    assert forall q :: q in Looked(m, r, p) ==> q in r.dep - entered.dep || q == p;
    assert Looked(m, r, p) * unmatched == (r.dep - entered.dep) * unmatched + ({p} * unmatched);
  }

  lemma {:induction false} EntriesMarked(g: Graph, unmatched: set<Pkg>, m: Marks, p: Pkg, es: seq<Entry>)
    requires forall e :: e in es ==> e in Entries(g, p)
    ensures var r := VisitEntries(g, unmatched, m, es);
            && VisitDone(g, unmatched, m, r, r.dep - m.dep, p)
            && forall e :: e in es ==> Met(r.All(), e)
    decreases |Unmarked(g, m)|, 1, |es|
  {
    if es != [] {
      var e := es[0];
      assert e in es && forall f :: f in es[1..] ==> f in es;
      var next := VisitEntry(g, unmatched, m, e);
      var r := VisitEntries(g, unmatched, next, es[1..]);
      NeverGrows(g, m, next);
      EntryMarked(g, unmatched, m, p, e);
      EntriesMarked(g, unmatched, next, p, es[1..]);
      assert r.dep - m.dep == (r.dep - next.dep) + (next.dep - m.dep);
      assert forall f :: f in es <==> f == e || f in es[1..];
    }
  }

  lemma {:induction false} EntryMarked(g: Graph, unmatched: set<Pkg>, m: Marks, p: Pkg, e: Entry)
    requires e in Entries(g, p)
    ensures var r := VisitEntry(g, unmatched, m, e);
            VisitDone(g, unmatched, m, r, r.dep - m.dep, p) && Met(r.All(), e)
    decreases |Unmarked(g, m)|, 1, 0
  {
    if !Met(m.All(), e) {
      var chosen := ToMark(g, m.All(), e);
      var r := VisitEntry(g, unmatched, m, e);
      ToMarkUnmarked(g, m.All(), e);
      VisitMarks(g, unmatched, m, chosen);
      assert Link(g, p, chosen);
      forall q | q in r.dep - m.dep ensures Linked(g, p, q) {
        LinkedStep(g, p, chosen, q);
      }
      assert chosen in r.dep - m.dep;
      assert Looked(m, r, chosen) == r.dep - m.dep;
      MetByPkgs(r.All(), e);
    }
  }

  /** The packages that a whole run looks into. */
  ghost function LookedAll(m: Marks, r: Marks, pkgs: seq<Pkg>): set<Pkg> {
    (r.dep - m.dep) + ((set p | p in pkgs) - m.dep)
  }

  lemma {:induction false} AllMarked(g: Graph, unmatched: set<Pkg>, m: Marks, pkgs: seq<Pkg>)
    requires forall p :: p in pkgs ==> p in m.hand
    ensures var r := VisitAll(g, unmatched, m, pkgs);
            && r.hand == m.hand && m.dep <= r.dep && (r.dep - m.dep) !! m.hand
            && r.unreq == m.unreq + (LookedAll(m, r, pkgs) * unmatched)
            && (forall q :: q in LookedAll(m, r, pkgs) ==>
                  Served(g, r.All(), q) && exists h :: h in pkgs && Linked(g, h, q))
    decreases |pkgs|
  {
    if pkgs != [] {
      var p := pkgs[0];
      var next := VisitMark(g, unmatched, m, p);
      var r := VisitAll(g, unmatched, m, pkgs);
      assert p in pkgs && forall q :: q in pkgs <==> q == p || q in pkgs[1..];
      VisitMarks(g, unmatched, m, p);
      AllMarked(g, unmatched, next, pkgs[1..]);
      assert LookedAll(m, r, pkgs) == Looked(m, next, p) + LookedAll(next, r, pkgs[1..]);
      forall q | q in LookedAll(m, r, pkgs)
        ensures Served(g, r.All(), q) && exists h :: h in pkgs && Linked(g, h, q)
      {
        if q in LookedAll(next, r, pkgs[1..]) {
          var h :| h in pkgs[1..] && Linked(g, h, q);
        } else {
          assert Linked(g, p, q);
        }
      }
    }
  }

  /** Every marked package has all its entries met. */
  ghost predicate Closed(g: Graph, marked: set<Pkg>) {
    forall q :: q in marked ==> Served(g, marked, q)
  }

  /**
    Marking with dependencies keeps a mark set closed: the requested packages are marked, nothing is
    unmarked, every marked package has each of its entries met, every new dependency mark is reached from a
    requested package, and the packages recorded as failing are the newly looked into ones that lack a provider.
   */
  lemma MarkingCloses(g: Graph, unmatched: set<Pkg>, m: Marks, pkgs: seq<Pkg>)
    requires Closed(g, m.All())
    ensures var r := DepMark(g, unmatched, m, pkgs, true);
            && m.dep <= r.dep && r.hand == m.hand + (set p | p in pkgs)
            && Closed(g, r.All())
            && (forall q :: q in r.dep - m.dep ==> exists h :: h in pkgs && Linked(g, h, q))
            && r.unreq == m.unreq + (LookedAll(m, r, pkgs) * unmatched)
  {
    var marked := HandMark(m, pkgs);
    var r := DepMark(g, unmatched, m, pkgs, true);
    AllMarked(g, unmatched, marked, pkgs);
    forall q | q in r.All() ensures Served(g, r.All(), q) {
      if q !in LookedAll(m, r, pkgs) {
        assert q in m.All() || q in pkgs;
        assert Served(g, m.All(), q) || q in m.dep;
      }
    }
  }

  /**
    From an empty mark set the run succeeds exactly when no marked package has an unmatched requirement.
   */
  lemma SuccessMeansMatched(g: Graph, unmatched: set<Pkg>, pkgs: seq<Pkg>)
    ensures var r := DepMark(g, unmatched, Marks({}, {}, {}), pkgs, true);
            r.unreq == {} <==> r.All() !! unmatched
  {
    var m := Marks({}, {}, {});
    var r := DepMark(g, unmatched, m, pkgs, true);
    AllMarked(g, unmatched, HandMark(m, pkgs), pkgs);
    assert LookedAll(HandMark(m, pkgs), r, pkgs) == r.All();
  }

  /**
    Of an entry of which nothing is marked, the package marked is one that brings the fewest unmet entries
    with it, its own and those of their heads; the head, if all of them bring an absurd number.
   */
  lemma CheapestIsMarked(g: Graph, unmatched: set<Pkg>, m: Marks, e: Entry)
    requires Lacking(m.All(), e)
    ensures var chosen := ToMark(g, m.All(), e);
            && (chosen == e.head.pkg || exists a :: a in e.adds && a.pkg == chosen) && chosen !in m.All()
            && chosen in VisitEntry(g, unmatched, m, e).dep
            && (e.Multi() && Burden(g, m.All(), chosen) < 0x7fff_fffe ==>
                  forall a :: a == e.head || a in e.adds ==> Burden(g, m.All(), chosen) <= Burden(g, m.All(), a.pkg))
            && (Burden(g, m.All(), chosen) >= 0x7fff_fffe ==> chosen == e.head.pkg)
  {
    var marked := m.All();
    MetOrLacking(marked, e);
    ToMarkUnmarked(g, marked, e);
    forall p ensures Drags(g, marked, p, 2) == Burden(g, marked, p) { DragsIsBurden(g, marked, p); }
    hide Burden, Drags;
    if e.Multi() {
      CheapestOneOf(g, marked, PkgsOf(e), e.head.pkg, INT_MAX - 1);
    }
    forall a | a in e.adds ensures a.pkg in PkgsOf(e) {
      var k :| 0 <= k < |e.adds| && e.adds[k] == a;
      assert PkgsOf(e)[k + 1] == a.pkg;
    }
    assert PkgsOf(e)[0] == e.head.pkg;
  }

  /** And nothing else is marked for the entry: all new marks are of packages that this one leads to. */
  lemma EntryMarksOnly(g: Graph, unmatched: set<Pkg>, m: Marks, e: Entry)
    ensures !Lacking(m.All(), e) ==> VisitEntry(g, unmatched, m, e) == m
    ensures Lacking(m.All(), e) ==>
              forall q :: q in VisitEntry(g, unmatched, m, e).dep - m.dep ==> Linked(g, ToMark(g, m.All(), e), q)
  {
    MetOrLacking(m.All(), e);
    if Lacking(m.All(), e) {
      ToMarkUnmarked(g, m.All(), e);
      VisitMarks(g, unmatched, m, ToMark(g, m.All(), e));
    }
  }

  /** The graph that process_reqs makes of the requirements of each package. */
  ghost predicate CompiledFrom(g: Graph, reqs: map<Pkg, seq<Requirement>>) {
    && g.Keys == reqs.Keys
    && forall p :: p in g ==> Searched(reqs[p]) && EntriesSound(reqs[p], g[p]) && EntriesCover(reqs[p], g[p])
  }

  /**
    From marks to requirements: after a run from an empty mark set, every provided requirement of a marked
    package has a marked provider, as long as that package has no requirement folded into another entry.
   */
  lemma MarkedPackagesAreComplete(g: Graph, reqs: map<Pkg, seq<Requirement>>, unmatched: set<Pkg>, pkgs: seq<Pkg>, p: Pkg)
    requires CompiledFrom(g, reqs) && p in reqs && NothingFolded(reqs[p])
    requires p in DepMark(g, unmatched, Marks({}, {}, {}), pkgs, true).All()
    ensures MeetsRequirements(DepMark(g, unmatched, Marks({}, {}, {}), pkgs, true).All(), reqs[p])
  {
    var m := Marks({}, {}, {});
    var r := DepMark(g, unmatched, m, pkgs, true);
    MarkingCloses(g, unmatched, m, pkgs);
    forall e {:trigger PkgsOf(e)} | e in g[p] ensures Hits(r.All(), PkgsOf(e)) {
      assert Served(g, r.All(), p) && e in Entries(g, p);
      MetByPkgs(r.All(), e);
    }
    CoveredRequirementsMet(r.All(), reqs[p], g[p]);
  }

  /**
    What folding costs: package 0 requires something that 10 and 11 provide and something that only 10
    provides; with 0 and 11 requested the run succeeds and leaves the second requirement without a provider.
   */
  lemma FoldedRequirementUnmet()
    ensures var multi := Requirement(false, false, false, Found([10, 11]));
            var single := Requirement(false, false, false, Found([10]));
            var g := map[0 := [NewEntry(multi, [10, 11])]];
            var reqs := map[0 := [multi, single]];
            var r := DepMark(g, {}, Marks({}, {}, {}), [0, 11], true);
            && CompiledFrom(g, reqs)
            && r.unreq == {} && 0 in r.All() && !MeetsRequirements(r.All(), reqs[0])
  {
    var multi := Requirement(false, false, false, Found([10, 11]));
    var single := Requirement(false, false, false, Found([10]));
    var e := NewEntry(multi, [10, 11]);
    var g := map[0 := [e]];
    var m := HandMark(Marks({}, {}, {}), [0, 11]);
    assert m.All() == {0, 11} by { assert 0 in [0, 11] && 11 in [0, 11]; }
    MetByPkgs(m.All(), e);
    assert PkgsOf(e)[1] == 11 && 11 in PkgsOf(e);
    assert VisitEntries(g, {}, m, [e]) == m by {
      assert VisitEntry(g, {}, m, e) == m;
      assert [e][1..] == [];
    }
    assert VisitMark(g, {}, m, 0) == m && VisitMark(g, {}, m, 11) == m;
    assert [0, 11][1..] == [11] && [11][1..] == [];
    assert VisitAll(g, {}, m, [0, 11]) == VisitAll(g, {}, m, [11]) == VisitAll(g, {}, m, []);
    var rs := [multi, single];
    assert IsRequired(rs, 2, [10, 11]) by { assert rs[0].matches.pkgs == [10, 11]; }
    assert FoldedAway(rs, 1) by { assert rs[0].matches.pkgs[0] == rs[1].matches.pkgs[0]; }
    assert Covered([e], [10, 11]);
    assert !Hits(m.All(), rs[1].matches.pkgs);
  }
}
