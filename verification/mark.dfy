/** Marking as the source runs it (pkgmark.c): a hash of flag words updated during the recursion. */
module PkgMark {
  import opened Wrappers
  import opened ReqGraph
  import opened ReqEntries
  import opened MarkSpec
  import opened DragTheorems
  import opened MarkTheorems

  datatype Flag = Mark | Dep

  /** `flags` of a struct pkg_mark, as far as PKGMARK_ANY reaches. */
  datatype Word = Word(mark: bool, dep: bool) {
    predicate Has(f: Flag) {
      match f case Mark => mark case Dep => dep
    }
    function With(f: Flag, on: bool): Word {
      match f case Mark => this.(mark := on) case Dep => this.(dep := on)
    }
  }

  class PkgMarkSet {
    const ps: Graph
    const unmatched: set<Pkg>
    var ht: map<Pkg, Word>
    var unreqh: set<Pkg>

    ghost function Now(): Marks
      reads this
    {
      Marks((set p | p in ht && ht[p].mark), (set p | p in ht && ht[p].dep), unreqh)
    }

    constructor (g: Graph, unmatched: set<Pkg>)
      ensures ps == g && this.unmatched == unmatched && Now() == Marks({}, {}, {})
    {
      ps := g;
      this.unmatched := unmatched;
      ht, unreqh := map[], {};
    }

    predicate IsSet(pkg: Pkg, f: Flag)
      reads this
    {
      pkg in ht && ht[pkg].Has(f)
    }

    predicate IsMarked(pkg: Pkg)
      reads this
      ensures IsMarked(pkg) <==> pkg in Now().All()
    {
      IsSet(pkg, Mark) || IsSet(pkg, Dep)
    }

    /** pkgmark_set: clearing a flag of an unknown package does not record the package. */
    method Set(pkg: Pkg, on: bool, f: Flag)
      modifies this
      ensures unreqh == old(unreqh)
      ensures forall p, g :: IsSet(p, g) <==> if p == pkg && g == f then on else old(IsSet(p, g))
      ensures f == Mark && on ==> Now() == old(Now()).(hand := old(Now()).hand + {pkg})
      ensures f == Dep && on ==> Now() == old(Now()).(dep := old(Now()).dep + {pkg})
      ensures pkg !in old(ht) && !on ==> ht == old(ht)
    {
      if pkg !in ht {
        if !on { return; }
        ht := ht[pkg := Word(false, false)];
      }
      ht := ht[pkg := ht[pkg].With(f, on)];
    }

    /** pkgmark_pkg_drags. */
    method PkgDrags(pkg: Pkg, deep: int) returns (ndragged: nat)
      ensures ndragged == Drags(ps, Now().All(), pkg, deep)
      ensures deep == 1 ==> ndragged == |Unmet(ps, Now().All(), pkg)|
      ensures deep == 2 ==> ndragged == Burden(ps, Now().All(), pkg)
      decreases if deep <= 0 then 0 else deep
    {
      hide Unmet, Burden;
      DragsIsBurden(ps, Now().All(), pkg);
      ndragged := 0;
      if deep <= 0 { return; }
      var reqpkgs := Entries(ps, pkg);
      var i := 0;
      while i < |reqpkgs|
        invariant 0 <= i <= |reqpkgs|
        invariant ndragged + DragsOver(ps, Now().All(), reqpkgs[i..], deep) == Drags(ps, Now().All(), pkg, deep)
      {
        var rpkg := reqpkgs[i];
        assert reqpkgs[i..][1..] == reqpkgs[i + 1..];
        i := i + 1;
        if IsMarked(rpkg.head.pkg) { continue; }
        var markit := true;
        var n := 0;
        while n < |rpkg.adds|
          invariant 0 <= n <= |rpkg.adds|
          invariant markit ==> forall k :: 0 <= k < n ==> rpkg.adds[k].pkg !in Now().All()
          invariant !markit ==> AnyMarked(Now().All(), rpkg.adds)
        {
          if IsMarked(rpkg.adds[n].pkg) {
            assert rpkg.adds[n] in rpkg.adds;
            markit := false;
            break;
          }
          n := n + 1;
        }
        if markit {
          var below := PkgDrags(rpkg.head.pkg, deep - 1);
          ndragged := ndragged + below;
          ndragged := ndragged + 1;
        }
      }
    }

    /** The choice among equivalents: the first that drags the fewest packages. */
    method SelectToMark(rpkg: Entry, equivalents: seq<Pkg>) returns (tomark: Pkg)
      requires equivalents == PkgsOf(rpkg) && rpkg.Multi()
      ensures tomark == ToMark(ps, Now().All(), rpkg)
    {
      tomark := rpkg.head.pkg;
      var ndraggedMin: nat := INT_MAX - 1;
      var j := 0;
      while j < |equivalents|
        invariant 0 <= j <= |equivalents|
        invariant Cheapest(ps, Now().All(), equivalents[j..], tomark, ndraggedMin) == ToMark(ps, Now().All(), rpkg)
      {
        assert equivalents[j..][1..] == equivalents[j + 1..];
        var ndragged := PkgDrags(equivalents[j], 2);
        if ndragged < ndraggedMin {
          ndraggedMin := ndragged;
          tomark := equivalents[j];
        }
        j := j + 1;
      }
    }

    /** One entry of the loop in visit_mark_reqs. */
    method ServeEntry(pkg: Pkg, rpkg: Entry, deep: int)
      requires deep >= -2
      modifies this
      ensures Now() == VisitEntry(ps, unmatched, old(Now()), rpkg)
      decreases |Unmarked(ps, Now())|, 1, 0
    {
      if IsMarked(rpkg.head.pkg) { return; }
      assert !IsSet(rpkg.head.pkg, Dep);
      var equivalents := [];
      var markit := true;
      var n := 0;
      while n < |rpkg.adds|
        invariant 0 <= n <= |rpkg.adds|
        invariant markit ==> forall k :: 0 <= k < n ==> rpkg.adds[k].pkg !in Now().All()
        invariant markit ==> equivalents == if n == 0 then [] else PkgsOf(rpkg)[..n + 1]
        invariant !markit ==> AnyMarked(Now().All(), rpkg.adds)
      {
        var eqpkg := rpkg.adds[n];
        if IsMarked(eqpkg.pkg) {
          assert eqpkg in rpkg.adds;
          markit := false;
          break;
        }
        if equivalents == [] {
          equivalents := [rpkg.head.pkg];
        }
        equivalents := equivalents + [eqpkg.pkg];
        n := n + 1;
      }
      assert markit <==> !Met(Now().All(), rpkg);
      if markit {
        var tomark := rpkg.head.pkg;
        if equivalents != [] {
          assert equivalents == PkgsOf(rpkg);
          tomark := SelectToMark(rpkg, equivalents);
        }
        ToMarkUnmarked(ps, Now().All(), rpkg);
        VisitMarkReqs(Some(pkg), tomark, deep + 2);
      }
    }

    /** visit_mark_reqs; the requires clauses are the assertions of the source. */
    method VisitMarkReqs(parent: Option<Pkg>, pkg: Pkg, deep: int)
      requires deep >= -2 && (!IsMarked(pkg) ==> parent.Some? && deep >= 0)
      modifies this
      ensures Now() == VisitMark(ps, unmatched, old(Now()), pkg)
      decreases |Unmarked(ps, Now())|, if IsMarked(pkg) then 2 else 0, 0
    {
      if IsSet(pkg, Dep) { return; }
      ghost var before := Now();
      if !IsMarked(pkg) {
        Set(pkg, true, Dep);
      }
      if pkg in unmatched {
        unreqh := unreqh + {pkg};
      }
      ghost var entered := Now();
      assert entered == Enter(unmatched, before, pkg);
      var reqpkgs := Entries(ps, pkg);
      if reqpkgs == [] { return; }
      Shrinks(ps, before, entered, pkg);
      var i := 0;
      while i < |reqpkgs|
        invariant 0 <= i <= |reqpkgs|
        invariant entered.All() <= Now().All()
        invariant VisitEntries(ps, unmatched, Now(), reqpkgs[i..]) == VisitEntries(ps, unmatched, entered, reqpkgs)
      {
        NeverGrows(ps, entered, Now());
        assert reqpkgs[i..][1..] == reqpkgs[i + 1..];
        ServeEntry(pkg, reqpkgs[i], deep);
        i := i + 1;
      }
    }

    /** depmark_packages. */
    method DepmarkPackages(tomark: seq<Pkg>, withdeps: bool) returns (ok: bool)
      modifies this
      ensures Now() == DepMark(ps, unmatched, old(Now()), tomark, withdeps)
      ensures ok <==> !withdeps || unreqh == {}
      ensures withdeps && Closed(ps, old(Now()).All()) ==> Closed(ps, Now().All())
    {
      ok := true;
      ghost var before := Now();
      var i := 0;
      while i < |tomark|
        invariant 0 <= i <= |tomark|
        invariant Now() == HandMark(before, tomark[..i])
      {
        Set(tomark[i], true, Mark);
        assert tomark[..i + 1] == tomark[..i] + [tomark[i]];
        i := i + 1;
      }
      assert tomark[..i] == tomark;
      ghost var marked := Now();
      if withdeps {
        i := 0;
        while i < |tomark|
          invariant 0 <= i <= |tomark|
          invariant Now().hand == marked.hand
          invariant VisitAll(ps, unmatched, Now(), tomark[i..]) == VisitAll(ps, unmatched, marked, tomark)
        {
          assert tomark[i] in Now().hand;
          assert tomark[i..][1..] == tomark[i + 1..];
          VisitMarkReqs(None, tomark[i], -2);
          i := i + 1;
        }
        if unreqh != {} {
          ok := false;
        }
      }
      if withdeps && Closed(ps, before.All()) {
        MarkingCloses(ps, unmatched, before, tomark);
      }
    }
  }
}
