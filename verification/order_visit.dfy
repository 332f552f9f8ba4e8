/** The ordering pass as the source runs it: flags, stack and output updated in place. */
module InstallOrder {
  import opened Wrappers
  import opened ReqGraph
  import opened OrderSpec
  import opened OrderTheorems
  import OrderWalk
  import IndexSpec
  import CapIndex

  /**
    The state of visit_install_order_s and the flag words of all packages. The flag words outlive a pass,
    so one object serves many passes.
   */
  class Orderer {
    const reqs: Graph
    var color: map<Pkg, Color>
    var prereqed: set<Pkg>
    var stack: seq<Pkg>
    var ordered: seq<Pkg>
    var nerrors: nat

    ghost function Now(): State
      reads this
    {
      State(color, prereqed, stack, ordered, nerrors)
    }

    constructor (g: Graph)
      ensures reqs == g && Settled(color)
    {
      reqs := g;
      color, prereqed, stack, ordered, nerrors := map[], {}, [], [], 0;
    }

    /** The loop over the stack that tells a Requires(pre) loop from a fake cycle. */
    method DetectLoop(target: Pkg) returns (isLoop: bool)
      ensures isLoop == IsLoop(Now(), target)
    {
      var j := |stack|;
      var nn, nprereqs := 0, 0;
      ghost var all := StackScan(stack, prereqed, target);
      assert stack[..j] == stack;
      while j > 0
        invariant 0 <= j <= |stack|
        invariant nn == nprereqs
        invariant all == (nn + StackScan(stack[..j], prereqed, target).0,
                          nprereqs + StackScan(stack[..j], prereqed, target).1)
      {
        var p := stack[j - 1];
        assert stack[..j][..j - 1] == stack[..j - 1];
        if p == target { break; }
        nn := nn + 1;
        if p !in prereqed { break; }
        nprereqs := nprereqs + 1;
        j := j - 1;
      }
      isLoop := nn > 0 && nn == nprereqs;
    }

    /** One `rp` of the inner loop. */
    method FollowRequirement(rp: Alt, mode: Mode)
      modifies this
      ensures Now() == VisitEdge(reqs, mode, old(Now()), rp)
      decreases |Whites(color)|, 0, 1
    {
      var c := ColorOf(color, rp.pkg);
      if c == NoColor {
      } else if c == White {
        if Flagged(mode, rp) {
          prereqed := prereqed + {rp.pkg};
        } else {
          prereqed := prereqed - {rp.pkg};
        }
        if mode == AllRequires || Flagged(mode, rp) {
          VisitInstallOrder(rp.pkg, mode);
        }
      } else if c == Gray {
        if Flagged(mode, rp) {
          var isLoop := DetectLoop(rp.pkg);
          if isLoop {
            nerrors := nerrors + 1;
          }
        }
      }
    }

    /** The inner loop: the head of an entry and then its alternatives, up to the closing NULL. */
    method FollowEntry(rpkg: Entry, mode: Mode)
      modifies this
      ensures Now() == VisitEdges(reqs, mode, old(Now()), [rpkg.head] + rpkg.adds)
      ensures Whites(color) <= old(Whites(color))
      decreases |Whites(color)|, 1
    {
      var rp := Some(rpkg.head);
      var np := 0;
      ghost var start := Now();
      while rp != None
        invariant 0 <= np <= |rpkg.adds| + 1
        invariant rp == None ==> np >= |rpkg.adds|
        invariant np == |rpkg.adds| + 1 ==> rp == None
        invariant Whites(color) <= Whites(start.color)
        invariant VisitEdges(reqs, mode, start, [rpkg.head] + rpkg.adds) ==
                  if rp == None then Now() else VisitEdges(reqs, mode, Now(), [rp.value] + rpkg.adds[np..])
        decreases |rpkg.adds| + 1 - np, rp != None
      {
        ghost var rest := [rp.value] + rpkg.adds[np..];
        assert rest[1..] == rpkg.adds[np..];
        WhitesShrink(color, start.color);
        FollowRequirement(rp.value, mode);
        if rpkg.Multi() && np < |rpkg.adds| {
          assert rpkg.adds[np..] == [rpkg.adds[np]] + rpkg.adds[np + 1..];
          rp, np := Some(rpkg.adds[np]), np + 1;
        } else {
          rp := None;
        }
      }
    }

    /** visit_install_order. */
    method VisitInstallOrder(pkg: Pkg, mode: Mode)
      requires ColorOf(color, pkg) == White
      modifies this
      ensures Now() == Visit(reqs, mode, old(Now()), pkg)
      decreases |Whites(color)|, 0, 0
    {
      ghost var before := Now();
      ghost var entered := Enter(reqs, before, pkg);
      assert Whites(entered.color) < Whites(before.color) by {
        assert pkg in Whites(before.color) && pkg !in Whites(entered.color);
      }
      color := color[pkg := Gray];
      var reqpkgs := Entries(reqs, pkg);
      var lastStack := -1;
      if reqpkgs != [] {
        stack := stack + [pkg];
        lastStack := |stack| - 1;
        assert Now() == entered && Flatten(reqpkgs) == Edges(reqs, pkg);
        WhitesShrink(color, before.color);
        FollowEntries(reqpkgs, mode);
      }
      assert Now() == VisitEdges(reqs, mode, entered, Edges(reqs, pkg));
      color := color[pkg := Black];
      prereqed := prereqed - {pkg};
      ordered := ordered + [pkg];
      if lastStack != -1 {
        Unstack(lastStack);
      }
    }

    /** The loop over the entries of the package on top of the stack. */
    method FollowEntries(reqpkgs: seq<Entry>, mode: Mode)
      modifies this
      ensures Now() == VisitEdges(reqs, mode, old(Now()), Flatten(reqpkgs))
      decreases |Whites(color)|, 2
    {
      hide VisitEdges;
      ghost var start := Now();
      var i := 0;
      assert reqpkgs[0..] == reqpkgs;
      while i < |reqpkgs|
        invariant 0 <= i <= |reqpkgs|
        invariant Whites(color) <= Whites(start.color)
        invariant VisitEdges(reqs, mode, Now(), Flatten(reqpkgs[i..])) == VisitEdges(reqs, mode, start, Flatten(reqpkgs))
      {
        WhitesShrink(color, start.color);
        OrderWalk.FollowInTwoSteps(reqs, mode, Now(), [reqpkgs[i].head] + reqpkgs[i].adds, Flatten(reqpkgs[i + 1..]));
        assert reqpkgs[i..][1..] == reqpkgs[i + 1..];
        FollowEntry(reqpkgs[i], mode);
        i := i + 1;
      }
      NoMoreEdges(reqs, mode, Now());
    }

    /** The loop that pops what is on the stack from some place on: the package that was pushed there. */
    method Unstack(lastStack: nat)
      requires |stack| == lastStack + 1
      modifies this`stack, this`prereqed
      ensures stack == old(stack)[..lastStack] && prereqed == old(prereqed) - {old(stack)[lastStack]}
    {
      var i := lastStack;
      while i < |stack|
        invariant lastStack <= i <= lastStack + 1
        invariant i == lastStack ==> stack == old(stack) && prereqed == old(prereqed)
        invariant i == lastStack + 1 ==>
                    stack == old(stack)[..lastStack] && prereqed == old(prereqed) - {old(stack)[lastStack]}
        decreases lastStack + 1 - i
      {
        var popped := stack[|stack| - 1];
        stack := stack[..|stack| - 1];
        prereqed := prereqed - {popped};
        i := i + 1;
      }
    }

    /** do_order: the requirement loop count of one pass over pkgs. */
    method DoOrder(pkgs: seq<Pkg>, mode: Mode) returns (loops: nat)
      requires Settled(color) && Distinct(pkgs)
      modifies this
      ensures Now() == OrderSpec.DoOrder(reqs, mode, old(color), old(prereqed), pkgs)
      ensures loops == nerrors && Settled(color) && Permutes(ordered, pkgs)
    {
      stack, ordered, nerrors := [], [], 0;
      ghost var oldPrereqed := prereqed;
      ghost var cleaned := CleanColors(color, pkgs);
      var i := 0;
      while i < |pkgs|
        invariant 0 <= i <= |pkgs| && stack == [] && ordered == [] && nerrors == 0
        invariant CleanColors(color, pkgs[i..]) == cleaned
        invariant prereqed == oldPrereqed - (set p | p in pkgs[..i])
      {
        color := color[pkgs[i] := White];
        prereqed := prereqed - {pkgs[i]};
        assert pkgs[i..][1..] == pkgs[i + 1..];
        assert pkgs[..i + 1] == pkgs[..i] + [pkgs[i]];
        i := i + 1;
      }
      assert pkgs[..i] == pkgs;
      ghost var start := Now();
      assert start == Start(old(color), old(prereqed), pkgs);
      i := 0;
      while i < |pkgs|
        invariant 0 <= i <= |pkgs| && stack == []
        invariant VisitRoots(reqs, mode, Now(), pkgs[i..]) == VisitRoots(reqs, mode, start, pkgs)
      {
        assert pkgs[i..][1..] == pkgs[i + 1..];
        if ColorOf(color, pkgs[i]) == White {
          VisitInstallOrder(pkgs[i], mode);
          stack := [];
        }
        i := i + 1;
      }
      PassInv(reqs, mode, old(color), old(prereqed), pkgs);
      assert |ordered| == |pkgs|;
      loops := nerrors;
    }

    /** do_packages_order: the pool is sorted by priority, name and EVR, and goes through both passes. */
    method PackagesOrder(pkgs: seq<Pkg>, t: OrderType, less: (Pkg, Pkg) -> bool) returns (result: seq<Pkg>, loops: nat)
      requires Settled(color) && Distinct(pkgs) && pkgs != []
      modifies this
      ensures Settled(color) && Permutes(result, pkgs)
      ensures loops == 0 <==> !HasCycle(Scope(reqs, FlagOf(t), PoolOf(pkgs)))
      ensures loops == 0 <==> Respects(Scope(reqs, FlagOf(t), PoolOf(pkgs)), result)
      ensures Respects(Scope(reqs, AllRequires, PoolOf(pkgs)), result) <==>
              !HasCycle(Scope(reqs, AllRequires, PoolOf(pkgs)))
      ensures var flagged := Scope(reqs, FlagOf(t), PoolOf(pkgs));
              forall u, v :: Edge(flagged, u, v) && !Reaches(flagged, v, u) ==> Before(result, v, u)
      ensures result == OrderSpec.PackagesOrder(reqs, t, old(color), old(prereqed), IndexSpec.ISort(pkgs, less)).ordered
    {
      var inpkgs := SortedPool(pkgs, less);
      PassInv(reqs, AllRequires, color, prereqed, inpkgs);
      var _ := DoOrder(inpkgs, AllRequires);
      var preordered := ordered;
      loops := DoOrder(preordered, FlagOf(t));
      result := ordered;
      TwoPasses(reqs, t, old(color), old(prereqed), inpkgs);
    }
  }

  /** A copy of the pool, sorted by insertion. */
  method SortedPool(pkgs: seq<Pkg>, less: (Pkg, Pkg) -> bool) returns (inpkgs: seq<Pkg>)
    requires Distinct(pkgs)
    ensures inpkgs == IndexSpec.ISort(pkgs, less) && Permutes(inpkgs, pkgs) && PoolOf(inpkgs) == PoolOf(pkgs)
  {
    var a := new Pkg[|pkgs|](i requires 0 <= i < |pkgs| => pkgs[i]);
    assert a[..|pkgs|] == pkgs;
    CapIndex.InsertionSort(a, |pkgs|, less);
    inpkgs := a[..];
    assert inpkgs == a[..|pkgs|];
    IndexSpec.SortIsPermutation(pkgs, less);
    SameMultiset(inpkgs, pkgs);
  }

  lemma SameMultiset(s: seq<Pkg>, t: seq<Pkg>)
    requires Distinct(t) && |s| == |t| && multiset(s) == multiset(t)
    ensures Permutes(s, t) && PoolOf(s) == PoolOf(t)
  {
    DistinctMultiset(t);
    forall i, j | 0 <= i < j < |s| ensures s[i] != s[j] {
      if s[i] == s[j] {
        IndexSpec.TwiceIn(s, i, j);
      }
    }
    forall p ensures p in s <==> p in t {
      assert p in s <==> p in multiset(s);
      assert p in t <==> p in multiset(t);
    }
  }

  lemma NoMoreEdges(g: Graph, mode: Mode, s: State)
    ensures VisitEdges(g, mode, s, Flatten([])) == s
  {
  }
}
