/** A database with a blind spot, where the removal list is not closed and depends on record numbers. */
module UninstallBlindSpot {
  import opened Wrappers
  import opened CapMatch
  import opened UninstallSpec
  import opened UninstallTheorems

  const ANY_FOO := NameCap("foo")
  const FOO_1 := Cap("foo", EQUAL, 0, Some("1"), None)
  const FOO_2 := Cap("foo", EQUAL, 0, Some("2"), None)
  const ANY_S := NameCap("s")

  function Older(a: string, b: string): int {
    if a == b then 0 else if a == "1" then -1 else 1
  }

  /** Provides foo = 2. */
  const S := Installed(Package("s", 0, "1", "1", [FOO_2], {}), [])
  /** Requires foo = 2 and itself provides foo = 1. */
  const Q := Installed(Package("q", 0, "1", "1", [FOO_1], {}), [Req(FOO_2, false, false, false)])
  /** Requires s and provides foo without a version. */
  const P := Installed(Package("p", 0, "1", "1", [ANY_FOO], {}), [Req(ANY_S, false, false, false)])

  function Example(order: seq<Pkg>): Db {
    Db(Config(Older, false), map[1 := S, 2 := Q, 3 := P], order)
  }

  lemma Matching(order: seq<Pkg>)
    ensures var db := Example(order);
            && DbMatch(db, 1, FOO_2) && !DbMatch(db, 2, FOO_2) && DbMatch(db, 3, FOO_2)
            && Strictly(db, 1, FOO_2) && !Strictly(db, 2, FOO_2) && Strictly(db, 2, ANY_FOO)
            && Strictly(db, 1, ANY_S) && !Strictly(db, 3, ANY_S)
            && (forall p :: DbMatch(db, p, ANY_S) ==> p == 1)
            && ReqsOf(db, 1) == [] && ReqsOf(db, 2) == [FOO_2] && ReqsOf(db, 3) == [ANY_S]
  {
    var db := Example(order);
    assert Q.reqs[1..] == [] && P.reqs[1..] == [] && InReqs([]) == [];
    assert FOO_2 in S.package.caps && FOO_1 in Q.package.caps && ANY_FOO in P.package.caps;
    assert XMatch(db.conf, FOO_2, FOO_2, LENIENT) && XMatch(db.conf, FOO_2, FOO_2, STRICT);
    assert !XMatch(db.conf, FOO_1, FOO_2, LENIENT) && !XMatch(db.conf, FOO_1, FOO_2, STRICT);
    assert XMatch(db.conf, ANY_FOO, FOO_2, LENIENT) && XMatch(db.conf, FOO_1, ANY_FOO, STRICT);
    assert "foo" != "s" && "foo" != "p" && "foo" != "q" by { assert |"foo"| == 3; }
    assert "s"[0] == 's' && "p"[0] == 'p' && "q"[0] == 'q';
  }

  lemma Found(order: seq<Pkg>)
    ensures var db := Example(order);
            && FoundBy(db, 2, 1) && FoundBy(db, 3, 1) && !FoundBy(db, 1, 1)
            && (forall q :: !FoundBy(db, q, 3)) && (forall q :: !FoundBy(db, q, 2))
  {
    var db := Example(order);
    Matching(order);
    assert Q.reqs[0] in Q.reqs && P.reqs[0] in P.reqs;
    assert "foo" != "s" && "foo" != "p" && "foo" != "q" by { assert |"foo"| == 3; }
    assert "s"[0] == 's' && "p"[0] == 'p' && "q"[0] == 'q';
    assert FOO_2 in S.package.caps;
    assert Asks(db, 2, FOO_2) && Asks(db, 3, ANY_S);
    assert !Asks(db, 2, ANY_FOO) && !Asks(db, 3, ANY_FOO) && !Asks(db, 1, ANY_FOO);
  }

  lemma FoundIsInstalled(db: Db, q: Pkg, p: Pkg)
    requires FoundBy(db, q, p)
    ensures q in db.pkgs
  {
  }

  /** All that the runs below depend on. */
  ghost predicate Facts(db: Db) {
    && WellFormed(db) && db.pkgs.Keys == {1, 2, 3}
    && ReqsOf(db, 2) == [FOO_2] && ReqsOf(db, 3) == [ANY_S]
    && (forall q :: FoundBy(db, q, 1) <==> q == 2 || q == 3)
    && (forall q :: !FoundBy(db, q, 2) && !FoundBy(db, q, 3))
    && Breaks(db, [1], 3, ANY_S) && !Breaks(db, [1], 2, FOO_2) && Breaks(db, [1, 3], 2, FOO_2)
  }

  lemma ExampleFacts(order: seq<Pkg>)
    requires WellFormed(Example(order))
    ensures Facts(Example(order))
  {
    hide FoundBy, Strictly, DbMatch, ReqsOf;
    var db := Example(order);
    Matching(order);
    Found(order);
    forall q ensures FoundBy(db, q, 1) <==> q == 2 || q == 3 {
      if FoundBy(db, q, 1) { FoundIsInstalled(db, q, 1); }
    }
    assert Breaks(db, [1], 3, ANY_S) by { assert 1 in [1]; }
    assert !Breaks(db, [1], 2, FOO_2) by { assert 3 in db.pkgs.Keys && 3 !in [1]; }
    assert Breaks(db, [1, 3], 2, FOO_2) by { assert 1 in [1, 3] && 3 in [1, 3]; }
  }

  /** A package nobody is found to require is only marked gray. */
  lemma ProcessLonely(db: Db, s: Context, p: Pkg)
    requires WellFormed(db) && p !in s.gray && forall q :: !FoundBy(db, q, p)
    ensures ProcessPackage(db, s, p) == s.(gray := s.gray + {p})
  {
    assert Orphans(db, s, p, db.order) == [];
  }

  /** The requirements of a package with a single one. */
  lemma ProcessSingle(db: Db, s: Context, q: Pkg, r: Cap)
    requires WellFormed(db) && q in db.pkgs && q !in s.unpkgs && q !in s.gray && forall x :: !FoundBy(db, x, q)
    ensures ProcessPkgReqs(db, s, q, [r]) ==
            if Breaks(db, s.unpkgs, q, r) then Context(s.unpkgs + [q], s.gray + {q}, s.ndep + 1) else s
  {
    assert [r][1..] == [];
    assert ProcessPkgReqs(db, s, q, []) == s;
    if Breaks(db, s.unpkgs, q, r) {
      ProcessLonely(db, Mark(s, q), q);
    }
  }

  lemma ProcessTwo(db: Db, s: Context, x: Pkg, y: Pkg)
    requires WellFormed(db) && x in db.pkgs && y in db.pkgs
    ensures ProcessOrphans(db, s, [x, y]) ==
            ProcessPkgReqs(db, ProcessPkgReqs(db, s, x, ReqsOf(db, x)), y, ReqsOf(db, y))
  {
    var m := ProcessPkgReqs(db, s, x, ReqsOf(db, x));
    var n := ProcessPkgReqs(db, m, y, ReqsOf(db, y));
    assert [x, y][1..] == [y] && [y][1..] == [];
    assert ProcessOrphans(db, n, []) == n;
    assert ProcessOrphans(db, m, [y]) == n;
  }

  lemma OrphansOfOne(db: Db, s: Context, x: Pkg, y: Pkg)
    requires FoundBy(db, x, 1) && FoundBy(db, y, 1) && !FoundBy(db, 1, 1) && x !in s.unpkgs && y !in s.unpkgs
    ensures Orphans(db, s, 1, [1, x, y]) == [x, y]
  {
    assert [1, x, y][1..] == [x, y] && [x, y][1..] == [y] && [y][1..] == [];
    assert Orphans(db, s, 1, []) == [];
    assert Orphans(db, s, 1, [y]) == [y];
    assert Orphans(db, s, 1, [x, y]) == [x] + [y];
  }

  lemma RemoveOne(db: Db, x: Pkg, y: Pkg)
    requires WellFormed(db) && x in db.pkgs && y in db.pkgs && x != 1 && y != 1 && db.order == [1, x, y]
    requires FoundBy(db, x, 1) && FoundBy(db, y, 1) && !FoundBy(db, 1, 1)
    ensures var grayed := Context([1], {1}, 0);
            DoProcess(db, [1]) == ProcessPkgReqs(db, ProcessPkgReqs(db, grayed, x, ReqsOf(db, x)), y, ReqsOf(db, y))
  {
    var start, grayed := Context([1], {}, 0), Context([1], {1}, 0);
    OrphansOfOne(db, start, x, y);
    ProcessTwo(db, grayed, x, y);
    var final := ProcessPackage(db, start, 1);
    assert start.(gray := start.gray + {1}) == grayed;
    assert final == ProcessOrphans(db, grayed, [x, y]);
    assert [1][1..] == [] && ProcessAll(db, final, []) == final;
    assert ProcessAll(db, start, [1]) == final;
  }

  lemma RemoveInOrder(db: Db)
    requires Facts(db) && db.order == [1, 2, 3]
    ensures DoProcess(db, [1]).unpkgs == [1, 3]
  {
    var grayed := Context([1], {1}, 0);
    RemoveOne(db, 2, 3);
    ProcessSingle(db, grayed, 2, FOO_2);
    ProcessSingle(db, grayed, 3, ANY_S);
    assert [1] + [3] == [1, 3];
  }

  lemma RemoveSwapped(db: Db)
    requires Facts(db) && db.order == [1, 3, 2]
    ensures DoProcess(db, [1]).unpkgs == [1, 3, 2]
  {
    hide DoProcess, ProcessPkgReqs, WellFormed, Breaks, FoundBy;
    var grayed := Context([1], {1}, 0);
    RemoveOne(db, 3, 2);
    ProcessSingle(db, grayed, 3, ANY_S);
    assert [1] + [3] == [1, 3] && [1, 3] + [2] == [1, 3, 2];
    ProcessSingle(db, Context([1, 3], {1} + {3}, 1), 2, FOO_2);
  }

  /**
    Numbered 1, 2, 3: record 2 is looked at while 3 still seems to provide foo, and never again. Numbered
    1, 3, 2 the same packages and the same request remove record 2 as well.
   */
  lemma BlindSpotLosesPackage()
    ensures var db := Example([1, 2, 3]);
            && Request(db, [1]) && DoProcess(db, [1]).unpkgs == [1, 3]
            && BlindSpot(db, 2, FOO_2, 3) && Orphaned(db, {1, 3}, 2)
    ensures var db := Example([1, 3, 2]);
            Request(db, [1]) && DoProcess(db, [1]).unpkgs == [1, 3, 2]
  {
    var db, db' := Example([1, 2, 3]), Example([1, 3, 2]);
    assert WellFormed(db) && WellFormed(db');
    ExampleFacts([1, 2, 3]);
    ExampleFacts([1, 3, 2]);
    RemoveInOrder(db);
    RemoveSwapped(db');
    LeftOrphaned();
  }

  lemma LeftOrphaned()
    ensures BlindSpot(Example([1, 2, 3]), 2, FOO_2, 3) && Orphaned(Example([1, 2, 3]), {1, 3}, 2)
  {
    var db := Example([1, 2, 3]);
    Matching([1, 2, 3]);
    Found([1, 2, 3]);
    assert Q.reqs[0] in Q.reqs && Needs(db, 2, FOO_2);
    assert 1 in {1, 3} && Broken(db, {1, 3}, 2, FOO_2);
  }

  /** A blind spot in full: a provider for sure, of a requirement nothing in the requirer could stand in for. */
  ghost predicate StrictBlindSpot(db: Db, q: Pkg, r: Cap, p: Pkg) {
    BlindSpot(db, q, r, p) && p in db.pkgs && Strictly(db, p, r) && !DbMatch(db, q, r)
  }

  /** Only these two packages are installed. */
  function Pair(db: Db, p: Pkg, q: Pkg): Db
    requires p in db.pkgs && q in db.pkgs
  {
    Db(db.conf, map[p := db.pkgs[p], q := db.pkgs[q]], [p, q])
  }

  lemma {:induction false} NobodyFinds(db: Db, s: Context, p: Pkg, order: seq<Pkg>)
    requires forall q :: q in order ==> !FoundBy(db, q, p) || q in s.unpkgs
    ensures Orphans(db, s, p, order) == []
  {
    if order != [] {
      assert order[0] in order;
      NobodyFinds(db, s, p, order[1..]);
    }
  }

  lemma PairRun(db: Db, q: Pkg, p: Pkg)
    requires p in db.pkgs && q in db.pkgs && !FoundBy(db, q, p) && p != q
    ensures var pair := Pair(db, p, q);
            Request(pair, [p]) && DoProcess(pair, [p]).unpkgs == [p] && Set([p]) == {p}
  {
    var pair := Pair(db, p, q);
    var start := Context([p], {}, 0);
    assert WellFormed(pair);
    assert p in [p] && FoundBy(pair, q, p) == FoundBy(db, q, p);
    hide FoundBy;
    NobodyFinds(pair, start, p, pair.order);
    var final := start.(gray := start.gray + {p});
    assert ProcessPackage(pair, start, p) == final;
    assert [p][1..] == [] && ProcessAll(pair, final, []) == final;
    assert ProcessAll(pair, start, [p]) == final;
    assert Set([p]) == {p} by { assert forall x :: x in [p] <==> x == p; }
  }

  /** Where there is such a blind spot, the two packages alone show it: removing the provider leaves the requirer broken. */
  lemma StrictBlindSpotFails(db: Db, q: Pkg, r: Cap, p: Pkg)
    requires StrictBlindSpot(db, q, r, p)
    ensures var pair := Pair(db, p, q);
            && Request(pair, [p]) && DoProcess(pair, [p]).unpkgs == [p] && Orphaned(pair, {p}, q)
            && !IsLeastClosed(pair, {p}, Set(DoProcess(pair, [p]).unpkgs))
  {
    var pair := Pair(db, p, q);
    PairRun(db, q, p);
    assert Needs(pair, q, r) && Strictly(pair, p, r);
    assert Broken(pair, {p}, q, r);
    hide DoProcess, Needs, Broken;
  }

  // ----- all databases made of some of the packages

  ghost predicate Part(db: Db, part: Db) {
    && WellFormed(part) && part.conf == db.conf && part.pkgs.Keys <= db.pkgs.Keys
    && forall p :: p in part.pkgs ==> part.pkgs[p] == db.pkgs[p]
  }

  /** Whichever of the packages are installed, however they are numbered and whatever is asked for. */
  ghost predicate AlwaysLeast(db: Db) {
    forall part, requested :: Part(db, part) && Request(part, requested) ==>
      IsLeastClosed(part, Set(requested), Set(DoProcess(part, requested).unpkgs))
  }

  ghost predicate NoStrictBlindSpots(db: Db) {
    forall q, r, p :: !StrictBlindSpot(db, q, r, p)
  }

  /** Whoever matches a requirement leniently also satisfies it strictly, as when everything is offered with its version. */
  ghost predicate Precise(db: Db) {
    forall q, r, p :: Needs(db, q, r) && DbMatch(db, p, r) ==> Strictly(db, p, r)
  }

  lemma PartSees(db: Db, part: Db, q: Pkg, r: Cap, p: Pkg)
    requires Part(db, part) && BlindSpot(part, q, r, p)
    ensures BlindSpot(db, q, r, p)
  {
    assert p in part.pkgs && q in part.pkgs;
    assert forall x :: x in part.pkgs ==> (Strictly(part, x, r) <==> Strictly(db, x, r));
    assert FoundBy(part, q, p) == FoundBy(db, q, p);
  }

  lemma PreciseSpotsAreStrict(db: Db, q: Pkg, r: Cap, p: Pkg)
    requires Precise(db) && BlindSpot(db, q, r, p)
    ensures StrictBlindSpot(db, q, r, p)
  {
  }

  /**
    The list is the least closed set in every part of a database only if it has no strict blind spots, and if it
    has none at all. The two are the same where no package meets a requirement only leniently.
   */
  lemma AlwaysLeastExactly(db: Db)
    ensures NoBlindSpots(db) ==> AlwaysLeast(db)
    ensures AlwaysLeast(db) ==> NoStrictBlindSpots(db)
    ensures Precise(db) ==> (AlwaysLeast(db) <==> NoBlindSpots(db))
  {
    hide FoundBy, Strictly, DbMatch, DoProcess, Closed, Needs;
    if NoBlindSpots(db) {
      forall part, requested | Part(db, part) && Request(part, requested)
        ensures IsLeastClosed(part, Set(requested), Set(DoProcess(part, requested).unpkgs))
      {
        forall q, r, p ensures !BlindSpot(part, q, r, p) {
          if BlindSpot(part, q, r, p) { PartSees(db, part, q, r, p); }
        }
        RemovalIsLeast(part, requested);
      }
    }
    forall q, r, p ensures AlwaysLeast(db) ==> !StrictBlindSpot(db, q, r, p) {
      if StrictBlindSpot(db, q, r, p) {
        StrictBlindSpotFails(db, q, r, p);
        assert q in db.pkgs by { NeedsInstalled(db, q, r); }
        assert Part(db, Pair(db, p, q)) && Request(Pair(db, p, q), [p]);
        assert Set([p]) == {p};
      }
    }
    if Precise(db) && NoStrictBlindSpots(db) {
      forall q, r, p ensures !BlindSpot(db, q, r, p) {
        if BlindSpot(db, q, r, p) { PreciseSpotsAreStrict(db, q, r, p); }
      }
    }
  }
}
