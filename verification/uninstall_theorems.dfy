/** Which packages an uninstall drags along. */
module UninstallTheorems {
  import opened CapMatch
  import opened UninstallSpec

  /** q is installed and has this requirement, which is neither rpmlib's nor one for its removal only. */
  ghost predicate Needs(db: Db, q: Pkg, c: Cap) {
    q in db.pkgs && exists r :: r in db.pkgs[q].reqs && r.cap == c && !r.rpmlib && (r.prereqUn ==> r.prereq)
  }

  lemma {:induction false} InReqsExactly(reqs: seq<Req>, c: Cap)
    ensures c in InReqs(reqs) <==> exists r :: r in reqs && r.cap == c && !r.rpmlib && (r.prereqUn ==> r.prereq)
  {
    if reqs != [] {
      InReqsExactly(reqs[1..], c);
      assert forall r :: r in reqs <==> r == reqs[0] || r in reqs[1..];
    }
  }

  lemma NeedsInstalled(db: Db, q: Pkg, r: Cap)
    requires Needs(db, q, r)
    ensures q in db.pkgs
  {
  }

  /** The iterator over the requirements comes to all that are needed and to nothing else. */
  lemma ReqsAreNeeds(db: Db, q: Pkg)
    ensures forall c :: c in ReqsOf(db, q) <==> Needs(db, q, c)
  {
    forall c ensures c in ReqsOf(db, q) <==> Needs(db, q, c) {
      if q in db.pkgs { InReqsExactly(db.pkgs[q].reqs, c); }
    }
  }

  ghost predicate Provides(db: Db, p: Pkg, r: Cap) {
    Strictly(db, p, r) || DbMatch(db, p, r)
  }

  /** Nothing outside the set satisfies the requirement any more, and something inside it did. */
  ghost predicate Broken(db: Db, removed: set<Pkg>, q: Pkg, r: Cap) {
    && !Strictly(db, q, r)
    && (forall p :: p in db.pkgs && DbMatch(db, p, r) ==> p in removed)
    && (exists p :: p in removed && Strictly(db, p, r))
  }

  ghost predicate Orphaned(db: Db, removed: set<Pkg>, q: Pkg) {
    exists c :: Needs(db, q, c) && Broken(db, removed, q, c)
  }

  /** No package that stays has lost a requirement to the removal. */
  ghost predicate Closed(db: Db, removed: set<Pkg>) {
    forall q :: Orphaned(db, removed, q) ==> q in removed
  }

  ghost predicate IsLeastClosed(db: Db, requested: set<Pkg>, removed: set<Pkg>) {
    && requested <= removed && Closed(db, removed)
    && forall s :: requested <= s && Closed(db, s) ==> removed <= s
  }

  ghost function Set(ps: seq<Pkg>): set<Pkg> {
    set p | p in ps
  }

  /** The query for requirers of p passes over q, although p provides what q requires. */
  ghost predicate BlindSpot(db: Db, q: Pkg, r: Cap, p: Pkg) {
    && Needs(db, q, r) && !Strictly(db, q, r)
    && p != q && Provides(db, p, r) && !FoundBy(db, q, p)
  }

  /** What the database takes for satisfied, the lenient matching spelled out. */
  lemma DbMatchExactly(db: Db, p: Pkg, r: Cap)
    requires !db.conf.promoteEpoch && p in db.pkgs
    ensures var pkg := db.pkgs[p].package;
            var named := exists c :: c in pkg.caps && c.name == r.name;
            && (r.IsFile() ==> (DbMatch(db, p, r) <==> named || r.name in pkg.files))
            && (!r.IsFile() && !r.Versioned() ==> (DbMatch(db, p, r) <==> named))
            && (!r.IsFile() && r.Versioned() && r.ver.Some? ==>
                  (DbMatch(db, p, r) <==>
                   exists c :: c in pkg.caps && c.name == r.name &&
                               (InRelation(db.conf.vercmp, c, r) || TooVague(db.conf.vercmp, c, r))))
  {
    hide InRelation, TooVague;
    if r.Versioned() && r.ver.Some? {
      forall c ensures XMatch(db.conf, c, r, LENIENT) <==>
                       c.name == r.name && (InRelation(db.conf.vercmp, c, r) || TooVague(db.conf.vercmp, c, r))
      {
        MatchExactly(db.conf, c, r);
      }
    }
  }

  /** What counts as satisfied strictly. */
  lemma StrictlyExactly(db: Db, p: Pkg, r: Cap)
    requires !db.conf.promoteEpoch && p in db.pkgs
    ensures var pkg := db.pkgs[p].package;
            && (r.IsFile() ==> (Strictly(db, p, r) <==> r.name in pkg.files))
            && (!r.IsFile() && !r.Versioned() ==>
                  (Strictly(db, p, r) <==> pkg.name == r.name || exists c :: c in pkg.caps && c.name == r.name))
            && (!r.IsFile() && r.Versioned() && r.ver.Some? ==> (Strictly(db, p, r) <==> Offers(db.conf.vercmp, pkg, r)))
  {
    SatisfiesExactly(db.conf, db.pkgs[p].package, r);
  }

  lemma BreaksIsBroken(db: Db, unpkgs: seq<Pkg>, q: Pkg, r: Cap)
    ensures Breaks(db, unpkgs, q, r) <==> Broken(db, Set(unpkgs), q, r)
  {
  }

  lemma BrokenMonotone(db: Db, small: set<Pkg>, big: set<Pkg>, q: Pkg, r: Cap)
    requires Broken(db, small, q, r) && small <= big
    ensures Broken(db, big, q, r)
  {
  }

  // ----- no package too many

  lemma {:induction false} PackageStaysBelow(db: Db, s: Context, p: Pkg, l: set<Pkg>)
    requires WellFormed(db) && Closed(db, l) && Set(s.unpkgs) <= l
    ensures Set(ProcessPackage(db, s, p).unpkgs) <= l
    decreases |Rest(db, s)|, 3, 0
  {
    if p !in s.gray {
      OrphansStayBelow(db, s.(gray := s.gray + {p}), Orphans(db, s, p, db.order), l);
    }
  }

  lemma {:induction false} OrphansStayBelow(db: Db, s: Context, qs: seq<Pkg>, l: set<Pkg>)
    requires WellFormed(db) && Closed(db, l) && Set(s.unpkgs) <= l
    requires forall q :: q in qs ==> q in db.pkgs
    ensures Set(ProcessOrphans(db, s, qs).unpkgs) <= l
    decreases |Rest(db, s)|, 2, |qs|
  {
    hide Needs;
    if qs != [] {
      assert qs[0] in qs && forall q :: q in qs[1..] ==> q in qs;
      var next := ProcessPkgReqs(db, s, qs[0], ReqsOf(db, qs[0]));
      RestShrinks(db, s, next);
      ReqsAreNeeds(db, qs[0]);
      ReqsStayBelow(db, s, qs[0], ReqsOf(db, qs[0]), l);
      OrphansStayBelow(db, next, qs[1..], l);
    }
  }

  lemma {:induction false} ReqsStayBelow(db: Db, s: Context, q: Pkg, rs: seq<Cap>, l: set<Pkg>)
    requires WellFormed(db) && q in db.pkgs && Closed(db, l) && Set(s.unpkgs) <= l
    requires forall r :: r in rs ==> Needs(db, q, r)
    ensures Set(ProcessPkgReqs(db, s, q, rs).unpkgs) <= l
    decreases |Rest(db, s)|, 1, |rs|
  {
    hide Needs;
    if rs != [] && q !in s.unpkgs {
      assert rs[0] in rs && forall r :: r in rs[1..] ==> r in rs;
      if Breaks(db, s.unpkgs, q, rs[0]) {
        BreaksIsBroken(db, s.unpkgs, q, rs[0]);
        BrokenMonotone(db, Set(s.unpkgs), l, q, rs[0]);
        var marked := Mark(s, q);
        assert q in Rest(db, s) && q !in Rest(db, marked);
        RestShrinks(db, s, marked);
        PackageStaysBelow(db, marked, q, l);
      } else {
        ReqsStayBelow(db, s, q, rs[1..], l);
      }
    }
  }

  lemma {:induction false} AllStayBelow(db: Db, s: Context, ps: seq<Pkg>, l: set<Pkg>)
    requires WellFormed(db) && Closed(db, l) && Set(s.unpkgs) <= l
    ensures Set(ProcessAll(db, s, ps).unpkgs) <= l
    decreases |ps|
  {
    if ps != [] {
      PackageStaysBelow(db, s, ps[0], l);
      AllStayBelow(db, ProcessPackage(db, s, ps[0]), ps[1..], l);
    }
  }

  // ----- no package too few, but for blind spots

  ghost predicate Sane(db: Db, s: Context) {
    && s.gray <= Set(s.unpkgs) <= db.pkgs.Keys
    && (forall i, j :: 0 <= i < j < |s.unpkgs| ==> s.unpkgs[i] != s.unpkgs[j])
  }

  /** Somebody will still, or could never, come across the broken requirement. */
  ghost predicate Attended(db: Db, s: Context, due: set<(Pkg, Pkg)>, q: Pkg, r: Cap) {
    exists p :: p in s.unpkgs && Provides(db, p, r) && (!FoundBy(db, q, p) || p !in s.gray || (p, q) in due)
  }

  /** Every broken requirement of a package that stays is attended to; due are the checks callers still owe. */
  ghost predicate Outstanding(db: Db, s: Context, due: set<(Pkg, Pkg)>) {
    forall q, r :: q !in s.unpkgs && Needs(db, q, r) && Broken(db, Set(s.unpkgs), q, r) ==>
      Attended(db, s, due, q, r)
  }

  ghost predicate Advances(s: Context, r: Context) {
    && s.unpkgs <= r.unpkgs && s.gray <= r.gray
    && (forall p :: p in r.unpkgs && p !in s.unpkgs ==> p in r.gray)
    && r.ndep - s.ndep == |r.unpkgs| - |s.unpkgs|
  }

  lemma AdvancesTwice(s: Context, m: Context, r: Context)
    requires Advances(s, m) && Advances(m, r)
    ensures Advances(s, r)
  {
  }

  lemma MarkAdvances(s: Context, q: Pkg, r: Context)
    requires Advances(Mark(s, q), r) && q in r.gray
    ensures Advances(s, r) && q in r.unpkgs
  {
    assert r.unpkgs[|s.unpkgs|] == q;
  }

  lemma AdvancesNot(s: Context)
    ensures Advances(s, s)
  {
  }

  lemma MarkKeeps(db: Db, s: Context, due: set<(Pkg, Pkg)>, x: Pkg)
    requires Sane(db, s) && Outstanding(db, s, due) && x in db.pkgs && x !in s.unpkgs
    ensures Sane(db, Mark(s, x)) && Outstanding(db, Mark(s, x), due)
  {
    hide Needs;
    var m := Mark(s, x);
    assert Set(m.unpkgs) == Set(s.unpkgs) + {x};
    forall q, r | q !in m.unpkgs && Needs(db, q, r) && Broken(db, Set(m.unpkgs), q, r)
      ensures Attended(db, m, due, q, r)
    {
      if Broken(db, Set(s.unpkgs), q, r) {
        var p :| p in s.unpkgs && Provides(db, p, r) && (!FoundBy(db, q, p) || p !in s.gray || (p, q) in due);
        assert p in m.unpkgs;
      } else {
        assert x in m.unpkgs && x !in m.gray;
        assert Provides(db, x, r);
      }
    }
  }

  lemma GrayKeeps(db: Db, s: Context, due: set<(Pkg, Pkg)>, p: Pkg, owed: set<(Pkg, Pkg)>)
    requires WellFormed(db) && Sane(db, s) && Outstanding(db, s, due) && p in s.unpkgs
    requires due <= owed && forall q :: q in Orphans(db, s, p, db.order) ==> (p, q) in owed
    ensures Sane(db, s.(gray := s.gray + {p})) && Outstanding(db, s.(gray := s.gray + {p}), owed)
  {
    hide Needs, Broken, FoundBy, Provides;
    var g := s.(gray := s.gray + {p});
    forall q, r | q !in g.unpkgs && Needs(db, q, r) && Broken(db, Set(g.unpkgs), q, r)
      ensures Attended(db, g, owed, q, r)
    {
      assert Attended(db, s, due, q, r);
      var w :| w in s.unpkgs && Provides(db, w, r) && (!FoundBy(db, q, w) || w !in s.gray || (w, q) in due);
      if w == p && FoundBy(db, q, p) {
        NeedsInstalled(db, q, r);
        assert q in Orphans(db, s, p, db.order);
      }
    }
  }

  /** The checks that remain while the packages qs, found for p, are gone through. */
  ghost function Owed(due: set<(Pkg, Pkg)>, p: Pkg, qs: seq<Pkg>): set<(Pkg, Pkg)> {
    due + (set q | q in qs :: (p, q))
  }

  lemma {:induction false} PackageKeeps(db: Db, s: Context, p: Pkg, due: set<(Pkg, Pkg)>)
    requires WellFormed(db) && Sane(db, s) && Outstanding(db, s, due) && p in s.unpkgs
    ensures var r := ProcessPackage(db, s, p);
            Sane(db, r) && Outstanding(db, r, due) && Advances(s, r) && p in r.gray
    decreases |Rest(db, s)|, 3, 0
  {
    if p !in s.gray {
      var qs := Orphans(db, s, p, db.order);
      var owed := Owed(due, p, qs);
      GrayKeeps(db, s, due, p, owed);
      OrphansKeep(db, s.(gray := s.gray + {p}), p, qs, due);
    }
  }

  lemma {:induction false} OrphansKeep(db: Db, s: Context, p: Pkg, qs: seq<Pkg>, due: set<(Pkg, Pkg)>)
    requires WellFormed(db) && Sane(db, s) && forall q :: q in qs ==> q in db.pkgs
    requires Outstanding(db, s, Owed(due, p, qs))
    ensures var r := ProcessOrphans(db, s, qs);
            Sane(db, r) && Outstanding(db, r, due) && Advances(s, r)
    decreases |Rest(db, s)|, 2, |qs|
  {
    hide Needs, Broken, Attended, FoundBy, Sane, Outstanding, ProcessPackage, ProcessPkgReqs, ReqsOf;
    if qs == [] {
      assert Owed(due, p, qs) == due;
      AdvancesNot(s);
    } else {
      hide Owed, Advances;
      var q := qs[0];
      assert q in qs && forall x :: x in qs[1..] ==> x in qs;
      var owed := Owed(due, p, qs);
      var next := ProcessPkgReqs(db, s, q, ReqsOf(db, q));
      RestShrinks(db, s, next);
      ReqsAreNeeds(db, q);
      ReqsKeep(db, s, q, ReqsOf(db, q), owed);
      OwedIsLeft(db, next, p, qs, due);
      OrphansKeep(db, next, p, qs[1..], due);
      AdvancesTwice(s, next, ProcessOrphans(db, next, qs[1..]));
    }
  }

  /** The first of the packages owed a look has had it. */
  lemma OwedIsLeft(db: Db, s: Context, p: Pkg, qs: seq<Pkg>, due: set<(Pkg, Pkg)>)
    requires qs != [] && Outstanding(db, s, Owed(due, p, qs))
    requires qs[0] in s.unpkgs || forall r :: Needs(db, qs[0], r) ==> !Broken(db, Set(s.unpkgs), qs[0], r)
    ensures Outstanding(db, s, Owed(due, p, qs[1..]))
  {
    hide Needs, Broken, FoundBy, Provides;
    assert forall x :: x in qs <==> x == qs[0] || x in qs[1..];
    var owed := Owed(due, p, qs);
    var left := Owed(due, p, qs[1..]);
    forall x, r | x !in s.unpkgs && Needs(db, x, r) && Broken(db, Set(s.unpkgs), x, r)
      ensures Attended(db, s, left, x, r)
    {
      assert x != qs[0];
      assert Attended(db, s, owed, x, r);
      assert forall w :: (w, x) in owed ==> (w, x) in left;
    }
  }

  lemma {:induction false} ReqsKeep(db: Db, s: Context, q: Pkg, rs: seq<Cap>, due: set<(Pkg, Pkg)>)
    requires WellFormed(db) && Sane(db, s) && Outstanding(db, s, due) && q in db.pkgs
    requires forall r :: r in rs ==> Needs(db, q, r)
    ensures var r := ProcessPkgReqs(db, s, q, rs);
            && Sane(db, r) && Outstanding(db, r, due) && Advances(s, r)
            && (q in r.unpkgs || (r == s && forall x :: x in rs ==> !Broken(db, Set(s.unpkgs), q, x)))
    decreases |Rest(db, s)|, 1, |rs|
  {
    hide Needs, Breaks, Broken, Attended, FoundBy, Outstanding, ProcessPackage, ProcessOrphans, Strictly, Sane;
    AdvancesNot(s);
    hide Advances;
    if rs != [] && q !in s.unpkgs {
      assert rs[0] in rs && forall r :: r in rs <==> r == rs[0] || r in rs[1..];
      BreaksIsBroken(db, s.unpkgs, q, rs[0]);
      if Breaks(db, s.unpkgs, q, rs[0]) {
        var marked := Mark(s, q);
        assert q in Rest(db, s) && q !in Rest(db, marked);
        RestShrinks(db, s, marked);
        MarkKeeps(db, s, due, q);
        assert marked.unpkgs[|s.unpkgs|] == q;
        PackageKeeps(db, marked, q, due);
        MarkAdvances(s, q, ProcessPackage(db, marked, q));
      } else {
        ReqsKeep(db, s, q, rs[1..], due);
      }
    }
  }

  lemma {:induction false} AllKeep(db: Db, s: Context, ps: seq<Pkg>)
    requires WellFormed(db) && Sane(db, s) && Outstanding(db, s, {}) && forall p :: p in ps ==> p in s.unpkgs
    ensures var r := ProcessAll(db, s, ps);
            Sane(db, r) && Outstanding(db, r, {}) && Advances(s, r) && forall p :: p in ps ==> p in r.gray
    decreases |ps|
  {
    if ps != [] {
      assert ps[0] in ps && forall p :: p in ps <==> p == ps[0] || p in ps[1..];
      PackageKeeps(db, s, ps[0], {});
      AllKeep(db, ProcessPackage(db, s, ps[0]), ps[1..]);
    }
  }

  ghost predicate Request(db: Db, requested: seq<Pkg>) {
    && WellFormed(db) && Set(requested) <= db.pkgs.Keys
    && forall i, j :: 0 <= i < j < |requested| ==> requested[i] != requested[j]
  }

  /**
    What holds of every run. The removal list extends the request by the packages counted as dependency marks,
    stays within every closed set around the request, and where it leaves a package with a broken requirement,
    the query for requirers of one of its removed providers passed over that package.
   */
  lemma RemovalIsSound(db: Db, requested: seq<Pkg>)
    requires Request(db, requested)
    ensures var r := DoProcess(db, requested);
            && requested <= r.unpkgs && r.ndep == |r.unpkgs| - |requested|
            && Set(r.unpkgs) <= db.pkgs.Keys
            && (forall s :: Set(requested) <= s && Closed(db, s) ==> Set(r.unpkgs) <= s)
            && (forall q, c :: q !in r.unpkgs && Needs(db, q, c) && Broken(db, Set(r.unpkgs), q, c) ==>
                  exists p :: p in r.unpkgs && BlindSpot(db, q, c, p))
  {
    hide Needs;
    var start := Context(requested, {}, 0);
    var r := DoProcess(db, requested);
    forall s | Set(requested) <= s && Closed(db, s) ensures Set(r.unpkgs) <= s {
      AllStayBelow(db, start, requested, s);
    }
    forall q, c | q !in start.unpkgs && Needs(db, q, c) && Broken(db, Set(start.unpkgs), q, c)
      ensures Attended(db, start, {}, q, c)
    {
      var p :| p in Set(requested) && Strictly(db, p, c);
      assert p in start.unpkgs && p !in start.gray;
    }
    AllKeep(db, start, requested);
    forall q, c | q !in r.unpkgs && Needs(db, q, c) && Broken(db, Set(r.unpkgs), q, c)
      ensures exists p :: p in r.unpkgs && BlindSpot(db, q, c, p)
    {
      assert Attended(db, r, {}, q, c);
      var p :| p in r.unpkgs && Provides(db, p, c) && (!FoundBy(db, q, p) || p !in r.gray || (p, q) in {});
      assert p in requested || p in r.gray;
      assert BlindSpot(db, q, c, p);
    }
  }

  ghost predicate NoBlindSpots(db: Db) {
    forall q, r, p :: !BlindSpot(db, q, r, p)
  }

  /** Without blind spots the removal list is the least closed set around the request. */
  lemma RemovalIsLeast(db: Db, requested: seq<Pkg>)
    requires Request(db, requested) && NoBlindSpots(db)
    ensures IsLeastClosed(db, Set(requested), Set(DoProcess(db, requested).unpkgs))
  {
    RemovalIsSound(db, requested);
    var r := DoProcess(db, requested);
    forall q | Orphaned(db, Set(r.unpkgs), q) ensures q in Set(r.unpkgs) {
      var c :| Needs(db, q, c) && Broken(db, Set(r.unpkgs), q, c);
      assert forall p :: !BlindSpot(db, q, c, p);
    }
  }

  /** Then neither the numbering of the records nor the order of the request matters. */
  lemma RemovalIgnoresOrder(db: Db, order: seq<Pkg>, requested: seq<Pkg>, requested': seq<Pkg>)
    requires Request(db, requested) && NoBlindSpots(db)
    requires Request(db.(order := order), requested') && Set(requested) == Set(requested')
    ensures Set(DoProcess(db, requested).unpkgs) == Set(DoProcess(db.(order := order), requested').unpkgs)
  {
    var db' := db.(order := order);
    RemovalIsLeast(db, requested);
    forall q, r, p ensures !BlindSpot(db', q, r, p) {
      assert !BlindSpot(db, q, r, p);
    }
    RemovalIsLeast(db', requested');
    var a, b := Set(DoProcess(db, requested).unpkgs), Set(DoProcess(db', requested').unpkgs);
    forall s ensures Closed(db, s) <==> Closed(db', s) {
      forall q ensures Orphaned(db, s, q) <==> Orphaned(db', s, q) {
        forall r ensures Broken(db, s, q, r) <==> Broken(db', s, q, r) {
          assert forall p :: Strictly(db, p, r) <==> Strictly(db', p, r);
          assert forall p :: DbMatch(db, p, r) <==> DbMatch(db', p, r);
        }
        assert forall r :: Needs(db, q, r) <==> Needs(db', q, r);
      }
    }
  }

  // ----- databases without blind spots

  /** The package offers something of this name: itself, a capability or a file. */
  ghost predicate OffersName(p: Package, name: string) {
    p.name == name || (exists c :: c in p.caps && c.name == name) || name in p.files
  }

  /** No installed package offers a name that it requires from somebody else. */
  ghost predicate NoShadows(db: Db) {
    forall q, r :: Needs(db, q, r) && !Strictly(db, q, r) ==>
      !OffersName(db.pkgs[q].package, r.name)
  }

  lemma SatisfierOffers(db: Db, q: Pkg, c: Cap)
    requires Strictly(db, q, c)
    ensures OffersName(db.pkgs[q].package, c.name)
  {
  }

  /** A provider offers the name, so its requirers are asked for by that name. */
  lemma ProviderIsAskedFor(db: Db, p: Pkg, r: Cap) returns (c: Cap)
    requires Provides(db, p, r)
    ensures c.name == r.name
    ensures var pkg := db.pkgs[p].package;
            c == NameCap(pkg.name) || c in pkg.caps || (c.name in pkg.files && c == NameCap(c.name))
  {
    var pkg := db.pkgs[p].package;
    if pkg.name == r.name || r.name in pkg.files {
      c := NameCap(r.name);
    } else {
      c :| c in pkg.caps && c.name == r.name;
    }
  }

  lemma NoShadowsNoBlindSpots(db: Db)
    requires NoShadows(db)
    ensures NoBlindSpots(db)
  {
    forall q, r, p ensures !BlindSpot(db, q, r, p) {
      if Needs(db, q, r) && !Strictly(db, q, r) && Provides(db, p, r) {
        var c := ProviderIsAskedFor(db, p, r);
        if Strictly(db, q, c) {
          SatisfierOffers(db, q, c);
        }
        assert Asks(db, q, c);
      }
    }
  }
}
