/** The uninstall closure as the source runs it: a context updated by mutually recursive procedures. */
module Uninstall {
  import opened CapMatch
  import opened UninstallSpec
  import opened UninstallTheorems

  class UninstallCtx {
    const db: Db
    var unpkgs: seq<Pkg>
    var gray: set<Pkg>
    var ndep: nat

    ghost function Now(): Context
      reads this
    {
      Context(unpkgs, gray, ndep)
    }

    constructor (db: Db, requested: seq<Pkg>)
      ensures this.db == db && Now() == Context(requested, {}, 0)
    {
      this.db := db;
      unpkgs, gray, ndep := requested, {}, 0;
    }

    /** pkgdb_q_what_requires: the requirers of a capability join the result unless they are excluded. */
    method WhatRequires(found: set<Pkg>, cap: Cap) returns (after: set<Pkg>)
      requires WellFormed(db)
      ensures after == found + (set q | q in db.order && q !in unpkgs && Asks(db, q, cap))
    {
      after := found;
      var i := 0;
      while i < |db.order|
        invariant 0 <= i <= |db.order|
        invariant after == found + (set q | q in db.order[..i] && q !in unpkgs && Asks(db, q, cap))
      {
        var q := db.order[i];
        assert db.order[..i + 1] == db.order[..i] + [q];
        if q in unpkgs || q in after {
        } else if exists r :: r in db.pkgs[q].reqs && r.cap.name == cap.name {
          if !Strictly(db, q, cap) {
            after := after + {q};
          }
        }
        i := i + 1;
      }
      assert db.order[..i] == db.order;
    }

    /** get_orphanedby_pkg: asks for the package's own name, its capabilities and its files. */
    method GetOrphanedByPkg(pkg: Pkg) returns (orphans: set<Pkg>)
      requires WellFormed(db) && pkg in db.pkgs
      ensures orphans == set q | q in db.order && q !in unpkgs && FoundBy(db, q, pkg)
    {
      var p := db.pkgs[pkg].package;
      orphans := WhatRequires({}, NameCap(p.name));
      var i := 0;
      while i < |p.caps|
        invariant 0 <= i <= |p.caps|
        invariant orphans == set q | q in db.order && q !in unpkgs &&
                    (Asks(db, q, NameCap(p.name)) || exists c :: c in p.caps[..i] && Asks(db, q, c))
      {
        orphans := WhatRequires(orphans, p.caps[i]);
        assert forall c :: c in p.caps[..i + 1] <==> c in p.caps[..i] || c == p.caps[i];
        i := i + 1;
      }
      assert p.caps[..i] == p.caps;
      var files := p.files;
      while files != {}
        invariant files <= p.files
        invariant orphans == set q | q in db.order && q !in unpkgs &&
                    (Asks(db, q, NameCap(p.name)) || (exists c :: c in p.caps && Asks(db, q, c)) ||
                     exists f :: f in p.files - files && Asks(db, q, NameCap(f)))
        decreases files
      {
        var path :| path in files;
        orphans := WhatRequires(orphans, NameCap(path));
        assert forall f :: f in p.files - (files - {path}) <==> f in p.files - files || f == path;
        files := files - {path};
      }
    }

    /** The orphans as an array sorted by record number. */
    method SortByRecno(orphans: set<Pkg>, ghost pkg: Pkg) returns (sorted: seq<Pkg>)
      requires orphans == set q | q in db.order && q !in unpkgs && FoundBy(db, q, pkg)
      ensures sorted == Orphans(db, Now(), pkg, db.order)
    {
      hide FoundBy, Orphans;
      sorted := [];
      OrphansStep(db, Now(), pkg, |db.order|);
      var i := |db.order|;
      while i > 0
        invariant 0 <= i <= |db.order|
        invariant sorted == Orphans(db, Now(), pkg, db.order[i..])
      {
        i := i - 1;
        var q := db.order[i];
        OrphansStep(db, Now(), pkg, i);
        assert q in orphans <==> q !in unpkgs && FoundBy(db, q, pkg);
        if q in orphans {
          sorted := [q] + sorted;
        }
      }
      assert db.order[i..] == db.order;
    }

    /** The search for the package that did satisfy the requirement, the requirer first. */
    method FindBypkg(requirer: Pkg, req: Cap) returns (found: bool)
      requires requirer in unpkgs
      ensures found <==> SatisfiedByRemoved(db, unpkgs, req)
    {
      if Strictly(db, requirer, req) { return true; }
      var j := 0;
      while j < |unpkgs|
        invariant 0 <= j <= |unpkgs|
        invariant forall k :: 0 <= k < j ==> !Strictly(db, unpkgs[k], req)
      {
        if Strictly(db, unpkgs[j], req) { return true; }
        j := j + 1;
      }
      return false;
    }

    /** process_pkg_reqs. */
    method ProcessPkgReqs(pkg: Pkg, requirer: Pkg)
      requires WellFormed(db) && pkg in db.pkgs && requirer in unpkgs
      modifies this
      ensures Now() == UninstallSpec.ProcessPkgReqs(db, old(Now()), pkg, ReqsOf(db, pkg))
      decreases |Rest(db, Now())|, 1
    {
      hide Strictly, DbMatch, UninstallSpec.ProcessPackage;
      if pkg in unpkgs { return; }
      var reqs := ReqsOf(db, pkg);
      ghost var start := Now();
      var i := 0;
      while i < |reqs|
        invariant 0 <= i <= |reqs|
        invariant pkg in unpkgs || Now() == start
        invariant start.unpkgs <= unpkgs
        invariant UninstallSpec.ProcessPkgReqs(db, Now(), pkg, reqs[i..]) ==
                  UninstallSpec.ProcessPkgReqs(db, start, pkg, reqs)
      {
        var req := reqs[i];
        assert reqs[i..][1..] == reqs[i + 1..];
        i := i + 1;
        if Strictly(db, pkg, req) {
        } else if exists p :: p in db.pkgs.Keys && p !in unpkgs && DbMatch(db, p, req) {
        } else if pkg !in unpkgs {
          assert start.unpkgs == unpkgs;
          var bypkg := FindBypkg(requirer, req);
          if !bypkg { continue; }
          ghost var before := Now();
          ndep := ndep + 1;
          unpkgs := unpkgs + [pkg];
          assert Now() == Mark(before, pkg);
          assert pkg in Rest(db, before) && pkg !in Rest(db, Now());
          RestShrinks(db, before, Now());
          assert unpkgs[|before.unpkgs|] == pkg;
          ProcessPackage(pkg);
        }
      }
    }

    /** process_package. */
    method ProcessPackage(pkg: Pkg)
      requires WellFormed(db) && pkg in unpkgs && pkg in db.pkgs
      modifies this
      ensures Now() == UninstallSpec.ProcessPackage(db, old(Now()), pkg)
      decreases |Rest(db, Now())|, 3
    {
      if pkg in gray { return; }
      ghost var before := Now();
      gray := gray + {pkg};
      var found := GetOrphanedByPkg(pkg);
      var orphans := SortByRecno(found, pkg);
      SameOrphans(db, before, Now(), pkg, db.order);
      ghost var start := Now();
      var i := 0;
      while i < |orphans|
        invariant 0 <= i <= |orphans| && start.unpkgs <= unpkgs
        invariant UninstallSpec.ProcessOrphans(db, Now(), orphans[i..]) ==
                  UninstallSpec.ProcessOrphans(db, start, orphans)
      {
        assert orphans[i] in orphans && orphans[i..][1..] == orphans[i + 1..];
        RestShrinks(db, start, Now());
        ProcessPkgReqs(orphans[i], pkg);
        i := i + 1;
      }
    }

    /** do_process with POLDEK_OP_FOLLOW. */
    method DoProcess()
      requires Request(db, unpkgs) && gray == {} && ndep == 0
      modifies this
      ensures Now() == UninstallSpec.DoProcess(db, old(unpkgs))
      ensures NoBlindSpots(db) ==> IsLeastClosed(db, Set(old(unpkgs)), Set(unpkgs))
    {
      var tmp := unpkgs;
      ghost var start := Now();
      var i := 0;
      while i < |tmp|
        invariant 0 <= i <= |tmp| && tmp <= unpkgs
        invariant ProcessAll(db, Now(), tmp[i..]) == ProcessAll(db, start, tmp)
      {
        assert tmp[i..][1..] == tmp[i + 1..];
        assert tmp[i] in unpkgs && tmp[i] in Set(tmp);
        ProcessPackage(tmp[i]);
        i := i + 1;
      }
      if NoBlindSpots(db) {
        RemovalIsLeast(db, tmp);
      }
    }
  }

  lemma OrphansStep(db: Db, s: Context, p: Pkg, i: nat)
    requires i <= |db.order|
    ensures Orphans(db, s, p, db.order[i..]) ==
            if i == |db.order| then []
            else (if FoundBy(db, db.order[i], p) && db.order[i] !in s.unpkgs then [db.order[i]] else [])
                 + Orphans(db, s, p, db.order[i + 1..])
  {
    hide FoundBy;
    if i < |db.order| {
      assert db.order[i..][0] == db.order[i] && db.order[i..][1..] == db.order[i + 1..];
    }
  }

  lemma {:induction false} SameOrphans(db: Db, s: Context, t: Context, p: Pkg, order: seq<Pkg>)
    requires s.unpkgs == t.unpkgs
    ensures Orphans(db, s, p, order) == Orphans(db, t, p, order)
    decreases |order|
  {
    if order != [] {
      SameOrphans(db, s, t, p, order[1..]);
    }
  }
}
