/** The uninstall closure (uninstall.c with FOLLOW on, GREEDY and AUTODIRDEP off), as functions on its context. */
module UninstallSpec {
  import opened CapMatch

  /** A database record number stands for an installed package. */
  type Pkg = nat

  datatype Req = Req(cap: Cap, rpmlib: bool, prereq: bool, prereqUn: bool)

  datatype Installed = Installed(package: Package, reqs: seq<Req>)

  /** The rpm database: its records, and the order in which they are numbered. */
  datatype Db = Db(conf: Config, pkgs: map<Pkg, Installed>, order: seq<Pkg>)

  ghost predicate WellFormed(db: Db) {
    forall p :: p in db.order <==> p in db.pkgs
  }

  /** The requirements that pkg_req_iter yields and process_pkg_reqs looks at. */
  function InReqs(reqs: seq<Req>): seq<Cap>
  {
    if reqs == [] then []
    else
      var r := reqs[0];
      (if r.rpmlib || (r.prereqUn && !r.prereq) then [] else [r.cap]) + InReqs(reqs[1..])
  }

  function ReqsOf(db: Db, q: Pkg): seq<Cap> {
    if q in db.pkgs then InReqs(db.pkgs[q].reqs) else []
  }

  /** pkg_satisfies_req with strict set. */
  predicate Strictly(db: Db, p: Pkg, r: Cap) {
    p in db.pkgs && Satisfies(db.conf, db.pkgs[p].package, r, true)
  }

  /**
    pkgdb_match_req on one record. Its `ma_flags` argument is the value of `strict`, which is the bit of
    POLDEK_MA_PROMOTE_VERSION, so the database is asked leniently.
   */
  predicate DbMatch(db: Db, p: Pkg, r: Cap) {
    && p in db.pkgs
    && var pkg := db.pkgs[p].package;
       || (!r.IsFile() && pkg.name == r.name && CapsMatch(db.conf, pkg.caps, r, LENIENT))
       || ((exists c :: c in pkg.caps && c.name == r.name) && (r.IsFile() || CapsMatch(db.conf, pkg.caps, r, LENIENT)))
       || (r.IsFile() && r.name in pkg.files)
  }

  /** q_what_requires on one record: a requirer by name that does not itself satisfy what was asked for. */
  predicate Asks(db: Db, q: Pkg, c: Cap) {
    && q in db.pkgs
    && (exists r :: r in db.pkgs[q].reqs && r.cap.name == c.name)
    && !Strictly(db, q, c)
  }

  predicate FoundBy(db: Db, q: Pkg, p: Pkg) {
    && p in db.pkgs
    && var pkg := db.pkgs[p].package;
       || Asks(db, q, NameCap(pkg.name))
       || (exists c :: c in pkg.caps && Asks(db, q, c))
       || (exists f :: f in pkg.files && Asks(db, q, NameCap(f)))
  }

  /** unpkgs, the packages marked gray, and the number of dependency marks. */
  datatype Context = Context(unpkgs: seq<Pkg>, gray: set<Pkg>, ndep: nat)

  ghost function Rest(db: Db, s: Context): set<Pkg> {
    db.pkgs.Keys - (set p | p in s.unpkgs)
  }

  /** Requirers of p found in the database and not yet marked, by record number. */
  function Orphans(db: Db, s: Context, p: Pkg, order: seq<Pkg>): (qs: seq<Pkg>)
    ensures forall q :: q in qs <==> q in order && FoundBy(db, q, p) && q !in s.unpkgs
    ensures qs != [] ==> FoundBy(db, qs[0], p)
  {
    if order == [] then []
    else
      (if FoundBy(db, order[0], p) && order[0] !in s.unpkgs then [order[0]] else [])
      + Orphans(db, s, p, order[1..])
  }

  /** The requirement stays satisfied by a package that is not to be removed. */
  predicate SatisfiedByDb(db: Db, unpkgs: seq<Pkg>, r: Cap) {
    exists p :: p in db.pkgs.Keys && p !in unpkgs && DbMatch(db, p, r)
  }

  predicate SatisfiedByRemoved(db: Db, unpkgs: seq<Pkg>, r: Cap) {
    exists p :: p in unpkgs && Strictly(db, p, r)
  }

  /** The three tests of process_pkg_reqs that let a requirement pass. */
  predicate Breaks(db: Db, unpkgs: seq<Pkg>, q: Pkg, r: Cap) {
    !Strictly(db, q, r) && !SatisfiedByDb(db, unpkgs, r) && SatisfiedByRemoved(db, unpkgs, r)
  }

  /** process_package. */
  ghost function ProcessPackage(db: Db, s: Context, p: Pkg): (r: Context)
    requires WellFormed(db)
    ensures s.unpkgs <= r.unpkgs
    decreases |Rest(db, s)|, 3, 0
  {
    if p in s.gray then s
    else
      var grayed := s.(gray := s.gray + {p});
      ProcessOrphans(db, grayed, Orphans(db, s, p, db.order))
  }

  ghost function ProcessOrphans(db: Db, s: Context, qs: seq<Pkg>): (r: Context)
    requires WellFormed(db)
    requires forall q :: q in qs ==> q in db.pkgs
    ensures s.unpkgs <= r.unpkgs
    decreases |Rest(db, s)|, 2, |qs|
  {
    if qs == [] then s
    else
      assert qs[0] in qs && forall q :: q in qs[1..] ==> q in qs;
      var next := ProcessPkgReqs(db, s, qs[0], ReqsOf(db, qs[0]));
      RestShrinks(db, s, next);
      ProcessOrphans(db, next, qs[1..])
  }

  /** process_pkg_reqs from some requirement on; once the package is marked nothing more happens. */
  ghost function ProcessPkgReqs(db: Db, s: Context, q: Pkg, rs: seq<Cap>): (r: Context)
    requires WellFormed(db) && q in db.pkgs
    ensures s.unpkgs <= r.unpkgs
    decreases |Rest(db, s)|, 1, |rs|
  {
    if rs == [] || q in s.unpkgs then s
    else if Breaks(db, s.unpkgs, q, rs[0]) then
      var marked := Mark(s, q);
      assert q in Rest(db, s) && q !in Rest(db, marked);
      RestShrinks(db, s, marked);
      ProcessPackage(db, marked, q)
    else ProcessPkgReqs(db, s, q, rs[1..])
  }

  function Mark(s: Context, q: Pkg): Context {
    s.(unpkgs := s.unpkgs + [q], ndep := s.ndep + 1)
  }

  lemma RestShrinks(db: Db, s: Context, r: Context)
    requires s.unpkgs <= r.unpkgs
    ensures Rest(db, r) <= Rest(db, s) && |Rest(db, r)| <= |Rest(db, s)|
    ensures Rest(db, r) != Rest(db, s) ==> |Rest(db, r)| < |Rest(db, s)|
  {
    assert forall p :: p in s.unpkgs ==> p in r.unpkgs;
    var gone := Rest(db, s) - Rest(db, r);
    assert Rest(db, s) == Rest(db, r) + gone;
    assert Rest(db, r) != Rest(db, s) ==> gone != {};
  }

  ghost function ProcessAll(db: Db, s: Context, ps: seq<Pkg>): (r: Context)
    requires WellFormed(db)
    ensures s.unpkgs <= r.unpkgs
    decreases |ps|
  {
    if ps == [] then s else ProcessAll(db, ProcessPackage(db, s, ps[0]), ps[1..])
  }

  /** do_process on the requested packages. */
  ghost function DoProcess(db: Db, requested: seq<Pkg>): Context
    requires WellFormed(db)
  {
    ProcessAll(db, Context(requested, {}, 0), requested)
  }
}
