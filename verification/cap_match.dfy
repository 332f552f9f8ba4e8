/** Capabilities, requirements and how they match (pkg.c). */
module CapMatch {
  import opened Wrappers
  import opened Relations

  /** A struct capreq; an epoch of zero is not stored. */
  datatype Cap = Cap(name: string, rel: Rel, epoch: int, ver: Option<string>, release: Option<string>) {
    predicate Versioned() {
      rel.Any()
    }
    predicate HasEpoch() {
      epoch != 0
    }
    predicate IsFile() {
      name != "" && name[0] == '/'
    }
  }

  const EQUAL := Rel(false, true, false)

  function NameCap(name: string): Cap {
    Cap(name, NO_RELATION, 0, None, None)
  }

  /** The POLDEK_MA_PROMOTE_* bits. */
  datatype MatchFlags = MatchFlags(version: bool, reqEpoch: bool, capEpoch: bool)

  const STRICT := MatchFlags(false, false, false)
  const LENIENT := MatchFlags(true, false, false)

  /** The package manager's version comparison and the promote_epoch setting. */
  datatype Config = Config(vercmp: (string, string) -> int, promoteEpoch: bool)

  predicate RelMatch(cmprc: int, rel: Rel) {
    if cmprc == 0 then rel.eq else if cmprc > 0 then rel.gt else rel.lt
  }

  /** cap_xmatch_req. */
  predicate XMatch(conf: Config, cap: Cap, req: Cap, flags: MatchFlags) {
    if cap.name != req.name then false
    else if !req.Versioned() then true
    else
      var byEpoch := cap.HasEpoch() || req.HasEpoch();
      var promoted := byEpoch &&
                      ((!req.HasEpoch() && (flags.reqEpoch || conf.promoteEpoch)) ||
                       (!cap.HasEpoch() && (flags.capEpoch || conf.promoteEpoch)));
      if byEpoch && !promoted && cap.epoch != req.epoch then RelMatch(cap.epoch - req.epoch, req.rel)
      else if req.ver.Some? && cap.ver.None? then flags.version
      else
        var vcmp := if req.ver.Some? then conf.vercmp(cap.ver.value, req.ver.value) else 0;
        if vcmp != 0 then RelMatch(vcmp, req.rel)
        else if req.release.Some? && cap.release.None? then flags.version
        else
          var rcmp := if req.release.Some? then conf.vercmp(cap.release.value, req.release.value) else 0;
          if rcmp != 0 then RelMatch(rcmp, req.rel)
          else if byEpoch || req.ver.Some? || req.release.Some? then RelMatch(0, req.rel) else true
  }

  /** What matching needs to know of a package. */
  datatype Package = Package(name: string, epoch: int, ver: string, release: string,
                             caps: seq<Cap>, files: set<string>)

  function SelfCap(p: Package): Cap {
    Cap(p.name, EQUAL, p.epoch, Some(p.ver), Some(p.release))
  }

  /** pkg_evr_match_req, for a requirement that names the package. */
  predicate EvrMatch(conf: Config, p: Package, req: Cap, flags: MatchFlags) {
    if !req.Versioned() then true
    else if flags.version || flags.reqEpoch || flags.capEpoch then
      XMatch(conf, SelfCap(p), req, STRICT) ||
      (p.epoch != 0 && XMatch(conf, SelfCap(p), req, STRICT.(reqEpoch := true)))
    else XMatch(conf, SelfCap(p), req, STRICT.(reqEpoch := conf.promoteEpoch))
  }

  predicate CapsMatch(conf: Config, caps: seq<Cap>, req: Cap, flags: MatchFlags) {
    exists c :: c in caps && XMatch(conf, c, req, flags)
  }

  /** pkg_match_req. */
  predicate MatchReq(conf: Config, p: Package, req: Cap, strict: bool) {
    var flags := if strict then STRICT else LENIENT;
    (p.name == req.name && EvrMatch(conf, p, req, flags)) || CapsMatch(conf, p.caps, req, flags)
  }

  /** pkg_satisfies_req: a file requirement is met by owning the file only. */
  predicate Satisfies(conf: Config, p: Package, req: Cap, strict: bool) {
    if req.IsFile() then req.name in p.files else MatchReq(conf, p, req, strict)
  }

  /** Same-named capabilities stand together, as in an array sorted by name. */
  ghost predicate Grouped(caps: seq<Cap>) {
    forall i, j, k :: 0 <= i < j < k < |caps| && caps[i].name == caps[k].name ==> caps[j].name == caps[i].name
  }

  /** The search of capreq_arr_find: the first capability of that name, or -1. */
  method FindFirst(caps: seq<Cap>, name: string) returns (n: int)
    ensures n == -1 <==> forall c :: c in caps ==> c.name != name
    ensures n != -1 ==> 0 <= n < |caps| && caps[n].name == name && forall k :: 0 <= k < n ==> caps[k].name != name
  {
    n := 0;
    while n < |caps|
      invariant 0 <= n <= |caps|
      invariant forall k :: 0 <= k < n ==> caps[k].name != name
    {
      if caps[n].name == name { return; }
      n := n + 1;
    }
    n := -1;
  }

  /** pkg_caps_match_req: only the group found by name is looked at, and that is enough. */
  method PkgCapsMatchReq(conf: Config, caps: seq<Cap>, req: Cap, flags: MatchFlags) returns (found: bool)
    requires Grouped(caps)
    ensures found <==> CapsMatch(conf, caps, req, flags)
  {
    if caps == [] { return false; }
    var n := FindFirst(caps, req.name);
    if n == -1 { return false; }
    var i := n;
    while i < |caps|
      invariant n <= i <= |caps|
      invariant forall k :: 0 <= k < i ==> !XMatch(conf, caps[k], req, flags)
    {
      if i > n && caps[i].name != req.name { return false; }
      if XMatch(conf, caps[i], req, flags) {
        assert caps[i] in caps;
        return true;
      }
      i := i + 1;
    }
    return false;
  }

  // ----- the order behind matching

  /** All that is assumed of the version comparison. */
  ghost predicate TotalPreorder(vercmp: (string, string) -> int) {
    && (forall a, b :: vercmp(a, b) < 0 <==> vercmp(b, a) > 0)
    && (forall a, b, c :: vercmp(a, b) <= 0 && vercmp(b, c) <= 0 ==> vercmp(a, c) <= 0)
  }

  /** An epoch, version and release. */
  datatype Evr = Evr(epoch: int, ver: string, release: string)

  /** pkg_cmp_evr. */
  function CmpEvr(vercmp: (string, string) -> int, a: Evr, b: Evr): int {
    if a.epoch != b.epoch then a.epoch - b.epoch
    else if vercmp(a.ver, b.ver) != 0 then vercmp(a.ver, b.ver)
    else vercmp(a.release, b.release)
  }

  /** The comparison cut after the version when the requirement names no release. */
  function CmpCut(vercmp: (string, string) -> int, a: Evr, b: Evr, withRelease: bool): int {
    if a.epoch != b.epoch then a.epoch - b.epoch
    else if vercmp(a.ver, b.ver) != 0 then vercmp(a.ver, b.ver)
    else if withRelease then vercmp(a.release, b.release) else 0
  }

  function CapOf(name: string, e: Evr, rel: Rel, withRelease: bool): Cap {
    Cap(name, rel, e.epoch, Some(e.ver), if withRelease then Some(e.release) else None)
  }

  /** Without epoch promotion, matching a full E:V-R is a lexicographic comparison, cut where the requirement ends. */
  lemma MatchIsComparison(conf: Config, name: string, a: Evr, b: Evr, rel: Rel, withRelease: bool, version: bool)
    requires !conf.promoteEpoch && rel.Any()
    ensures XMatch(conf, CapOf(name, a, EQUAL, true), CapOf(name, b, rel, withRelease), MatchFlags(version, false, false))
            <==> var c := CmpCut(conf.vercmp, a, b, withRelease); (rel.lt && c < 0) || (rel.eq && c == 0) || (rel.gt && c > 0)
  {
  }

  /** Exactly one of <, = and > with the same E:V-R matches. */
  lemma Trichotomy(conf: Config, name: string, a: Evr, b: Evr, withRelease: bool)
    requires !conf.promoteEpoch
    ensures var m := (rel: Rel) => XMatch(conf, CapOf(name, a, EQUAL, true), CapOf(name, b, rel, withRelease), STRICT);
            var lt, eq, gt := m(Rel(true, false, false)), m(EQUAL), m(Rel(false, false, true));
            (lt || eq || gt) && !(lt && eq) && !(lt && gt) && !(eq && gt)
  {
    var c := CmpCut(conf.vercmp, a, b, withRelease);
    MatchIsComparison(conf, name, a, b, Rel(true, false, false), withRelease, false);
    MatchIsComparison(conf, name, a, b, EQUAL, withRelease, false);
    MatchIsComparison(conf, name, a, b, Rel(false, false, true), withRelease, false);
  }

  lemma CutMonotone(vercmp: (string, string) -> int, a: Evr, a': Evr, b: Evr, withRelease: bool)
    requires TotalPreorder(vercmp) && CmpEvr(vercmp, a, a') <= 0
    ensures CmpCut(vercmp, a, b, withRelease) >= 0 ==> CmpCut(vercmp, a', b, withRelease) >= 0
    ensures CmpCut(vercmp, a, b, withRelease) > 0 ==> CmpCut(vercmp, a', b, withRelease) > 0
  {
  }

  /** What > or >= accepts, every newer package is accepted for; what < or <= accepts, every older one. */
  lemma MatchingIsMonotone(conf: Config, name: string, a: Evr, a': Evr, b: Evr, rel: Rel, withRelease: bool)
    requires !conf.promoteEpoch && TotalPreorder(conf.vercmp) && CmpEvr(conf.vercmp, a, a') <= 0
    ensures var req := CapOf(name, b, rel, withRelease);
            var old_, new_ := CapOf(name, a, EQUAL, true), CapOf(name, a', EQUAL, true);
            && (rel.gt && !rel.lt && XMatch(conf, old_, req, STRICT) ==> XMatch(conf, new_, req, STRICT))
            && (rel.lt && !rel.gt && XMatch(conf, new_, req, STRICT) ==> XMatch(conf, old_, req, STRICT))
  {
    CutMonotone(conf.vercmp, a, a', b, withRelease);
    if rel.Any() {
      MatchIsComparison(conf, name, a, b, rel, withRelease, false);
      MatchIsComparison(conf, name, a', b, rel, withRelease, false);
    }
  }

  // ----- what matching means, for all kinds of capabilities

  /** What is offered is older than what is asked for, in a part that both name. */
  ghost predicate Older(vercmp: (string, string) -> int, have: Cap, req: Cap)
    requires req.ver.Some?
  {
    || have.epoch < req.epoch
    || (have.epoch == req.epoch && have.ver.Some? &&
        var v := vercmp(have.ver.value, req.ver.value);
        v < 0 || (v == 0 && req.release.Some? && have.release.Some? && vercmp(have.release.value, req.release.value) < 0))
  }

  ghost predicate Newer(vercmp: (string, string) -> int, have: Cap, req: Cap)
    requires req.ver.Some?
  {
    || have.epoch > req.epoch
    || (have.epoch == req.epoch && have.ver.Some? &&
        var v := vercmp(have.ver.value, req.ver.value);
        v > 0 || (v == 0 && req.release.Some? && have.release.Some? && vercmp(have.release.value, req.release.value) > 0))
  }

  /** They agree in every part that is asked for. */
  ghost predicate Agrees(vercmp: (string, string) -> int, have: Cap, req: Cap)
    requires req.ver.Some?
  {
    && have.epoch == req.epoch && have.ver.Some? && vercmp(have.ver.value, req.ver.value) == 0
    && (req.release.Some? ==> have.release.Some? && vercmp(have.release.value, req.release.value) == 0)
  }

  /** They agree as far as the offer goes, and it ends before the requirement. */
  ghost predicate TooVague(vercmp: (string, string) -> int, have: Cap, req: Cap)
    requires req.ver.Some?
  {
    && have.epoch == req.epoch
    && (have.ver.None? || (vercmp(have.ver.value, req.ver.value) == 0 && req.release.Some? && have.release.None?))
  }

  /** The offer stands to the requirement in the relation asked for. */
  ghost predicate InRelation(vercmp: (string, string) -> int, have: Cap, req: Cap)
    requires req.ver.Some?
  {
    || (req.rel.lt && Older(vercmp, have, req))
    || (req.rel.eq && Agrees(vercmp, have, req))
    || (req.rel.gt && Newer(vercmp, have, req))
  }

  /** Matching without epoch promotion; a capability that is too vague fails strictly and passes leniently. */
  lemma MatchExactly(conf: Config, have: Cap, req: Cap)
    requires !conf.promoteEpoch && req.Versioned() && req.ver.Some?
    ensures XMatch(conf, have, req, STRICT) <==> have.name == req.name && InRelation(conf.vercmp, have, req)
    ensures XMatch(conf, have, req, LENIENT) <==>
            have.name == req.name && (InRelation(conf.vercmp, have, req) || TooVague(conf.vercmp, have, req))
  {
  }

  /**
    A requirement with a relation and no version: the epochs decide, unless nobody has one; then anything
    matches. A release without a version is compared with the release.
   */
  lemma MatchWithoutVersion(conf: Config, have: Cap, req: Cap)
    requires !conf.promoteEpoch && req.Versioned() && req.ver.None? && have.name == req.name
    ensures req.release.None? ==>
              (XMatch(conf, have, req, STRICT) <==>
               || (have.epoch == 0 && req.epoch == 0)
               || (req.rel.lt && have.epoch < req.epoch) || (req.rel.eq && have.epoch == req.epoch)
               || (req.rel.gt && have.epoch > req.epoch))
    ensures req.release.Some? && have.epoch == req.epoch && have.release.Some? ==>
              var r := conf.vercmp(have.release.value, req.release.value);
              XMatch(conf, have, req, STRICT) <==> (req.rel.lt && r < 0) || (req.rel.eq && r == 0) || (req.rel.gt && r > 0)
  {
  }

  /** With it, epochs are ignored when only one side has one. */
  lemma PromotedMatchExactly(conf: Config, have: Cap, req: Cap, version: bool)
    requires conf.promoteEpoch && req.Versioned() && req.ver.Some?
    ensures var plain, flags := conf.(promoteEpoch := false), MatchFlags(version, false, false);
            XMatch(conf, have, req, flags) <==>
            if (have.epoch == 0) == (req.epoch == 0) then XMatch(plain, have, req, flags)
            else XMatch(plain, have.(epoch := 0), req.(epoch := 0), flags)
  {
  }

  /** What a package offers under its own name. */
  function Own(p: Package): Cap {
    Cap(p.name, EQUAL, p.epoch, Some(p.ver), Some(p.release))
  }

  /** A package matches by its name if its EVR is in the relation, leniently also with its epoch put aside. */
  lemma OwnMatchExactly(conf: Config, p: Package, req: Cap)
    requires !conf.promoteEpoch && req.Versioned() && req.ver.Some? && p.name == req.name
    ensures EvrMatch(conf, p, req, STRICT) <==> InRelation(conf.vercmp, Own(p), req)
    ensures EvrMatch(conf, p, req, LENIENT) <==>
            InRelation(conf.vercmp, Own(p), req) ||
            (p.epoch != 0 && req.epoch == 0 && InRelation(conf.vercmp, Own(p).(epoch := 0), req))
  {
  }

  /** The package offers something of that name in the relation asked for: itself, or a capability. */
  ghost predicate Offers(vercmp: (string, string) -> int, p: Package, req: Cap)
    requires req.ver.Some?
  {
    || (p.name == req.name && InRelation(vercmp, Own(p), req))
    || exists c :: c in p.caps && c.name == req.name && InRelation(vercmp, c, req)
  }

  /** pkg_satisfies_req, strictly and without epoch promotion, for the three kinds of requirements. */
  lemma SatisfiesExactly(conf: Config, p: Package, req: Cap)
    requires !conf.promoteEpoch
    ensures req.name != "" && req.name[0] == '/' ==> (Satisfies(conf, p, req, true) <==> req.name in p.files)
    ensures !req.IsFile() && !req.Versioned() ==>
              (Satisfies(conf, p, req, true) <==> p.name == req.name || exists c :: c in p.caps && c.name == req.name)
    ensures !req.IsFile() && req.Versioned() && req.ver.Some? ==>
              (Satisfies(conf, p, req, true) <==> Offers(conf.vercmp, p, req))
    ensures req.Versioned() && req.ver.Some? ==> (MatchReq(conf, p, req, true) <==> Offers(conf.vercmp, p, req))
  {
    hide InRelation;
    if req.Versioned() && req.ver.Some? {
      if p.name == req.name { OwnMatchExactly(conf, p, req); }
      forall c ensures XMatch(conf, c, req, STRICT) <==> c.name == req.name && InRelation(conf.vercmp, c, req) {
        MatchExactly(conf, c, req);
      }
    }
  }
}
