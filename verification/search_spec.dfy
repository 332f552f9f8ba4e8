/** Looking for the packages that satisfy a requirement (pkgset-req.c, pkgset-dep.c). */
module SearchSpec {
  import opened Wrappers
  import opened CapMatch
  import opened IndexSpec
  import opened IndexBooks

  /** The fixed part of a package. */
  datatype Id = Id(name: string, evr: Evr)

  /** The packages by their addresses: identities, and capabilities as they are now. */
  datatype World = World(conf: Config, id: int -> Id, caps: map<int, seq<Cap>>)

  function CapsOf(w: World, p: int): seq<Cap> {
    if p in w.caps then w.caps[p] else []
  }

  function PackageAt(w: World, p: int): Package {
    var i := w.id(p);
    Package(i.name, i.evr.epoch, i.evr.ver, i.evr.release, CapsOf(w, p), {})
  }

  function NamesOf(caps: seq<Cap>): (r: seq<string>)
    ensures |r| == |caps|
  {
    seq(|caps|, i requires 0 <= i < |caps| => caps[i].name)
  }

  predicate HasCap(w: World, p: int, name: string) {
    name in NamesOf(CapsOf(w, p))
  }

  // ----- orders

  predicate StrLess(a: string, b: string) {
    b != "" && (a == "" || a[0] < b[0] || (a[0] == b[0] && StrLess(a[1..], b[1..])))
  }

  /** pkg_cmp_name_evr gives 0. */
  function Same(conf: Config, id: int -> Id): (int, int) -> bool {
    (p, q) => id(p).name == id(q).name && CmpEvr(conf.vercmp, id(p).evr, id(q).evr) == 0
  }

  /** pkg_cmp_name_evr_rev is negative: by name, the newest first. */
  function Before(w: World): (int, int) -> bool {
    (p, q) => StrLess(w.id(p).name, w.id(q).name) ||
              (w.id(p).name == w.id(q).name && -CmpEvr(w.conf.vercmp, w.id(p).evr, w.id(q).evr) < 0)
  }

  lemma {:induction false} StrLessTotal(a: string, b: string)
    ensures a == b || StrLess(a, b) || StrLess(b, a)
    ensures !(StrLess(a, b) && StrLess(b, a)) && (StrLess(a, b) ==> a != b)
    decreases |a|
  {
    if a != "" && b != "" {
      StrLessTotal(a[1..], b[1..]);
      assert a == [a[0]] + a[1..] && b == [b[0]] + b[1..];
    }
  }

  lemma {:induction false} StrLessTransitive(a: string, b: string, c: string)
    requires StrLess(a, b) && StrLess(b, c)
    ensures StrLess(a, c)
    decreases |a|
  {
    if a != "" && a[0] == b[0] == c[0] {
      StrLessTransitive(a[1..], b[1..], c[1..]);
    }
  }

  lemma CmpEvrTransitive(vercmp: (string, string) -> int, a: Evr, b: Evr, c: Evr)
    requires TotalPreorder(vercmp) && CmpEvr(vercmp, a, b) <= 0 && CmpEvr(vercmp, b, c) <= 0
    ensures CmpEvr(vercmp, a, c) <= 0
  {
  }

  lemma CmpEvrAntisymmetric(vercmp: (string, string) -> int, a: Evr, b: Evr)
    requires TotalPreorder(vercmp)
    ensures CmpEvr(vercmp, a, b) < 0 <==> CmpEvr(vercmp, b, a) > 0
    ensures CmpEvr(vercmp, a, b) == 0 <==> CmpEvr(vercmp, b, a) == 0
  {
    assert vercmp(a.ver, b.ver) < 0 <==> vercmp(b.ver, a.ver) > 0;
    assert vercmp(b.ver, a.ver) < 0 <==> vercmp(a.ver, b.ver) > 0;
    assert vercmp(a.release, b.release) < 0 <==> vercmp(b.release, a.release) > 0;
    assert vercmp(b.release, a.release) < 0 <==> vercmp(a.release, b.release) > 0;
  }

  lemma BeforeIsWeakOrder(w: World)
    requires TotalPreorder(w.conf.vercmp)
    ensures WeakOrder(Before(w))
    ensures forall p, q :: !Before(w)(p, q) && !Before(w)(q, p) ==> Same(w.conf, w.id)(p, q)
  {
    var less, v := Before(w), w.conf.vercmp;
    forall p, q
      ensures less(p, q) ==> !less(q, p)
      ensures !less(p, q) && !less(q, p) ==> Same(w.conf, w.id)(p, q)
    {
      StrLessTotal(w.id(p).name, w.id(q).name);
      CmpEvrAntisymmetric(v, w.id(p).evr, w.id(q).evr);
    }
    forall a, b, c | !less(b, a) && !less(c, b) ensures !less(c, a) {
      var x, y, z := w.id(a), w.id(b), w.id(c);
      StrLessTotal(x.name, y.name);
      StrLessTotal(y.name, z.name);
      StrLessTotal(x.name, z.name);
      if StrLess(x.name, y.name) && StrLess(y.name, z.name) { StrLessTransitive(x.name, y.name, z.name); }
      CmpEvrAntisymmetric(v, y.evr, x.evr);
      CmpEvrAntisymmetric(v, z.evr, y.evr);
      CmpEvrAntisymmetric(v, z.evr, x.evr);
      if x.name == y.name == z.name { CmpEvrTransitive(v, z.evr, y.evr, x.evr); }
    }
  }

  // ----- searching

  function Filter(s: seq<int>, keep: int -> bool): seq<int> {
    if s == [] then []
    else if keep(s[|s| - 1]) then Filter(s[..|s| - 1], keep) + [s[|s| - 1]]
    else Filter(s[..|s| - 1], keep)
  }

  predicate Matches(w: World, p: int, req: Cap, strict: bool) {
    MatchReq(w.conf, PackageAt(w, p), req, strict)
  }

  /** psreq_match_pkgs asks for more than the name only when the requirement has a version. */
  function Suits(w: World, req: Cap, strict: bool): int -> bool {
    p => req.ver.None? || Matches(w, p, req, strict)
  }

  /** Nothing found; or packages, none of them for a match by the requirer itself or by the system. */
  datatype Answer = NotFound | Found(pkgs: seq<int>)

  function Answered(w: World, matches: seq<int>, self: Option<int>): Answer {
    if matches == [] then NotFound
    else if self.None? || self.value in matches then Found([])
    else Found(ISort(matches, Before(w)))
  }

  /** pkgset_find_match_packages, over the packages the index has under the name. */
  function Search(w: World, suspects: seq<int>, pm: bool, self: Option<int>, req: Cap, strict: bool): Answer {
    if suspects == [] then if pm then Found([]) else NotFound
    else Answered(w, Filter(suspects, Suits(w, req, strict)), self)
  }

  /** Every package asked in turn. */
  function Scan(w: World, ps: seq<int>, req: Cap, strict: bool): seq<int> {
    Filter(ps, p => Matches(w, p, req, strict))
  }

  /** The index lists, by address, the packages that have a capability of that name. */
  ghost predicate Suspected(w: World, ps: seq<int>, name: string, suspects: seq<int>) {
    StrictlySorted(suspects) && forall x :: x in suspects <==> x in ps && HasCap(w, x, name)
  }

  /** No two packages have the same name and EVR. */
  ghost predicate Distinct(w: World, ps: seq<int>) {
    forall i, j :: 0 <= i < j < |ps| ==> !Same(w.conf, w.id)(ps[i], ps[j]) && ps[i] != ps[j]
  }

  /** The package is named as the requirement and is of a fitting EVR. */
  predicate MatchesByName(w: World, p: int, req: Cap, strict: bool) {
    w.id(p).name == req.name && EvrMatch(w.conf, PackageAt(w, p), req, if strict then STRICT else LENIENT)
  }

  lemma {:induction false} FilterMembers(s: seq<int>, keep: int -> bool)
    ensures forall x :: x in Filter(s, keep) <==> x in s && keep(x)
  {
    if s != [] {
      FilterMembers(s[..|s| - 1], keep);
      assert s == s[..|s| - 1] + [s[|s| - 1]];
    }
  }

  lemma {:induction false} FilterDistinct(w: World, s: seq<int>, keep: int -> bool)
    requires Distinct(w, s)
    ensures Distinct(w, Filter(s, keep))
  {
    if s != [] {
      var front, last := s[..|s| - 1], s[|s| - 1];
      FilterDistinct(w, front, keep);
      FilterMembers(front, keep);
      var r := Filter(front, keep);
      forall i | 0 <= i < |r| ensures !Same(w.conf, w.id)(r[i], last) && r[i] != last {
        assert r[i] in r && r[i] in front;
        var k :| 0 <= k < |front| && front[k] == r[i];
        assert s[k] == r[i] && s[|s| - 1] == last;
      }
    }
  }

  lemma SuspectsDistinct(w: World, ps: seq<int>, name: string, suspects: seq<int>)
    requires Distinct(w, ps) && Suspected(w, ps, name, suspects) && TotalPreorder(w.conf.vercmp)
    ensures Distinct(w, suspects)
  {
    forall i, j | 0 <= i < j < |suspects| ensures !Same(w.conf, w.id)(suspects[i], suspects[j]) && suspects[i] != suspects[j] {
      var x, y := suspects[i], suspects[j];
      assert x in suspects && y in suspects && x < y;
      var k :| 0 <= k < |ps| && ps[k] == x;
      var l :| 0 <= l < |ps| && ps[l] == y;
      CmpEvrAntisymmetric(w.conf.vercmp, w.id(x).evr, w.id(y).evr);
      assert k < l ==> !Same(w.conf, w.id)(ps[k], ps[l]);
      assert l < k ==> !Same(w.conf, w.id)(ps[l], ps[k]);
    }
  }

  ghost predicate InOrder(w: World, s: seq<int>) {
    forall i, j :: 0 <= i < j < |s| ==> Before(w)(s[i], s[j])
  }

  lemma {:induction false} DistinctOnce(w: World, s: seq<int>, x: int)
    requires Distinct(w, s)
    ensures multiset(s)[x] <= 1
  {
    if s != [] {
      var front, last := s[..|s| - 1], s[|s| - 1];
      assert s == front + [last];
      DistinctOnce(w, front, x);
      assert last !in front;
      if x == last { assert x !in multiset(front); }
    }
  }

  lemma SortedInOrder(w: World, s: seq<int>)
    requires TotalPreorder(w.conf.vercmp) && Distinct(w, s)
    ensures InOrder(w, ISort(s, Before(w))) && forall x :: x in ISort(s, Before(w)) <==> x in s
  {
    var r := ISort(s, Before(w));
    BeforeIsWeakOrder(w);
    SortOrders(s, Before(w));
    SortIsPermutation(s, Before(w));
    forall x ensures x in r <==> x in s {
      assert x in r <==> x in multiset(r);
      assert x in s <==> x in multiset(s);
    }
    forall i, j | 0 <= i < j < |r| ensures Before(w)(r[i], r[j]) {
      if r[i] == r[j] {
        TwiceIn(r, i, j);
        DistinctOnce(w, s, r[i]);
        assert false;
      }
      assert r[i] in s && r[j] in s;
      var k :| 0 <= k < |s| && s[k] == r[i];
      var l :| 0 <= l < |s| && s[l] == r[j];
      NotSameEitherWay(w, s, k, l);
      assert !Before(w)(r[j], r[i]);
    }
  }

  lemma NotSameEitherWay(w: World, s: seq<int>, k: nat, l: nat)
    requires TotalPreorder(w.conf.vercmp) && Distinct(w, s) && k < |s| && l < |s| && k != l
    ensures !Same(w.conf, w.id)(s[k], s[l])
  {
    CmpEvrAntisymmetric(w.conf.vercmp, w.id(s[k]).evr, w.id(s[l]).evr);
    assert if k < l then !Same(w.conf, w.id)(s[k], s[l]) else !Same(w.conf, w.id)(s[l], s[k]);
  }

  lemma {:induction false} OrderIsUnique(w: World, s: seq<int>, t: seq<int>)
    requires TotalPreorder(w.conf.vercmp)
    requires InOrder(w, s) && InOrder(w, t) && forall x :: x in s <==> x in t
    ensures s == t
  {
    BeforeIsWeakOrder(w);
    MembersOver(s, t);
    MembersOver(t, s);
    if s != [] {
      var m, n := |s| - 1, |t| - 1;
      LastIsGreatest(w, s, t[n]);
      LastIsGreatest(w, t, s[m]);
      assert s[m] == t[n];
      forall x ensures x in s[..m] <==> x in t[..n] {
        LastIsNotInFront(w, s, x);
        LastIsNotInFront(w, t, x);
      }
      OrderIsUnique(w, s[..m], t[..n]);
      assert s == s[..m] + [s[m]] && t == t[..n] + [t[n]];
    }
  }

  lemma MembersOver(s: seq<int>, t: seq<int>)
    requires forall x :: x in s ==> x in t
    ensures forall i :: 0 <= i < |s| ==> s[i] in t
    ensures s != [] ==> t != []
  {
    forall i | 0 <= i < |s| ensures s[i] in t {
      var x := s[i];
      assert x in s;
    }
    assert s != [] ==> s[0] in t;
  }

  lemma LastIsGreatest(w: World, s: seq<int>, x: int)
    requires InOrder(w, s) && x in s
    ensures x == s[|s| - 1] || Before(w)(x, s[|s| - 1])
  {
  }

  lemma LastIsNotInFront(w: World, s: seq<int>, x: int)
    requires TotalPreorder(w.conf.vercmp) && InOrder(w, s) && s != []
    ensures x in s[..|s| - 1] <==> x in s && x != s[|s| - 1]
  {
    BeforeIsWeakOrder(w);
    assert s == s[..|s| - 1] + [s[|s| - 1]];
    if x in s[..|s| - 1] {
      var i :| 0 <= i < |s| - 1 && s[i] == x;
      assert Before(w)(s[i], s[|s| - 1]);
    }
  }

  lemma MatchNeedsName(w: World, p: int, req: Cap, strict: bool)
    ensures Matches(w, p, req, strict) ==> MatchesByName(w, p, req, strict) || HasCap(w, p, req.name)
    ensures HasCap(w, p, req.name) && !req.Versioned() ==> Matches(w, p, req, strict)
  {
    var caps := CapsOf(w, p);
    var flags := if strict then STRICT else LENIENT;
    if CapsMatch(w.conf, caps, req, flags) {
      var c :| c in caps && XMatch(w.conf, c, req, flags);
      var i :| 0 <= i < |caps| && caps[i] == c;
      assert NamesOf(caps)[i] == req.name;
    }
    if HasCap(w, p, req.name) {
      var i :| 0 <= i < |caps| && NamesOf(caps)[i] == req.name;
      assert caps[i] in caps;
    }
  }

  /**
   * The packages found through the index are those a scan of all packages finds, exactly when no package
   * answers the requirement by its own name alone, without having a capability of that name.
   */
  lemma SearchIsScan(w: World, ps: seq<int>, suspects: seq<int>, req: Cap, strict: bool)
    requires Suspected(w, ps, req.name, suspects) && (req.Versioned() ==> req.ver.Some?)
    ensures (forall x :: x in Filter(suspects, Suits(w, req, strict)) <==> x in Scan(w, ps, req, strict))
            <==> forall p :: p in ps && MatchesByName(w, p, req, strict) ==> HasCap(w, p, req.name)
  {
    var found, scan := Filter(suspects, Suits(w, req, strict)), Scan(w, ps, req, strict);
    FilterMembers(suspects, Suits(w, req, strict));
    FilterMembers(ps, p => Matches(w, p, req, strict));
    forall x
      ensures (x in found <==> x in scan) <==> (x in ps && MatchesByName(w, x, req, strict) ==> HasCap(w, x, req.name))
    {
      MatchNeedsName(w, x, req, strict);
    }
  }

  /**
   * Then the answer is the sorted list of the packages the scan finds, or the empty one when the requirer
   * is among them; the system is asked only about names that no package has.
   */
  lemma AnswerIsScan(w: World, ps: seq<int>, suspects: seq<int>, pm: bool, self: Option<int>, req: Cap, strict: bool)
    requires TotalPreorder(w.conf.vercmp) && Distinct(w, ps)
    requires Suspected(w, ps, req.name, suspects) && (req.Versioned() ==> req.ver.Some?)
    requires forall p :: p in ps && MatchesByName(w, p, req, strict) ==> HasCap(w, p, req.name)
    ensures Search(w, suspects, pm, self, req, strict) ==
            if suspects == [] && pm then Found([]) else Answered(w, Scan(w, ps, req, strict), self)
  {
    var found, scan := Filter(suspects, Suits(w, req, strict)), Scan(w, ps, req, strict);
    SearchIsScan(w, ps, suspects, req, strict);
    SuspectsDistinct(w, ps, req.name, suspects);
    FilterDistinct(w, suspects, Suits(w, req, strict));
    FilterDistinct(w, ps, p => Matches(w, p, req, strict));
    SortedInOrder(w, found);
    SortedInOrder(w, scan);
    OrderIsUnique(w, ISort(found, Before(w)), ISort(scan, Before(w)));
    assert found == [] <==> scan == [] by {
      if found != [] { assert found[0] in scan; }
      if scan != [] { assert scan[0] in found; }
    }
  }

  /** A package without a capability of its own name, as one added late may be, is not found by that name. */
  lemma LateIsMissed(w: World, ps: seq<int>, suspects: seq<int>, p: int, self: Option<int>, strict: bool)
    requires Suspected(w, ps, w.id(p).name, suspects) && p in ps
    requires forall q :: q in ps ==> !HasCap(w, q, w.id(p).name)
    ensures var req := NameCap(w.id(p).name);
            && Matches(w, p, req, strict) && p in Scan(w, ps, req, strict)
            && Search(w, suspects, false, self, req, strict) == NotFound
  {
    var req := NameCap(w.id(p).name);
    MembersOver(suspects, []);
    FilterMembers(ps, q => Matches(w, q, req, strict));
  }

  /** An answer kept for one requirer is right for another exactly when both or neither match themselves. */
  lemma KeptAnswerIsRight(w: World, suspects: seq<int>, pm: bool, a: int, b: int, req: Cap, strict: bool)
    ensures var found := Filter(suspects, Suits(w, req, strict));
            Search(w, suspects, pm, Some(a), req, strict) == Search(w, suspects, pm, Some(b), req, strict)
            <==> (a in found <==> b in found)
  {
  }

  // ----- what is in an answer, and in which order

  /** The package offers what is required: by its name and EVR, or by a capability of that name. */
  ghost predicate Fits(w: World, p: int, req: Cap)
    requires req.ver.Some?
  {
    var i := w.id(p);
    || (i.name == req.name &&
        InRelation(w.conf.vercmp, Cap(i.name, EQUAL, i.evr.epoch, Some(i.evr.ver), Some(i.evr.release)), req))
    || exists c :: c in CapsOf(w, p) && c.name == req.name && InRelation(w.conf.vercmp, c, req)
  }

  lemma MatchFits(w: World, p: int, req: Cap)
    requires !w.conf.promoteEpoch && req.Versioned() && req.ver.Some?
    ensures Matches(w, p, req, true) <==> Fits(w, p, req)
  {
    SatisfiesExactly(w.conf, PackageAt(w, p), req);
  }

  lemma {:induction false} SortMembers(w: World, s: seq<int>)
    ensures forall x :: x in ISort(s, Before(w)) <==> x in s
  {
    SortIsPermutation(s, Before(w));
    forall x ensures x in ISort(s, Before(w)) <==> x in s {
      assert x in ISort(s, Before(w)) <==> x in multiset(ISort(s, Before(w)));
      assert x in s <==> x in multiset(s);
    }
  }

  /**
   * An answer to a versioned requirement lists exactly the suspects that fit it; it is empty when the requirer
   * is one of them, and there is none when nobody fits.
   */
  lemma AnswerFits(w: World, suspects: seq<int>, pm: bool, self: Option<int>, req: Cap)
    requires !w.conf.promoteEpoch && req.Versioned() && req.ver.Some? && suspects != []
    ensures var a := Search(w, suspects, pm, self, req, true);
            && (a == NotFound <==> forall p :: p in suspects ==> !Fits(w, p, req))
            && ((a.Found? && a.pkgs == []) <==>
                ((exists p :: p in suspects && Fits(w, p, req)) &&
                 (self.None? || (self.value in suspects && Fits(w, self.value, req)))))
            && (a.Found? && a.pkgs != [] ==> forall p :: p in a.pkgs <==> p in suspects && Fits(w, p, req))
  {
    var found := Filter(suspects, Suits(w, req, true));
    FilterMembers(suspects, Suits(w, req, true));
    forall p ensures p in found <==> p in suspects && Fits(w, p, req) { MatchFits(w, p, req); }
    var a := Search(w, suspects, pm, self, req, true);
    assert a == Answered(w, found, self);
    hide Fits, Filter, Suits, Search;
    SortMembers(w, found);
    assert |ISort(found, Before(w))| == |found|;
    if found == [] {
      assert forall p :: p in suspects ==> !Fits(w, p, req) by {
        forall p | p in suspects ensures !Fits(w, p, req) { assert p !in found; }
      }
    } else {
      var x := found[0];
      assert x in found;
      assert x in suspects && Fits(w, x, req);
      if self.Some? {
        var s := self.value;
        assert s in found <==> s in suspects && Fits(w, s, req);
      }
    }
  }

  lemma SameStart(a: string, b: string, k: nat)
    requires 0 < k <= |a| && k <= |b| && a[..k] == b[..k]
    ensures a[0] == b[0]
  {
    assert a[..k][0] == a[0] && b[..k][0] == b[0];
  }

  /** In the order of strcmp, said by the first place where they differ. */
  lemma {:induction false} StrLessExactly(a: string, b: string)
    ensures StrLess(a, b) <==>
            exists k :: 0 <= k <= |a| && k < |b| && a[..k] == b[..k] && (k == |a| || a[k] < b[k])
    decreases |a|
  {
    if a != "" && b != "" && a[0] == b[0] {
      StrLessExactly(a[1..], b[1..]);
      if j :| 0 <= j <= |a| - 1 && j < |b| - 1 && a[1..][..j] == b[1..][..j] && (j == |a| - 1 || a[1..][j] < b[1..][j]) {
        assert a[..j + 1] == [a[0]] + a[1..][..j] && b[..j + 1] == [b[0]] + b[1..][..j];
      }
      if k :| 0 <= k <= |a| && k < |b| && a[..k] == b[..k] && (k == |a| || a[k] < b[k]) {
        assert k > 0;
        assert a[1..][..k - 1] == a[..k][1..] && b[1..][..k - 1] == b[..k][1..];
      }
    } else if b != "" {
      if k :| 0 <= k <= |a| && k < |b| && a[..k] == b[..k] && (k == |a| || a[k] < b[k]) {
        if k > 0 { SameStart(a, b, k); }
      }
      assert a[..0] == b[..0];
    }
  }

  /** Neither epoch nor version nor release of a is behind that of b, the first difference deciding. */
  ghost predicate NotOlder(vercmp: (string, string) -> int, a: Evr, b: Evr) {
    || a.epoch > b.epoch
    || (a.epoch == b.epoch && vercmp(a.ver, b.ver) > 0)
    || (a.epoch == b.epoch && vercmp(a.ver, b.ver) == 0 && vercmp(a.release, b.release) >= 0)
  }

  /** Two packages are the same when their names are equal and nothing tells their EVRs apart. */
  lemma SameExactly(conf: Config, id: int -> Id, p: int, q: int)
    ensures Same(conf, id)(p, q) <==>
            && id(p).name == id(q).name && id(p).evr.epoch == id(q).evr.epoch
            && conf.vercmp(id(p).evr.ver, id(q).evr.ver) == 0 && conf.vercmp(id(p).evr.release, id(q).evr.release) == 0
  {
  }

  /** Results are sorted by name, and of one name the newest comes first. */
  lemma NewestFirst(w: World, s: seq<int>, i: nat, j: nat)
    requires TotalPreorder(w.conf.vercmp) && i < j < |s|
    ensures var r := ISort(s, Before(w));
            || StrLess(w.id(r[i]).name, w.id(r[j]).name)
            || (w.id(r[i]).name == w.id(r[j]).name && NotOlder(w.conf.vercmp, w.id(r[i]).evr, w.id(r[j]).evr))
  {
    var r := ISort(s, Before(w));
    BeforeIsWeakOrder(w);
    SortOrders(s, Before(w));
    assert !Before(w)(r[j], r[i]);
    StrLessTotal(w.id(r[i]).name, w.id(r[j]).name);
    CmpEvrAntisymmetric(w.conf.vercmp, w.id(r[i]).evr, w.id(r[j]).evr);
  }
}
