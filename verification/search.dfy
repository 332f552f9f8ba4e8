/** The package set: its index of capabilities, kept over additions and removals, and the search (pkgset.c, pkgset-req.c). */
module PkgSearch {
  import opened Wrappers
  import opened CapMatch
  import opened IndexSpec
  import opened IndexBooks
  import opened SearchSpec
  import CapIndex
  import IndexTable

  const NOT_INDEXED := "elf(buildid)"

  function CapRules(conf: Config, id: int -> Id): Rules {
    Rules(true, n => n == NOT_INDEXED, Same(conf, id))
  }

  /** The names that index_package_caps goes through. */
  function Names(caps: map<int, seq<Cap>>): int -> seq<string> {
    p => NamesOf(if p in caps then caps[p] else [])
  }

  /** pkg_eq_capreq; a part that is not there reads as empty. */
  predicate EqCap(i: Id, c: Cap) {
    && c.name == i.name && Text(c.ver) == i.evr.ver && Text(c.release) == i.evr.release
    && c.epoch == i.evr.epoch && c.rel.eq
  }

  function Text(o: Option<string>): string {
    if o.None? then "" else o.value
  }

  /** The sorting and the dropping of equal elements that the container does. */
  ghost predicate Tidies(tidy: seq<Cap> -> seq<Cap>) {
    forall s :: Grouped(tidy(s)) && forall n :: n in NamesOf(tidy(s)) <==> n in NamesOf(s)
  }

  class PkgSet {
    const conf: Config
    const id: int -> Id
    const tidy: seq<Cap> -> seq<Cap>
    /** What the package manager provides itself. */
    const pm: Cap -> bool
    var caps: map<int, seq<Cap>>
    /** PKG_HAS_SELFCAP. */
    var flagged: set<int>
    var pkgs: seq<int>
    var capIdx: IndexTable.Index?

    function W(): World
      reads this
    {
      World(conf, id, caps)
    }

    ghost predicate Valid()
      reads this, capIdx, if capIdx == null then {} else capIdx.home.Keys
    {
      && TotalPreorder(conf.vercmp) && Tidies(tidy)
      && Distinct(W(), pkgs)
      && (forall p :: p in caps ==> Grouped(caps[p]))
      && (forall p :: p in flagged ==> HasCap(W(), p, id(p).name))
      && (capIdx != null ==> capIdx.Valid() && this !in capIdx.home && Agrees())
    }

    /** The index holds what indexing the present packages one by one would give. */
    ghost predicate Agrees()
      requires capIdx != null
      reads this, capIdx
    {
      && capIdx.rules == CapRules(conf, id)
      && forall n :: Look(capIdx.books, n) == Look(Build(pkgs, Names(caps), capIdx.rules), n)
    }

    /** pkgset_new: no packages, nothing indexed. */
    constructor (conf: Config, id: int -> Id, tidy: seq<Cap> -> seq<Cap>, pm: Cap -> bool, caps: map<int, seq<Cap>>)
      requires TotalPreorder(conf.vercmp) && Tidies(tidy) && forall p :: p in caps ==> Grouped(caps[p])
      ensures Valid() && pkgs == [] && flagged == {} && capIdx == null
      ensures this.conf == conf && this.id == id && this.tidy == tidy && this.pm == pm && this.caps == caps
    {
      this.conf, this.id, this.tidy, this.pm, this.caps := conf, id, tidy, pm, caps;
      flagged, pkgs, capIdx := {}, [], null;
    }

    /** pkg_add_selfcap. */
    method AddSelfCap(p: int)
      requires Valid() && capIdx == null
      modifies this`caps, this`flagged
      ensures Valid() && flagged == old(flagged) + {p}
      ensures caps == if p in old(flagged) then old(caps)
                      else old(caps)[p := tidy(WithSelfCap(old(CapsOf(W(), p)), id(p)))]
    {
      if p in flagged { return; }
      var list := CapsOf(W(), p);
      ghost var was := caps;
      var has := HasSelfCap(list, id(p));
      TidyNames(list, id(p), tidy);
      if has {
        caps := caps[p := tidy(list)];
      } else {
        caps := caps[p := tidy(list + [SelfCapOf(id(p))])];
      }
      hide TotalPreorder, HasCap;
      SelfCapAdded(World(conf, id, was), p, tidy, flagged);
      flagged := flagged + {p};
    }

    /** pkgset__index_caps. */
    method IndexCaps()
      requires Valid()
      modifies this`caps, this`flagged, this`capIdx
      ensures Valid() && capIdx != null
      ensures old(capIdx) != null ==> capIdx == old(capIdx) && caps == old(caps) && flagged == old(flagged)
      ensures old(capIdx) == null ==> fresh(capIdx) && capIdx.home.Keys !! {this} && fresh(capIdx.home.Keys)
      ensures old(capIdx) == null ==> forall p :: p in pkgs ==> p in flagged
      ensures forall q :: q !in pkgs ==> CapsOf(W(), q) == old(CapsOf(W(), q)) && (q in flagged <==> q in old(flagged))
    {
      hide IndexTable.Index.Valid, Tidies, TotalPreorder, Distinct, HasCap, Grouped;
      if capIdx != null { return; }
      FlagAll();
      capIdx := Indexed();
    }

    /** add_self_cap. */
    method FlagAll()
      requires Valid() && capIdx == null
      modifies this`caps, this`flagged
      ensures Valid() && forall k :: 0 <= k < |pkgs| ==> pkgs[k] in flagged
      ensures forall q :: q !in pkgs ==> CapsOf(W(), q) == old(CapsOf(W(), q)) && (q in flagged <==> q in old(flagged))
    {
      hide Tidies, Distinct, TotalPreorder;
      var i := 0;
      while i < |pkgs|
        invariant 0 <= i <= |pkgs| && Valid()
        invariant forall k :: 0 <= k < i ==> pkgs[k] in flagged
        invariant forall q :: q !in pkgs ==> CapsOf(W(), q) == old(CapsOf(W(), q)) && (q in flagged <==> q in old(flagged))
      {
        AddSelfCap(pkgs[i]);
        i := i + 1;
      }
    }

    /** The index made of the present packages, one by one. */
    method Indexed() returns (idx: IndexTable.Index)
      ensures idx.Valid() && idx.rules == CapRules(conf, id) && fresh(idx) && fresh(idx.home.Keys)
      ensures idx.books == Build(pkgs, Names(caps), idx.rules)
    {
      idx := new IndexTable.Index(CapRules(conf, id));
      var i := 0;
      while i < |pkgs|
        invariant 0 <= i <= |pkgs| && idx.Valid() && idx.rules == CapRules(conf, id)
        invariant fresh(idx) && fresh(idx.home.Keys)
        invariant idx.books == Build(pkgs[..i], Names(caps), idx.rules)
      {
        hide IndexTable.Index.Valid, AddNames;
        assert pkgs[..i + 1][..i] == pkgs[..i];
        idx.AddPackage(NamesOf(CapsOf(W(), pkgs[i])), pkgs[i]);
        i := i + 1;
      }
      assert pkgs[..|pkgs|] == pkgs;
    }

    /** The place of a package with that name and EVR, as the search of the sorted array gives it. */
    method Find(p: int) returns (nth: int)
      ensures nth == -1 ==> forall k :: 0 <= k < |pkgs| ==> !Same(conf, id)(p, pkgs[k])
      ensures nth != -1 ==> 0 <= nth < |pkgs| && Same(conf, id)(p, pkgs[nth])
    {
      nth := 0;
      while nth < |pkgs|
        invariant 0 <= nth <= |pkgs|
        invariant forall k :: 0 <= k < nth ==> !Same(conf, id)(p, pkgs[k])
      {
        if Same(conf, id)(p, pkgs[nth]) { return; }
        nth := nth + 1;
      }
      nth := -1;
    }

    /** pkgset_add_package: nothing is done when there is a package of that name and EVR. */
    method AddPackage(p: int) returns (added: bool)
      requires Valid()
      modifies this`pkgs, capIdx, if capIdx == null then {} else capIdx.home.Keys
      ensures Valid() && capIdx == old(capIdx)
      ensures capIdx != null ==> fresh(capIdx.home.Keys - old(capIdx.home.Keys))
      ensures added <==> forall k :: 0 <= k < |old(pkgs)| ==> !Same(conf, id)(p, old(pkgs)[k])
      ensures pkgs == if added then old(pkgs) + [p] else old(pkgs)
    {
      hide IndexTable.Index.Valid;
      var nth := Find(p);
      if nth != -1 { return false; }
      ghost var was := pkgs;
      DistinctMore(W(), pkgs, p);
      if capIdx != null {
        ghost var books := capIdx.books;
        capIdx.AddPackage(NamesOf(CapsOf(W(), p)), p);
        AgreesMore(books, was, p, Names(caps), capIdx.rules);
      }
      pkgs := pkgs + [p];
      return true;
    }

    /** pkgset_remove_package. */
    method RemovePackage(p: int) returns (removed: bool)
      requires Valid()
      modifies this`pkgs, capIdx, if capIdx == null then {} else capIdx.home.Keys
      ensures Valid() && capIdx == old(capIdx)
      ensures capIdx != null ==> fresh(capIdx.home.Keys - old(capIdx.home.Keys))
      ensures removed <==> exists k :: 0 <= k < |old(pkgs)| && Same(conf, id)(p, old(pkgs)[k])
      ensures removed ==> exists k :: 0 <= k < |old(pkgs)| && Same(conf, id)(p, old(pkgs)[k]) && pkgs == Omit(old(pkgs), k)
      ensures !removed ==> pkgs == old(pkgs)
    {
      hide IndexTable.Index.Valid;
      var nth := Find(p);
      if nth == -1 { return false; }
      var pkg := pkgs[nth];
      ghost var was := pkgs;
      DistinctLess(W(), pkgs, nth);
      if capIdx != null {
        ghost var books := capIdx.books;
        AllMayBeRemoved(nth);
        capIdx.RemovePackage(NamesOf(CapsOf(W(), pkg)), pkg);
        AgreesLess(books, was, nth, Names(caps), capIdx.rules);
      }
      pkgs := Omit(pkgs, nth);
      return true;
    }

    /** What the index has under a name are the packages with such a capability, by address. */
    lemma IndexSuspects(name: string)
      requires Valid() && capIdx != null && name != NOT_INDEXED
      ensures Suspected(W(), pkgs, name, Look(capIdx.books, name).list)
    {
      var ls := Listings(pkgs, Names(caps), name);
      var list := Look(capIdx.books, name).list;
      LookBuilt(pkgs, Names(caps), capIdx.rules, name);
      BuiltCap(ls);
      forall x ensures x in list <==> x in pkgs && HasCap(W(), x, name) {
        TimesPositive(NamesOf(CapsOf(W(), x)), name);
        if x in pkgs && HasCap(W(), x, name) {
          var i :| 0 <= i < |pkgs| && pkgs[i] == x;
          assert ls[i].pkg == x && ls[i].times > 0;
        }
      }
    }

    /** The build id is not indexed. */
    lemma BuildIdIsMissing()
      requires Valid() && capIdx != null
      ensures Look(capIdx.books, "elf(buildid)").list == []
    {
      LookBuilt(pkgs, Names(caps), capIdx.rules, "elf(buildid)");
    }

    /** psreq_lookup, for a requirement that is neither a file nor rpmlib's: the suspects, or the system alone. */
    method PsreqLookup(req: Cap) returns (found: bool, suspects: array?<int>, n: nat)
      requires Valid() && !req.IsFile()
      modifies this`caps, this`flagged, this`capIdx, capIdx, if capIdx == null then {} else capIdx.home.Keys
      ensures Valid() && capIdx != null && (suspects != null ==> n <= suspects.Length)
      ensures old(capIdx) != null ==> capIdx == old(capIdx) && caps == old(caps) && flagged == old(flagged)
      ensures old(capIdx) == null ==> fresh(capIdx) && forall p :: p in pkgs ==> p in flagged
      ensures var list := Look(capIdx.books, req.name).list;
              if list == [] then found == pm(req) && suspects == null
              else found && suspects != null && suspects[..n] == list
    {
      hide IndexTable.Index.Valid, Tidies, TotalPreorder, Distinct, HasCap, Grouped;
      IndexCaps();
      var ent := capIdx.Lookup(req.name);
      if ent != null {
        return true, ent.pkgs, ent.items;
      }
      return pm(req), null, 0;
    }

    /** psreq_match_pkgs: the count of matches, and those to return, none if the requirer is among them. */
    method PsreqMatchPkgs(self: Option<int>, req: Cap, strict: bool, suspects: array<int>, n: nat, matches: array<int>)
      returns (nmatch: nat, nmatched: nat)
      requires n <= suspects.Length && n <= matches.Length && matches != suspects
      modifies matches
      ensures nmatched <= matches.Length
      ensures var found := Filter(old(suspects[..n]), Suits(W(), req, strict));
              && (nmatch == 0 <==> found == [])
              && matches[..nmatched] == if self.None? || self.value in found then [] else ISort(found, Before(W()))
    {
      hide Filter, Suits, ISort;
      ghost var s, keep := suspects[..n], Suits(W(), req, strict);
      FilterMembers(s, keep);
      FilterStep([], 0, keep);
      nmatch, nmatched := 0, 0;
      var i := 0;
      while i < n
        invariant 0 <= i <= n && nmatch == nmatched <= i && suspects[..n] == s
        invariant matches[..nmatched] == Filter(s[..i], keep)
        invariant self.None? ==> nmatched == 0
        invariant self.Some? ==> self.value !in matches[..nmatched]
      {
        FilterStep(s, i, keep);
        var spkg := suspects[i];
        SuitsIs(W(), req, strict, spkg);
        if req.ver.None? || Matches(W(), spkg, req, strict) {
          nmatch := nmatch + 1;
          if self.Some? && spkg != self.value {
            ghost var before := matches[..nmatched];
            matches[nmatched] := spkg;
            nmatched := nmatched + 1;
            assert matches[..nmatched] == before + [spkg];
          } else {
            nmatched := 0;
            assert s[i] in s && s[i] in Filter(s, keep);
            return;
          }
        }
        i := i + 1;
      }
      assert s[..n] == s;
      if nmatched <= 1 {
        ShortSorts(matches[..nmatched], Before(W()));
      } else {
        CapIndex.InsertionSort(matches, nmatched, Before(W()));
      }
    }

    /**
     * pkgset_find_match_packages: the answer of the search; when every package carries its own name as a
     * capability, that of a scan.
     */
    method FindMatchPackages(self: Option<int>, req: Cap, strict: bool) returns (found: bool, packages: seq<int>)
      requires Valid() && !req.IsFile()
      modifies this`caps, this`flagged, this`capIdx, capIdx, if capIdx == null then {} else capIdx.home.Keys
      ensures Valid() && capIdx != null
      ensures old(capIdx) != null ==> capIdx == old(capIdx) && caps == old(caps) && flagged == old(flagged)
      ensures old(capIdx) == null ==> fresh(capIdx) && forall p :: p in pkgs ==> p in flagged
      ensures Reply(found, packages) == Search(W(), Look(capIdx.books, req.name).list, pm(req), self, req, strict)
      ensures !found ==> packages == []
      ensures (forall p :: p in pkgs ==> p in flagged) && req.name != NOT_INDEXED && (req.Versioned() ==> req.ver.Some?) ==>
                Reply(found, packages) ==
                  var none := forall p :: p in pkgs ==> !HasCap(W(), p, req.name);
                  if none && pm(req) then Found([]) else Answered(W(), Scan(W(), pkgs, req, strict), self)
      ensures strict && !conf.promoteEpoch && req.Versioned() && req.ver.Some? && req.name != NOT_INDEXED ==>
                forall p :: p in packages ==> p in pkgs && Fits(W(), p, req)
    {
      hide *;
      found, packages := Suspects(self, req, strict);
      FlaggedAnswer(self, req, strict);
      if strict { AnswersFit(self, req); }
      ReplyIs(found, packages);
    }

    /** The suspects looked up, and those of them that match. */
    method Suspects(self: Option<int>, req: Cap, strict: bool) returns (found: bool, packages: seq<int>)
      requires Valid() && !req.IsFile()
      modifies this`caps, this`flagged, this`capIdx, capIdx, if capIdx == null then {} else capIdx.home.Keys
      ensures Valid() && capIdx != null
      ensures old(capIdx) != null ==> capIdx == old(capIdx) && caps == old(caps) && flagged == old(flagged)
      ensures old(capIdx) == null ==> fresh(capIdx) && forall p :: p in pkgs ==> p in flagged
      ensures Reply(found, packages) == Search(W(), Look(capIdx.books, req.name).list, pm(req), self, req, strict)
      ensures !found ==> packages == []
    {
      hide IndexTable.Index.Valid, Search, Look;
      packages := [];
      var suspects, n;
      found, suspects, n := PsreqLookup(req);
      SearchCases(W(), Look(capIdx.books, req.name).list, pm(req), self, req, strict);
      if !found || suspects == null { return; }
      found, packages := Answer(self, req, strict, suspects, n);
    }

    /** The matches in an array of their own, unless there are none. */
    method Answer(self: Option<int>, req: Cap, strict: bool, suspects: array<int>, n: nat)
      returns (found: bool, packages: seq<int>)
      requires n <= suspects.Length
      ensures var matching := Filter(suspects[..n], Suits(W(), req, strict));
              && found == (matching != [])
              && packages == if !found || self.None? || self.value in matching then [] else ISort(matching, Before(W()))
    {
      hide Filter, Suits, ISort;
      packages := [];
      var matches := new int[n];
      var nmatch, nmatched := PsreqMatchPkgs(self, req, strict, suspects, n, matches);
      found := nmatch > 0;
      if found { packages := matches[..nmatched]; }
    }

    /** Whoever is in the answer to a versioned requirement fits it. */
    lemma AnswersFit(self: Option<int>, req: Cap)
      requires Valid() && capIdx != null
      ensures !conf.promoteEpoch && req.Versioned() && req.ver.Some? && req.name != NOT_INDEXED ==>
                var a := Search(W(), Look(capIdx.books, req.name).list, pm(req), self, req, true);
                a.Found? ==> forall p :: p in a.pkgs ==> p in pkgs && Fits(W(), p, req)
    {
      if !conf.promoteEpoch && req.Versioned() && req.ver.Some? && req.name != NOT_INDEXED {
        var list := Look(capIdx.books, req.name).list;
        IndexSuspects(req.name);
        if list != [] { AnswerFits(W(), list, pm(req), self, req); }
      }
    }

    lemma FlaggedAnswer(self: Option<int>, req: Cap, strict: bool)
      requires Valid() && capIdx != null
      ensures (forall p :: p in pkgs ==> p in flagged) && req.name != NOT_INDEXED && (req.Versioned() ==> req.ver.Some?) ==>
                var none := forall p :: p in pkgs ==> !HasCap(W(), p, req.name);
                Search(W(), Look(capIdx.books, req.name).list, pm(req), self, req, strict) ==
                if none && pm(req) then Found([]) else Answered(W(), Scan(W(), pkgs, req, strict), self)
    {
      if (forall p :: p in pkgs ==> p in flagged) && req.name != NOT_INDEXED && (req.Versioned() ==> req.ver.Some?) {
        var list := Look(capIdx.books, req.name).list;
        IndexSuspects(req.name);
        assert list == [] <==> forall p :: p in pkgs ==> !HasCap(W(), p, req.name) by {
          if list != [] { var x := list[0]; assert x in list; }
        }
        AnswerIsScan(W(), pkgs, list, pm(req), self, req, strict);
      }
    }

    /** A package without a capability of its own name, as one added late may be, is not found by that name. */
    lemma LateMissed(p: int, self: Option<int>, strict: bool)
      requires Valid() && capIdx != null && p in pkgs && id(p).name != NOT_INDEXED && !pm(NameCap(id(p).name))
      requires forall q :: q in pkgs ==> !HasCap(W(), q, id(p).name)
      ensures var req := NameCap(id(p).name);
              && Matches(W(), p, req, strict) && p in Scan(W(), pkgs, req, strict)
              && Search(W(), Look(capIdx.books, req.name).list, pm(req), self, req, strict) == NotFound
    {
      var w := W();
      assert w.id == id;
      hide *;
      IndexSuspects(id(p).name);
      LateIsMissed(w, pkgs, Look(capIdx.books, id(p).name).list, p, self, strict);
    }

    lemma AllMayBeRemoved(nth: nat)
      requires Valid() && capIdx != null && nth < |pkgs|
      ensures forall n :: n in capIdx.books ==>
                MayRemove(capIdx.books[n], pkgs[nth], Times(NamesOf(CapsOf(W(), pkgs[nth])), n), capIdx.rules.same)
    {
      DistinctLess(W(), pkgs, nth);
      forall n | n in capIdx.books
        ensures MayRemove(capIdx.books[n], pkgs[nth], Times(NamesOf(CapsOf(W(), pkgs[nth])), n), capIdx.rules.same)
      {
        assert Look(capIdx.books, n) == Look(Build(pkgs, Names(caps), capIdx.rules), n);
        BuiltMayRemove(pkgs, nth, Names(caps), capIdx.rules, n);
      }
    }
  }

  lemma {:induction false} TimesPositive(names: seq<string>, n: string)
    ensures Times(names, n) > 0 <==> n in names
    decreases |names|
  {
    if names != [] {
      assert names == [names[0]] + names[1..];
      TimesPositive(names[1..], n);
    }
  }

  /** The two results of pkgset_find_match_packages as an answer. */
  function Reply(found: bool, packages: seq<int>): Answer {
    if found then Found(packages) else NotFound
  }

  lemma ReplyIs(found: bool, packages: seq<int>)
    ensures if found then Reply(found, packages) == Found(packages) else Reply(found, packages) == NotFound
  {
  }

  lemma SearchCases(w: World, suspects: seq<int>, pm: bool, self: Option<int>, req: Cap, strict: bool)
    ensures var found := Filter(suspects, Suits(w, req, strict));
            Search(w, suspects, pm, self, req, strict) ==
            if suspects == [] then Reply(pm, [])
            else Reply(found != [], if self.None? || self.value in found then [] else ISort(found, Before(w)))
  {
  }

  lemma FilterStep(s: seq<int>, i: nat, keep: int -> bool)
    ensures i < |s| ==> Filter(s[..i + 1], keep) == if keep(s[i]) then Filter(s[..i], keep) + [s[i]] else Filter(s[..i], keep)
    ensures Filter([], keep) == []
  {
    if i < |s| {
      assert s[..i + 1][..i] == s[..i];
    }
  }

  lemma SuitsIs(w: World, req: Cap, strict: bool, p: int)
    ensures Suits(w, req, strict)(p) <==> req.ver.None? || Matches(w, p, req, strict)
  {
  }

  lemma ShortSorts(s: seq<int>, less: (int, int) -> bool)
    requires |s| <= 1
    ensures ISort(s, less) == s
  {
    if |s| == 1 {
      assert s[..0] == [] && ISort(s[..0], less) == [] && s == [s[0]];
    }
  }

  lemma DistinctMore(w: World, ps: seq<int>, p: int)
    requires TotalPreorder(w.conf.vercmp) && Distinct(w, ps)
    requires forall k :: 0 <= k < |ps| ==> !Same(w.conf, w.id)(p, ps[k])
    ensures Distinct(w, ps + [p])
  {
    forall k | 0 <= k < |ps| ensures !Same(w.conf, w.id)(ps[k], p) && ps[k] != p {
      CmpEvrAntisymmetric(w.conf.vercmp, w.id(p).evr, w.id(ps[k]).evr);
      CmpEvrAntisymmetric(w.conf.vercmp, w.id(p).evr, w.id(p).evr);
    }
  }

  lemma DistinctLess(w: World, ps: seq<int>, i: nat)
    requires TotalPreorder(w.conf.vercmp) && Distinct(w, ps) && i < |ps|
    ensures Distinct(w, Omit(ps, i)) && Alone(ps, i, Same(w.conf, w.id))
  {
    var r := Omit(ps, i);
    forall k, l | 0 <= k < l < |r| ensures !Same(w.conf, w.id)(r[k], r[l]) && r[k] != r[l] {
      assert r[k] == ps[if k < i then k else k + 1] && r[l] == ps[if l < i then l else l + 1];
    }
    forall k | 0 <= k < |ps| ensures (Same(w.conf, w.id)(ps[i], ps[k]) <==> k == i) && (ps[k] == ps[i] <==> k == i) {
      if k == i { CmpEvrAntisymmetric(w.conf.vercmp, w.id(ps[i]).evr, w.id(ps[i]).evr); }
      else { NotSameEitherWay(w, ps, i, k); }
    }
  }

  lemma AgreesMore(b: Books, ps: seq<int>, p: int, names: int -> seq<string>, r: Rules)
    requires forall n :: Look(b, n) == Look(Build(ps, names, r), n)
    ensures forall n :: Look(AddNames(b, names(p), p, r), n) == Look(Build(ps + [p], names, r), n)
  {
    assert (ps + [p])[..|ps|] == ps;
    forall n ensures Look(AddNames(b, names(p), p, r), n) == Look(Build(ps + [p], names, r), n) {
      SameAfterAdding(b, Build(ps, names, r), names(p), p, r, n);
    }
  }

  lemma AgreesLess(b: Books, ps: seq<int>, i: nat, names: int -> seq<string>, r: Rules)
    requires i < |ps| && Alone(ps, i, r.same)
    requires forall n :: Look(b, n) == Look(Build(ps, names, r), n)
    ensures forall n :: Look(RemoveNames(b, names(ps[i]), ps[i], r), n) == Look(Build(Omit(ps, i), names, r), n)
  {
    forall n ensures Look(RemoveNames(b, names(ps[i]), ps[i], r), n) == Look(Build(Omit(ps, i), names, r), n) {
      SameAfterRemoving(b, Build(ps, names, r), names(ps[i]), ps[i], r, n);
      RemovalUndoes(ps, i, names, r, n);
    }
  }

  /** A set that is indexed while it is empty: the one package added then is not found by its own name. */
  method AddedLate(conf: Config, id: int -> Id, tidy: seq<Cap> -> seq<Cap>, p: int)
    returns (ps: PkgSet, found: bool, packages: seq<int>)
    requires TotalPreorder(conf.vercmp) && Tidies(tidy) && !NameCap(id(p).name).IsFile() && id(p).name != NOT_INDEXED
    ensures ps.Valid() && ps.pkgs == [p] && !found && packages == []
    ensures Scan(ps.W(), ps.pkgs, NameCap(id(p).name), true) == [p]
  {
    hide IndexTable.Index.Valid, Tidies, TotalPreorder, Search, Scan, Matches, Distinct, Same, Answered, PkgSet.Agrees;
    var req := NameCap(id(p).name);
    ps := new PkgSet(conf, id, tidy, r => false, map[]);
    ps.IndexCaps();
    var added := ps.AddPackage(p);
    found, packages := ps.FindMatchPackages(None, req, true);
    assert !HasCap(ps.W(), p, req.name);
    ps.LateMissed(p, None, true);
    ScanOfOne(ps.W(), p, req);
  }

  lemma ScanOfOne(w: World, p: int, req: Cap)
    requires Matches(w, p, req, true)
    ensures Scan(w, [p], req, true) == [p]
  {
    var keep := (q: int) => Matches(w, q, req, true);
    assert [p][..0] == [] && Filter([p][..0], keep) == [] && keep(p);
  }

  function SelfCapOf(i: Id): Cap {
    Cap(i.name, EQUAL, i.evr.epoch, Some(i.evr.ver), Some(i.evr.release))
  }

  function WithSelfCap(list: seq<Cap>, i: Id): seq<Cap> {
    if exists c :: c in list && EqCap(i, c) then list else list + [SelfCapOf(i)]
  }

  /** Among the capabilities there is then one that matches whatever the package itself matches by name and EVR. */
  lemma SelfCapFits(conf: Config, list: seq<Cap>, i: Id, req: Cap)
    requires !conf.promoteEpoch && req.Versioned() && req.ver.Some? && i.evr.ver != "" && i.evr.release != ""
    ensures InRelation(conf.vercmp, Cap(i.name, EQUAL, i.evr.epoch, Some(i.evr.ver), Some(i.evr.release)), req) ==>
              exists c :: c in WithSelfCap(list, i) && c.name == i.name && InRelation(conf.vercmp, c, req)
    ensures forall c :: c in WithSelfCap(list, i) && c !in list ==>
              c == Cap(i.name, EQUAL, i.evr.epoch, Some(i.evr.ver), Some(i.evr.release))
  {
    var own := Cap(i.name, EQUAL, i.evr.epoch, Some(i.evr.ver), Some(i.evr.release));
    if c :| c in list && EqCap(i, c) {
      assert c.ver == own.ver && c.release == own.release && c.epoch == own.epoch;
      assert InRelation(conf.vercmp, own, req) ==> InRelation(conf.vercmp, c, req);
    } else {
      assert SelfCapOf(i) in WithSelfCap(list, i);
    }
  }

  /** A package with its own name added has it, the others have theirs. */
  lemma SelfCapAdded(w: World, p: int, tidy: seq<Cap> -> seq<Cap>, flagged: set<int>)
    requires Tidies(tidy) && (forall q :: q in flagged ==> HasCap(w, q, w.id(q).name))
    requires forall q :: q in w.caps ==> Grouped(w.caps[q])
    ensures var caps := w.caps[p := tidy(WithSelfCap(CapsOf(w, p), w.id(p)))];
            && (forall q :: q in flagged + {p} ==> HasCap(w.(caps := caps), q, w.id(q).name))
            && (forall q :: q in caps ==> Grouped(caps[q]))
  {
    hide Grouped, WithSelfCap, Tidies;
    var list := tidy(WithSelfCap(CapsOf(w, p), w.id(p)));
    TidyNames(CapsOf(w, p), w.id(p), tidy);
    TidyGroups(tidy, WithSelfCap(CapsOf(w, p), w.id(p)));
    var after := w.(caps := w.caps[p := list]);
    assert HasCap(after, p, w.id(p).name);
    forall q | q in flagged ensures HasCap(after, q, w.id(q).name) {
      assert q != p ==> CapsOf(after, q) == CapsOf(w, q);
    }
  }

  lemma TidyGroups(tidy: seq<Cap> -> seq<Cap>, s: seq<Cap>)
    requires Tidies(tidy)
    ensures Grouped(tidy(s))
  {
  }

  lemma TidyNames(list: seq<Cap>, i: Id, tidy: seq<Cap> -> seq<Cap>)
    requires Tidies(tidy)
    ensures forall n :: n in NamesOf(tidy(WithSelfCap(list, i))) <==> n in NamesOf(list) || n == i.name
  {
    var r := WithSelfCap(list, i);
    forall n ensures n in NamesOf(r) <==> n in NamesOf(list) || n == i.name {
      if exists c :: c in list && EqCap(i, c) {
        var c :| c in list && EqCap(i, c);
        var k :| 0 <= k < |list| && list[k] == c;
        assert NamesOf(list)[k] == i.name;
      } else {
        assert NamesOf(r) == NamesOf(list) + [i.name];
      }
    }
  }

  /** The search of pkg_add_selfcap: the group of capabilities with the package's name. */
  method HasSelfCap(list: seq<Cap>, i: Id) returns (has: bool)
    requires Grouped(list)
    ensures has <==> exists c :: c in list && EqCap(i, c)
  {
    var n := FindFirst(list, i.name);
    if n == -1 { return false; }
    var k := n;
    while k < |list|
      invariant n <= k <= |list|
      invariant forall j :: 0 <= j < k ==> !EqCap(i, list[j])
    {
      if list[k].name != i.name { return false; }
      if EqCap(i, list[k]) {
        assert list[k] in list;
        return true;
      }
      k := k + 1;
    }
    return false;
  }
}
