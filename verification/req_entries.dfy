/** From the requirements of one package to its `reqpkg` entries (pkgset-dep.c). */
module ReqEntries {
  import opened ReqGraph

  datatype Matches = NotFound | Found(pkgs: seq<Pkg>)

  /** A requirement with the answer of the (cached) search: an empty list means that it matches itself. */
  datatype Requirement = Requirement(rpmlib: bool, prereq: bool, prereqUn: bool, matches: Matches)

  /** The packages of an entry, head first. */
  function PkgsOf(e: Entry): seq<Pkg> {
    [e.head.pkg] + seq(|e.adds|, i requires 0 <= i < |e.adds| => e.adds[i].pkg)
  }

  /** Requirements that reach process_req with a list of other packages. */
  predicate Provided(r: Requirement) {
    !r.rpmlib && r.matches.Found? && r.matches.pkgs != []
  }

  predicate Unmatched(r: Requirement) {
    !r.rpmlib && r.matches.NotFound?
  }

  /** Searches answer without repetition. */
  ghost predicate Searched(reqs: seq<Requirement>) {
    forall i :: 0 <= i < |reqs| && Provided(reqs[i]) ==> Distinct(reqs[i].matches.pkgs)
  }

  /**
    The binary search by head package. Where several entries share a head any of them may be found; which one
    is left to the search.
   */
  type Search = (seq<Entry>, Pkg) -> int

  ghost predicate Finds(search: Search) {
    forall es: seq<Entry>, p: Pkg {:trigger search(es, p)} ::
      && (search(es, p) == -1 <==> !HeadTaken(es, p))
      && (search(es, p) != -1 ==> 0 <= search(es, p) < |es| && es[search(es, p)].head.pkg == p)
  }

  function NewEntry(r: Requirement, pkgs: seq<Pkg>): (e: Entry)
    requires pkgs != []
    ensures PkgsOf(e) == pkgs
  {
    var e := Entry(Alt(pkgs[0], r.prereq, r.prereqUn),
                   seq(|pkgs| - 1, i requires 0 <= i < |pkgs| - 1 => Alt(pkgs[i + 1], r.prereq, r.prereqUn)));
    e
  }

  function FlagHead(e: Entry, r: Requirement): (f: Entry)
    ensures PkgsOf(f) == PkgsOf(e)
  {
    var f := e.(head := Alt(e.head.pkg, e.head.prereq || r.prereq, e.head.prereqUn || r.prereqUn));
    assert PkgsOf(f) == PkgsOf(e);
    f
  }

  /** Same packages entry by entry; only flags may differ. */
  ghost predicate SamePkgs(es: seq<Entry>, fs: seq<Entry>) {
    |es| == |fs| && forall i :: 0 <= i < |es| ==> PkgsOf(es[i]) == PkgsOf(fs[i])
  }

  /** Some head of this package carries the flags of the requirement. */
  ghost predicate HeadFlagged(es: seq<Entry>, pkg: Pkg, r: Requirement) {
    exists e :: e in es && e.head.pkg == pkg && (r.prereq ==> e.head.prereq) && (r.prereqUn ==> e.head.prereqUn)
  }

  /** add_reqpkg: a single provider is looked up by its head only, even among entries with alternatives. */
  method AddReqpkg(entries: seq<Entry>, r: Requirement, pkg: Pkg, search: Search) returns (after: seq<Entry>)
    requires Finds(search)
    ensures after == Processed(entries, r, [pkg], search)
    ensures HeadTaken(entries, pkg) ==>
              exists at :: 0 <= at < |entries| && entries[at].head.pkg == pkg && after == entries[at := FlagHead(entries[at], r)]
    ensures !HeadTaken(entries, pkg) ==> after == entries + [NewEntry(r, [pkg])]
    ensures HeadFlagged(after, pkg, r)
  {
    var at := search(entries, pkg);
    if at == -1 {
      after := entries + [NewEntry(r, [pkg])];
      assert after[|entries|] in after;
    } else {
      after := entries[at := FlagHead(entries[at], r)];
      assert after[at] in after;
    }
  }

  /** The alternatives of an entry are the beginning of the list: what the comparison loop takes for equal. */
  predicate TakenForEqual(e: Entry, pkgs: seq<Pkg>) {
    e.Multi() && PkgsOf(e) <= pkgs
  }

  /** The entries after one more requirement with these providers. */
  function Processed(es: seq<Entry>, r: Requirement, pkgs: seq<Pkg>, search: Search): seq<Entry>
    requires pkgs != []
  {
    var at := search(es, pkgs[0]);
    if at < 0 || at >= |es| then es + [NewEntry(r, pkgs)]
    else if |pkgs| == 1 then es[at := FlagHead(es[at], r)]
    else if TakenForEqual(es[at], pkgs) then es
    else es + [NewEntry(r, pkgs)]
  }

  /** The entries after all requirements. */
  function Run(reqs: seq<Requirement>, search: Search): seq<Entry> {
    if reqs == [] then []
    else
      var es, r := Run(reqs[..|reqs| - 1], search), reqs[|reqs| - 1];
      if Provided(r) then Processed(es, r, r.matches.pkgs, search) else es
  }

  /** process_req on a non-empty list of providers. */
  method ProcessReq(entries: seq<Entry>, r: Requirement, pkgs: seq<Pkg>, search: Search) returns (after: seq<Entry>)
    requires pkgs != [] && Finds(search)
    ensures after == Processed(entries, r, pkgs, search)
    ensures |pkgs| == 1 && HeadTaken(entries, pkgs[0]) ==> SamePkgs(entries, after)
    ensures |pkgs| == 1 && !HeadTaken(entries, pkgs[0]) ==> after == entries + [NewEntry(r, pkgs)]
    ensures |pkgs| == 1 ==> HeadFlagged(after, pkgs[0], r)
    ensures |pkgs| > 1 ==> after == entries + [NewEntry(r, pkgs)] ||
                           (after == entries && exists e :: e in entries && TakenForEqual(e, pkgs))
  {
    ProcessedCases(entries, r, pkgs, search);
    if |pkgs| == 1 {
      assert pkgs == [pkgs[0]];
      after := AddReqpkg(entries, r, pkgs[0], search);
      return;
    }
    var at := search(entries, pkgs[0]);
    var isneq := true;
    if at != -1 && entries[at].Multi() {
      isneq := Differs(entries[at], pkgs);
    }
    after := if isneq then entries + [NewEntry(r, pkgs)] else entries;
  }

  /** The comparison loop: it stops at the end of the alternatives, not at the end of the list. */
  method Differs(rpkg: Entry, pkgs: seq<Pkg>) returns (isneq: bool)
    requires |pkgs| > 1 && rpkg.Multi() && rpkg.head.pkg == pkgs[0]
    ensures isneq <==> !TakenForEqual(rpkg, pkgs)
  {
    var adds, all := rpkg.adds, PkgsOf(rpkg);
    isneq := false;
    var i := 0;
    while i < |adds|
      invariant 0 <= i <= |adds| && i < |pkgs| && !isneq
      invariant forall k :: 0 <= k <= i ==> all[k] == pkgs[k]
    {
      assert all[i + 1] == adds[i].pkg;
      if i + 1 >= |pkgs| { return true; }
      if adds[i].pkg != pkgs[i + 1] { return true; }
      i := i + 1;
    }
    assert all == pkgs[..|all|];
  }

  /** What one requirement does, whichever entry is found. */
  lemma ProcessedCases(es: seq<Entry>, r: Requirement, pkgs: seq<Pkg>, search: Search)
    requires pkgs != [] && Finds(search)
    ensures var after := Processed(es, r, pkgs, search);
            if |pkgs| == 1 && HeadTaken(es, pkgs[0]) then SamePkgs(es, after)
            else after == es + [NewEntry(r, pkgs)] ||
                 (|pkgs| > 1 && after == es && exists e :: e in es && TakenForEqual(e, pkgs))
  {
    var at := search(es, pkgs[0]);
    if 0 <= at < |es| && |pkgs| > 1 && TakenForEqual(es[at], pkgs) {
      assert es[at] in es;
    }
  }

  // ----- what the entries say about the requirements

  /** An entry that asks for nothing but providers of the requirement. */
  ghost predicate Covered(entries: seq<Entry>, pkgs: seq<Pkg>) {
    exists e :: e in entries && forall p :: p in PkgsOf(e) ==> p in pkgs
  }

  /**
    A requirement with a single provider arrives when entries with this head exist and all of them have
    alternatives: add_reqpkg merely flags one of these.
   */
  ghost predicate FoldedAway(reqs: seq<Requirement>, i: nat) {
    && i < |reqs| && Provided(reqs[i]) && |reqs[i].matches.pkgs| == 1
    && exists j :: 0 <= j < i && Provided(reqs[j]) && |reqs[j].matches.pkgs| > 1
         && reqs[j].matches.pkgs[0] == reqs[i].matches.pkgs[0]
         && forall k :: 0 <= k < j && Provided(reqs[k]) ==> reqs[k].matches.pkgs != reqs[i].matches.pkgs
  }

  /** Every entry lists exactly the providers of one of the requirements. */
  ghost predicate EntriesSound(reqs: seq<Requirement>, entries: seq<Entry>) {
    forall e {:trigger IsRequired(reqs, |reqs|, PkgsOf(e))} :: e in entries ==> IsRequired(reqs, |reqs|, PkgsOf(e))
  }

  /** One of the first n requirements has exactly these providers. */
  ghost predicate IsRequired(reqs: seq<Requirement>, n: nat, pkgs: seq<Pkg>)
    requires n <= |reqs|
  {
    exists i :: 0 <= i < n && Provided(reqs[i]) && reqs[i].matches.pkgs == pkgs
  }

  ghost predicate HeadTaken(entries: seq<Entry>, pkg: Pkg) {
    exists e :: e in entries && e.head.pkg == pkg
  }

  /** Every requirement is covered, except those folded away. */
  ghost predicate EntriesCover(reqs: seq<Requirement>, entries: seq<Entry>) {
    forall i {:trigger FoldedAway(reqs, i)} :: 0 <= i < |reqs| && Provided(reqs[i]) ==>
      (Covered(entries, reqs[i].matches.pkgs) <==> !FoldedAway(reqs, i))
  }

  /** A requirement is in the entries as it stands: for a single provider, an entry without alternatives. */
  ghost predicate HasEntry(entries: seq<Entry>, pkgs: seq<Pkg>) {
    exists e :: e in entries && PkgsOf(e) == pkgs
  }

  function CountUnmatched(reqs: seq<Requirement>): nat {
    if reqs == [] then 0
    else CountUnmatched(reqs[..|reqs| - 1]) + if Unmatched(reqs[|reqs| - 1]) then 1 else 0
  }

  /** The requirements nobody matches, by their places; what rpm itself provides does not count. */
  ghost function Missing(reqs: seq<Requirement>): set<nat> {
    set i: nat | i < |reqs| && !reqs[i].rpmlib && reqs[i].matches == NotFound
  }

  lemma {:induction false} CountsMissing(reqs: seq<Requirement>)
    ensures CountUnmatched(reqs) == |Missing(reqs)|
  {
    if reqs == [] {
      assert Missing(reqs) == {};
    } else {
      var n := |reqs| - 1;
      CountsMissing(reqs[..n]);
      var last: set<nat> := if Unmatched(reqs[n]) then {n} else {};
      assert Missing(reqs) == Missing(reqs[..n]) + last && n !in Missing(reqs[..n]);
    }
  }

  lemma CoveredBySingle(entries: seq<Entry>, pkg: Pkg)
    requires forall e {:trigger PkgsOf(e)} :: e in entries ==> Distinct(PkgsOf(e))
    ensures Covered(entries, [pkg]) <==> HasEntry(entries, [pkg])
  {
    if Covered(entries, [pkg]) {
      var e :| e in entries && forall p :: p in PkgsOf(e) ==> p in [pkg];
      OnlyMember(PkgsOf(e), pkg);
    }
  }

  lemma OnlyMember(q: seq<Pkg>, pkg: Pkg)
    requires Distinct(q) && q != [] && forall p :: p in q ==> p == pkg
    ensures q == [pkg]
  {
    assert forall k :: 0 <= k < |q| ==> q[k] in q;
    assert q[0] == pkg && q[|q| - 1] == pkg;
  }

  /** What is known after the first n requirements. */
  ghost predicate Compiled(reqs: seq<Requirement>, n: nat, entries: seq<Entry>)
    requires n <= |reqs|
  {
    && (forall e {:trigger IsRequired(reqs, n, PkgsOf(e))} :: e in entries ==> IsRequired(reqs, n, PkgsOf(e)))
    && (forall i {:trigger HeadTaken(entries, reqs[i].matches.pkgs[0])} :: 0 <= i < n && Provided(reqs[i]) ==>
          HeadTaken(entries, reqs[i].matches.pkgs[0]))
    && (forall i {:trigger Covered(entries, reqs[i].matches.pkgs)} ::
          0 <= i < n && Provided(reqs[i]) && |reqs[i].matches.pkgs| > 1 ==> Covered(entries, reqs[i].matches.pkgs))
    && (forall i {:trigger FoldedAway(reqs, i)} ::
          0 <= i < n && Provided(reqs[i]) && |reqs[i].matches.pkgs| == 1 ==>
          (HasEntry(entries, reqs[i].matches.pkgs) <==> !FoldedAway(reqs, i)))
  }

  /** Whether a single provider is folded away does not depend on which of its requirements one looks at. */
  lemma FoldedAlike(reqs: seq<Requirement>, i: nat, j: nat)
    requires i < |reqs| && j < |reqs| && Provided(reqs[i]) && Provided(reqs[j])
    requires reqs[i].matches.pkgs == reqs[j].matches.pkgs && |reqs[i].matches.pkgs| == 1
    requires FoldedAway(reqs, i)
    ensures FoldedAway(reqs, j)
  {
    var m :| 0 <= m < i && Provided(reqs[m]) && |reqs[m].matches.pkgs| > 1
             && reqs[m].matches.pkgs[0] == reqs[i].matches.pkgs[0]
             && forall k :: 0 <= k < m && Provided(reqs[k]) ==> reqs[k].matches.pkgs != reqs[i].matches.pkgs;
    assert m != j && !(j < m);
  }

  lemma {:induction false} SamePkgsFind(es: seq<Entry>, fs: seq<Entry>, e: Entry) returns (f: Entry)
    requires SamePkgs(es, fs) && e in es
    ensures f in fs && PkgsOf(f) == PkgsOf(e) && f.head.pkg == e.head.pkg
  {
    var i :| 0 <= i < |es| && es[i] == e;
    f := fs[i];
    assert PkgsOf(f)[0] == PkgsOf(e)[0];
  }

  lemma SamePkgsSame(es: seq<Entry>, fs: seq<Entry>)
    requires SamePkgs(es, fs)
    ensures forall p :: HeadTaken(es, p) ==> HeadTaken(fs, p)
    ensures forall q :: HasEntry(es, q) ==> HasEntry(fs, q)
    ensures forall q :: Covered(es, q) ==> Covered(fs, q)
  {
    forall p | HeadTaken(es, p) ensures HeadTaken(fs, p) {
      var e :| e in es && e.head.pkg == p;
      var _ := SamePkgsFind(es, fs, e);
    }
    forall q | HasEntry(es, q) ensures HasEntry(fs, q) {
      var e :| e in es && PkgsOf(e) == q;
      var _ := SamePkgsFind(es, fs, e);
    }
    forall q | Covered(es, q) ensures Covered(fs, q) {
      var e :| e in es && forall p :: p in PkgsOf(e) ==> p in q;
      var f := SamePkgsFind(es, fs, e);
      assert forall p :: p in PkgsOf(f) ==> p in q;
    }
  }

  /** Entries with the same packages know the same. */
  lemma CompiledSamePkgs(reqs: seq<Requirement>, n: nat, es: seq<Entry>, fs: seq<Entry>)
    requires n <= |reqs| && Compiled(reqs, n, es) && SamePkgs(es, fs)
    ensures Compiled(reqs, n, fs)
  {
    SamePkgsSame(es, fs);
    SamePkgsSame(fs, es);
    forall f | f in fs ensures IsRequired(reqs, n, PkgsOf(f)) {
      var e := SamePkgsFind(fs, es, f);
      assert IsRequired(reqs, n, PkgsOf(e));
    }
  }

  lemma MoreRequired(reqs: seq<Requirement>, n: nat, es: seq<Entry>)
    requires n < |reqs| && Compiled(reqs, n, es)
    ensures forall e {:trigger IsRequired(reqs, n + 1, PkgsOf(e))} :: e in es ==> IsRequired(reqs, n + 1, PkgsOf(e))
  {
    forall e | e in es ensures IsRequired(reqs, n + 1, PkgsOf(e)) {
      assert IsRequired(reqs, n, PkgsOf(e));
    }
  }

  lemma SingleList(q: seq<Pkg>)
    ensures |q| == 1 ==> q == [q[0]]
  {
  }

  /** A single provider whose head is taken adds no entry, and is folded away unless it has its own. */
  lemma CompiledFold(reqs: seq<Requirement>, n: nat, es: seq<Entry>)
    requires n < |reqs| && Compiled(reqs, n, es)
    requires Provided(reqs[n]) && |reqs[n].matches.pkgs| == 1
    requires HeadTaken(es, reqs[n].matches.pkgs[0])
    ensures Compiled(reqs, n + 1, es)
  {
    var pkgs := reqs[n].matches.pkgs;
    MoreRequired(reqs, n, es);
    if k :| 0 <= k < n && Provided(reqs[k]) && reqs[k].matches.pkgs == pkgs {
      assert HasEntry(es, pkgs) <==> !FoldedAway(reqs, k);
      if FoldedAway(reqs, k) { FoldedAlike(reqs, k, n); }
      if FoldedAway(reqs, n) { FoldedAlike(reqs, n, k); }
    } else {
      var e :| e in es && e.head.pkg == pkgs[0];
      assert PkgsOf(e)[0] == pkgs[0] && IsRequired(reqs, n, PkgsOf(e));
      var j :| 0 <= j < n && Provided(reqs[j]) && reqs[j].matches.pkgs == PkgsOf(e);
      assert reqs[j].matches.pkgs != pkgs && pkgs == [pkgs[0]];
      SingleList(reqs[j].matches.pkgs);
      assert FoldedAway(reqs, n);
      forall f {:trigger PkgsOf(f)} | f in es ensures PkgsOf(f) != pkgs {
        assert IsRequired(reqs, n, PkgsOf(f));
      }
    }
  }

  lemma CompiledAppend(reqs: seq<Requirement>, n: nat, es: seq<Entry>, e: Entry)
    requires n < |reqs| && Compiled(reqs, n, es) && Provided(reqs[n]) && PkgsOf(e) == reqs[n].matches.pkgs
    requires |reqs[n].matches.pkgs| == 1 ==> !HeadTaken(es, reqs[n].matches.pkgs[0])
    ensures Compiled(reqs, n + 1, es + [e])
  {
    var pkgs := reqs[n].matches.pkgs;
    var fs := es + [e];
    assert e in fs && PkgsOf(e)[0] == e.head.pkg;
    assert forall f :: f in fs <==> f in es || f == e;
    MoreRequired(reqs, n, es);
    assert IsRequired(reqs, n + 1, PkgsOf(e));
    assert forall p :: HeadTaken(es, p) ==> HeadTaken(fs, p);
    assert forall q :: Covered(es, q) ==> Covered(fs, q);
    assert forall q :: HasEntry(fs, q) <==> HasEntry(es, q) || q == pkgs;
    assert Covered(fs, pkgs);
    if |pkgs| == 1 {
      forall j | 0 <= j < n && Provided(reqs[j]) ensures reqs[j].matches.pkgs[0] != pkgs[0] {
        assert HeadTaken(es, reqs[j].matches.pkgs[0]);
      }
    }
    forall i | 0 <= i < n && Provided(reqs[i]) && |reqs[i].matches.pkgs| == 1
      ensures HasEntry(fs, reqs[i].matches.pkgs) <==> !FoldedAway(reqs, i)
    {
      assert HeadTaken(es, reqs[i].matches.pkgs[0]);
    }
  }

  lemma CompiledEqual(reqs: seq<Requirement>, n: nat, es: seq<Entry>, e: Entry)
    requires n < |reqs| && Compiled(reqs, n, es) && Provided(reqs[n]) && |reqs[n].matches.pkgs| > 1
    requires e in es && TakenForEqual(e, reqs[n].matches.pkgs)
    ensures Compiled(reqs, n + 1, es)
  {
    var pkgs := reqs[n].matches.pkgs;
    assert PkgsOf(e)[0] == e.head.pkg && PkgsOf(e)[0] == pkgs[0];
    assert forall p :: p in PkgsOf(e) ==> p in pkgs;
    MoreRequired(reqs, n, es);
  }

  lemma CompiledSkip(reqs: seq<Requirement>, n: nat, es: seq<Entry>)
    requires n < |reqs| && Compiled(reqs, n, es) && !Provided(reqs[n])
    ensures Compiled(reqs, n + 1, es)
  {
    MoreRequired(reqs, n, es);
  }

  /** One requirement with providers. */
  lemma CompiledStep(reqs: seq<Requirement>, n: nat, before: seq<Entry>, after: seq<Entry>)
    requires n < |reqs| && Compiled(reqs, n, before) && Provided(reqs[n])
    requires var r := reqs[n]; var pkgs := r.matches.pkgs;
             if |pkgs| == 1 && HeadTaken(before, pkgs[0]) then SamePkgs(before, after)
             else after == before + [NewEntry(r, pkgs)] ||
                  (|pkgs| > 1 && after == before && exists e :: e in before && TakenForEqual(e, pkgs))
    ensures Compiled(reqs, n + 1, after)
  {
    var r := reqs[n];
    var pkgs := r.matches.pkgs;
    if |pkgs| == 1 && HeadTaken(before, pkgs[0]) {
      CompiledFold(reqs, n, before);
      CompiledSamePkgs(reqs, n + 1, before, after);
    } else if after == before + [NewEntry(r, pkgs)] {
      CompiledAppend(reqs, n, before, NewEntry(r, pkgs));
    } else {
      var e :| e in before && TakenForEqual(e, pkgs);
      CompiledEqual(reqs, n, before, e);
    }
  }

  /**
    process_reqs: the entries list providers of requirements and nothing else, they cover every matched
    requirement except those folded away, and the errors are the requirements nobody matches.
   */
  method ProcessReqs(reqs: seq<Requirement>, search: Search) returns (entries: seq<Entry>, nerrors: nat)
    requires Searched(reqs) && Finds(search)
    ensures entries == Run(reqs, search)
    ensures EntriesSound(reqs, entries)
    ensures EntriesCover(reqs, entries)
    ensures nerrors == CountUnmatched(reqs) == |Missing(reqs)|
  {
    CountsMissing(reqs);
    entries, nerrors := [], 0;
    var i := 0;
    while i < |reqs|
      invariant 0 <= i <= |reqs|
      invariant entries == Run(reqs[..i], search)
      invariant nerrors == CountUnmatched(reqs[..i])
    {
      var r := reqs[i];
      assert reqs[..i + 1][..i] == reqs[..i];
      if r.rpmlib {
      } else if r.matches.NotFound? {
        nerrors := nerrors + 1;
      } else if r.matches.pkgs == [] {
      } else {
        entries := ProcessReq(entries, r, r.matches.pkgs, search);
      }
      i := i + 1;
    }
    assert reqs[..i] == reqs;
    RunCompiles(reqs, |reqs|, search);
    CompiledCovers(reqs, entries);
  }

  lemma {:induction false} RunCompiles(reqs: seq<Requirement>, n: nat, search: Search)
    requires n <= |reqs| && Finds(search)
    ensures Compiled(reqs, n, Run(reqs[..n], search))
  {
    if n > 0 {
      var es, r := Run(reqs[..n - 1], search), reqs[n - 1];
      assert reqs[..n][..n - 1] == reqs[..n - 1];
      RunCompiles(reqs, n - 1, search);
      if Provided(r) {
        ProcessedCases(es, r, r.matches.pkgs, search);
        CompiledStep(reqs, n - 1, es, Processed(es, r, r.matches.pkgs, search));
      } else {
        CompiledSkip(reqs, n - 1, es);
      }
    }
  }

  lemma CompiledCovers(reqs: seq<Requirement>, entries: seq<Entry>)
    requires Searched(reqs) && Compiled(reqs, |reqs|, entries)
    ensures EntriesSound(reqs, entries) && EntriesCover(reqs, entries)
  {
    forall e {:trigger PkgsOf(e)} | e in entries ensures Distinct(PkgsOf(e)) {
      assert IsRequired(reqs, |reqs|, PkgsOf(e));
    }
    forall i | 0 <= i < |reqs| && Provided(reqs[i])
      ensures Covered(entries, reqs[i].matches.pkgs) <==> !FoldedAway(reqs, i)
    {
      if |reqs[i].matches.pkgs| == 1 {
        assert reqs[i].matches.pkgs == [reqs[i].matches.pkgs[0]];
        CoveredBySingle(entries, reqs[i].matches.pkgs[0]);
      }
    }
  }

  // ----- what the entries mean for a set of marked packages

  ghost predicate Hits(marked: set<Pkg>, pkgs: seq<Pkg>) {
    exists p :: p in pkgs && p in marked
  }

  ghost predicate MeetsEntries(marked: set<Pkg>, entries: seq<Entry>) {
    forall e {:trigger PkgsOf(e)} :: e in entries ==> Hits(marked, PkgsOf(e))
  }

  ghost predicate MeetsRequirements(marked: set<Pkg>, reqs: seq<Requirement>) {
    forall i :: 0 <= i < |reqs| && Provided(reqs[i]) ==> Hits(marked, reqs[i].matches.pkgs)
  }

  ghost predicate NothingFolded(reqs: seq<Requirement>) {
    forall i :: 0 <= i < |reqs| ==> !FoldedAway(reqs, i)
  }

  /** All packages mentioned by the requirements. */
  ghost function Mentioned(reqs: seq<Requirement>): set<Pkg> {
    set i, p | 0 <= i < |reqs| && Provided(reqs[i]) && p in reqs[i].matches.pkgs :: p
  }

  /**
    Meeting the entries means meeting the requirements exactly when nothing was folded away: otherwise some
    set of packages meets every entry and still leaves a requirement without its only provider.
   */
  lemma EntriesMeanRequirements(reqs: seq<Requirement>, entries: seq<Entry>)
    requires Searched(reqs) && EntriesSound(reqs, entries) && EntriesCover(reqs, entries)
    ensures NothingFolded(reqs) <==>
            forall marked :: MeetsEntries(marked, entries) ==> MeetsRequirements(marked, reqs)
  {
    if NothingFolded(reqs) {
      forall marked | MeetsEntries(marked, entries) ensures MeetsRequirements(marked, reqs) {
        CoveredRequirementsMet(marked, reqs, entries);
      }
    } else {
      var i :| 0 <= i < |reqs| && FoldedAway(reqs, i);
      var marked := Mentioned(reqs) - {reqs[i].matches.pkgs[0]};
      OtherwiseUnmet(reqs, entries, i);
      assert MeetsEntries(marked, entries) && !MeetsRequirements(marked, reqs);
    }
  }

  lemma CoveredRequirementsMet(marked: set<Pkg>, reqs: seq<Requirement>, entries: seq<Entry>)
    requires NothingFolded(reqs) && EntriesCover(reqs, entries) && MeetsEntries(marked, entries)
    ensures MeetsRequirements(marked, reqs)
  {
    forall i | 0 <= i < |reqs| && Provided(reqs[i]) ensures Hits(marked, reqs[i].matches.pkgs) {
      assert !FoldedAway(reqs, i);
      var e :| e in entries && forall p :: p in PkgsOf(e) ==> p in reqs[i].matches.pkgs;
      assert Hits(marked, PkgsOf(e));
    }
  }

  lemma OtherwiseUnmet(reqs: seq<Requirement>, entries: seq<Entry>, i: nat)
    requires Searched(reqs) && EntriesSound(reqs, entries) && EntriesCover(reqs, entries)
    requires i < |reqs| && FoldedAway(reqs, i)
    ensures var marked := Mentioned(reqs) - {reqs[i].matches.pkgs[0]};
            MeetsEntries(marked, entries) && !Hits(marked, reqs[i].matches.pkgs)
  {
    var only := reqs[i].matches.pkgs[0];
    assert reqs[i].matches.pkgs == [only];
    var marked := Mentioned(reqs) - {only};
    forall e {:trigger PkgsOf(e)} | e in entries ensures Hits(marked, PkgsOf(e)) {
      assert IsRequired(reqs, |reqs|, PkgsOf(e));
      assert !Covered(entries, [only]);
      HitsOther(reqs, PkgsOf(e), only);
    }
  }

  lemma HitsOther(reqs: seq<Requirement>, q: seq<Pkg>, only: Pkg)
    requires Searched(reqs) && IsRequired(reqs, |reqs|, q) && q != [] && exists p :: p in q && p != only
    ensures Hits(Mentioned(reqs) - {only}, q)
  {
    var j :| 0 <= j < |reqs| && Provided(reqs[j]) && reqs[j].matches.pkgs == q;
    var p :| p in q && p != only;
    assert p in Mentioned(reqs) - {only};
  }
}
