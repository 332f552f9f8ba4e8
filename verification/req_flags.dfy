/** Whether the flag of a Requires(pre) or Requires(un) reaches an entry, and so the install order (pkgset-dep.c). */
module ReqFlags {
  import opened ReqGraph
  import opened ReqEntries

  predicate IsFlagged(r: Requirement) {
    r.prereq || r.prereqUn
  }

  /** Alternatives were required before that are a beginning of the requirement's list of alternatives. */
  ghost predicate Shadowed(reqs: seq<Requirement>, i: nat)
    requires i < |reqs| && Provided(reqs[i])
  {
    && |reqs[i].matches.pkgs| > 1
    && exists j :: 0 <= j < i && Provided(reqs[j]) && |reqs[j].matches.pkgs| > 1
                   && reqs[j].matches.pkgs <= reqs[i].matches.pkgs
  }

  ghost predicate SameHead(reqs: seq<Requirement>, k: nat, i: nat)
    requires k < |reqs| && i < |reqs| && Provided(reqs[i])
  {
    Provided(reqs[k]) && reqs[k].matches.pkgs[0] == reqs[i].matches.pkgs[0]
  }

  /** No other requirement with the same first provider has a flag in common with this one. */
  ghost predicate Unshared(reqs: seq<Requirement>, i: nat)
    requires i < |reqs| && Provided(reqs[i])
  {
    forall k :: 0 <= k < |reqs| && k != i && SameHead(reqs, k, i) ==> Apart(reqs[k], reqs[i])
  }

  predicate Apart(q: Requirement, r: Requirement) {
    !(q.prereq && r.prereq) && !(q.prereqUn && r.prereqUn)
  }

  // ----- flags that are there stay

  lemma FlagStays(es: seq<Entry>, q: Requirement, pkgs: seq<Pkg>, search: Search, pkg: Pkg, r: Requirement)
    requires pkgs != [] && HeadFlagged(es, pkg, r)
    ensures HeadFlagged(Processed(es, q, pkgs, search), pkg, r)
  {
    var e :| e in es && e.head.pkg == pkg && (r.prereq ==> e.head.prereq) && (r.prereqUn ==> e.head.prereqUn);
    var k :| 0 <= k < |es| && es[k] == e;
    var after := Processed(es, q, pkgs, search);
    assert after[k] in after && after[k].head.pkg == pkg;
  }

  lemma {:induction false} FlagStaysOn(reqs: seq<Requirement>, n: nat, search: Search, pkg: Pkg, r: Requirement)
    requires n <= |reqs| && HeadFlagged(Run(reqs[..n], search), pkg, r)
    ensures HeadFlagged(Run(reqs, search), pkg, r)
    decreases |reqs| - n
  {
    if n < |reqs| {
      assert reqs[..n + 1][..n] == reqs[..n];
      if Provided(reqs[n]) {
        FlagStays(Run(reqs[..n], search), reqs[n], reqs[n].matches.pkgs, search, pkg, r);
      }
      FlagStaysOn(reqs, n + 1, search, pkg, r);
    } else {
      assert reqs[..n] == reqs;
    }
  }

  lemma RunStep(reqs: seq<Requirement>, n: nat, search: Search)
    requires n < |reqs|
    ensures Run(reqs[..n + 1], search) ==
            if Provided(reqs[n]) then Processed(Run(reqs[..n], search), reqs[n], reqs[n].matches.pkgs, search)
            else Run(reqs[..n], search)
  {
    assert reqs[..n + 1][..n] == reqs[..n];
  }

  /** A requirement that is not shadowed leaves its flags with the first provider, whatever the search finds. */
  lemma FlagKept(reqs: seq<Requirement>, i: nat, search: Search)
    requires Finds(search) && i < |reqs| && Provided(reqs[i]) && !Shadowed(reqs, i)
    ensures HeadFlagged(Run(reqs, search), reqs[i].matches.pkgs[0], reqs[i])
  {
    var r, pkgs := reqs[i], reqs[i].matches.pkgs;
    var es := Run(reqs[..i], search);
    var after := Processed(es, r, pkgs, search);
    var at := search(es, pkgs[0]);
    RunStep(reqs, i, search);
    RunCompiles(reqs, i, search);
    if 0 <= at < |es| && |pkgs| == 1 {
      assert after[at] in after;
    } else {
      if 0 <= at < |es| && TakenForEqual(es[at], pkgs) {
        assert IsRequired(reqs, i, PkgsOf(es[at]));
        assert Shadowed(reqs, i);
      }
      assert after[|es|] in after;
    }
    FlagStaysOn(reqs, i + 1, search, pkgs[0], r);
  }

  // ----- flags of alternatives

  /** Some entry lists this package, as its head or as an alternative, with the flags of the requirement. */
  ghost predicate ListedFlagged(es: seq<Entry>, pkg: Pkg, r: Requirement) {
    exists e, a :: e in es && (a == e.head || a in e.adds) && a.pkg == pkg && Carries(a, r)
  }

  predicate Carries(a: Alt, r: Requirement) {
    (r.prereq ==> a.prereq) && (r.prereqUn ==> a.prereqUn)
  }

  lemma ListedStays(es: seq<Entry>, q: Requirement, pkgs: seq<Pkg>, search: Search, pkg: Pkg, r: Requirement)
    requires pkgs != [] && ListedFlagged(es, pkg, r)
    ensures ListedFlagged(Processed(es, q, pkgs, search), pkg, r)
  {
    var e, a :| e in es && (a == e.head || a in e.adds) && a.pkg == pkg && Carries(a, r);
    var k :| 0 <= k < |es| && es[k] == e;
    var f := Processed(es, q, pkgs, search)[k];
    assert f in Processed(es, q, pkgs, search) && f.adds == e.adds;
    assert a == e.head ==> f.head.pkg == pkg && Carries(f.head, r);
  }

  lemma {:induction false} ListedStaysOn(reqs: seq<Requirement>, n: nat, search: Search, pkg: Pkg, r: Requirement)
    requires n <= |reqs| && ListedFlagged(Run(reqs[..n], search), pkg, r)
    ensures ListedFlagged(Run(reqs, search), pkg, r)
    decreases |reqs| - n
  {
    if n < |reqs| {
      RunStep(reqs, n, search);
      if Provided(reqs[n]) {
        ListedStays(Run(reqs[..n], search), reqs[n], reqs[n].matches.pkgs, search, pkg, r);
      }
      ListedStaysOn(reqs, n + 1, search, pkg, r);
    } else {
      assert reqs[..n] == reqs;
    }
  }

  /** A new entry has the flags of its requirement everywhere. */
  lemma NewEntryCarries(r: Requirement, pkgs: seq<Pkg>, k: nat)
    requires k < |pkgs|
    ensures var e, a := NewEntry(r, pkgs), Alt(pkgs[k], r.prereq, r.prereqUn);
            a == e.head || a in e.adds
  {
    var e := NewEntry(r, pkgs);
    var a := Alt(pkgs[k], r.prereq, r.prereqUn);
    if k > 0 {
      assert e.adds[k - 1] == a && a in e.adds;
    } else {
      assert e.head == a;
    }
  }

  lemma TakenIsShadowed(reqs: seq<Requirement>, i: nat, search: Search, e: Entry)
    requires Finds(search) && i < |reqs| && Provided(reqs[i]) && |reqs[i].matches.pkgs| > 1
    requires e in Run(reqs[..i], search) && TakenForEqual(e, reqs[i].matches.pkgs)
    ensures Shadowed(reqs, i)
  {
    RunCompiles(reqs, i, search);
    assert IsRequired(reqs, i, PkgsOf(e));
  }

  /** A requirement that is not shadowed leaves its flags with each of its providers. */
  lemma ProvidersKept(reqs: seq<Requirement>, i: nat, search: Search, k: nat)
    requires Finds(search) && i < |reqs| && Provided(reqs[i]) && !Shadowed(reqs, i) && k < |reqs[i].matches.pkgs|
    ensures ListedFlagged(Run(reqs, search), reqs[i].matches.pkgs[k], reqs[i])
  {
    var r, pkgs := reqs[i], reqs[i].matches.pkgs;
    if k == 0 {
      FlagKept(reqs, i, search);
      var e :| e in Run(reqs, search) && e.head.pkg == pkgs[0] && Carries(e.head, r);
    } else {
      hide Run, Processed, TakenForEqual, Shadowed;
      RunStep(reqs, i, search);
      NotTakenIsNew(reqs, i, search);
      NewListed(Run(reqs[..i], search), r, pkgs, k);
      ListedStaysOn(reqs, i + 1, search, pkgs[k], r);
    }
  }

  lemma NewListed(es: seq<Entry>, r: Requirement, pkgs: seq<Pkg>, k: nat)
    requires k < |pkgs|
    ensures ListedFlagged(es + [NewEntry(r, pkgs)], pkgs[k], r)
  {
    NewEntryCarries(r, pkgs, k);
    var e := NewEntry(r, pkgs);
    assert e in es + [e];
  }

  lemma NotTakenIsNew(reqs: seq<Requirement>, i: nat, search: Search)
    requires Finds(search) && i < |reqs| && Provided(reqs[i]) && !Shadowed(reqs, i) && |reqs[i].matches.pkgs| > 1
    ensures var es, pkgs := Run(reqs[..i], search), reqs[i].matches.pkgs;
            Processed(es, reqs[i], pkgs, search) == es + [NewEntry(reqs[i], pkgs)]
  {
    hide Run, Shadowed, Finds;
    var es, pkgs := Run(reqs[..i], search), reqs[i].matches.pkgs;
    var at := search(es, pkgs[0]);
    if 0 <= at < |es| && TakenForEqual(es[at], pkgs) {
      TakenIsShadowed(reqs, i, search, es[at]);
    }
  }

  /** The flags of what an entry lists are those of requirements that the package meets. */
  ghost predicate Asked(reqs: seq<Requirement>, n: nat, a: Alt)
    requires n <= |reqs|
  {
    && (a.prereq ==> exists i :: 0 <= i < n && Provided(reqs[i]) && reqs[i].prereq && a.pkg in reqs[i].matches.pkgs)
    && (a.prereqUn ==> exists i :: 0 <= i < n && Provided(reqs[i]) && reqs[i].prereqUn && a.pkg in reqs[i].matches.pkgs)
  }

  ghost predicate AllAsked(reqs: seq<Requirement>, n: nat, es: seq<Entry>)
    requires n <= |reqs|
  {
    forall e :: e in es ==> EntryAsked(reqs, n, e)
  }

  lemma {:induction false} FlagsAreAsked(reqs: seq<Requirement>, n: nat, search: Search)
    requires Finds(search) && n <= |reqs|
    ensures AllAsked(reqs, n, Run(reqs[..n], search))
    decreases n
  {
    if n > 0 {
      var r, es, after := reqs[n - 1], Run(reqs[..n - 1], search), Run(reqs[..n], search);
      FlagsAreAsked(reqs, n - 1, search);
      RunStep(reqs, n - 1, search);
      hide Run, Processed;
      forall k | 0 <= k < |after| ensures EntryAsked(reqs, n, after[k]) {
        if Provided(r) {
          ProcessedEntry(es, r, r.matches.pkgs, search, k);
        }
        if k < |es| {
          assert es[k] in es;
          EntryStaysAsked(reqs, n, es[k], after[k]);
        } else {
          forall a | a == after[k].head || a in after[k].adds ensures Asked(reqs, n, a) {
            NewEntryAsks(r, r.matches.pkgs, a);
          }
        }
      }
    }
  }

  ghost predicate EntryAsked(reqs: seq<Requirement>, n: nat, e: Entry)
    requires n <= |reqs|
  {
    forall a :: a == e.head || a in e.adds ==> Asked(reqs, n, a)
  }

  /** Each entry afterwards is an old one, perhaps with a flag more at its head, or the new one. */
  lemma ProcessedEntry(es: seq<Entry>, r: Requirement, pkgs: seq<Pkg>, search: Search, k: nat)
    requires Finds(search) && pkgs != [] && k < |Processed(es, r, pkgs, search)|
    ensures var after := Processed(es, r, pkgs, search);
            if k < |es| then after[k] == es[k] || (after[k] == FlagHead(es[k], r) && es[k].head.pkg == pkgs[0])
            else after[k] == NewEntry(r, pkgs)
  {
  }

  lemma EntryStaysAsked(reqs: seq<Requirement>, n: nat, e: Entry, f: Entry)
    requires 0 < n <= |reqs| && EntryAsked(reqs, n - 1, e)
    requires f == e || (Provided(reqs[n - 1]) && f == FlagHead(e, reqs[n - 1]) && e.head.pkg == reqs[n - 1].matches.pkgs[0])
    ensures EntryAsked(reqs, n, f)
  {
    assert Asked(reqs, n - 1, e.head);
    forall a | a in f.adds ensures Asked(reqs, n, a) { assert Asked(reqs, n - 1, a); }
  }

  lemma NewEntryAsks(r: Requirement, pkgs: seq<Pkg>, a: Alt)
    requires pkgs != [] && (a == NewEntry(r, pkgs).head || a in NewEntry(r, pkgs).adds)
    ensures a.pkg in pkgs && a.prereq == r.prereq && a.prereqUn == r.prereqUn
  {
  }

  // ----- flags that are not there

  /** No entry with that head has one of the flags. */
  ghost predicate Clean(es: seq<Entry>, pkg: Pkg, r: Requirement) {
    forall e :: e in es && e.head.pkg == pkg ==> !(r.prereq && e.head.prereq) && !(r.prereqUn && e.head.prereqUn)
  }

  lemma CleanStays(es: seq<Entry>, q: Requirement, pkgs: seq<Pkg>, search: Search, pkg: Pkg, r: Requirement)
    requires Finds(search) && pkgs != [] && Clean(es, pkg, r) && (pkgs[0] == pkg ==> Apart(q, r))
    ensures Clean(Processed(es, q, pkgs, search), pkg, r)
  {
    var at := search(es, pkgs[0]);
    var after := Processed(es, q, pkgs, search);
    forall k | 0 <= k < |after| && after[k].head.pkg == pkg
      ensures !(r.prereq && after[k].head.prereq) && !(r.prereqUn && after[k].head.prereqUn)
    {
      if k < |es| { assert es[k] in es; }
    }
  }

  /** The requirement adds nothing to the entries. */
  ghost predicate Dropped(reqs: seq<Requirement>, i: nat, search: Search)
    requires i < |reqs|
  {
    Run(reqs[..i + 1], search) == Run(reqs[..i], search)
  }

  lemma {:induction false} RunIsClean(reqs: seq<Requirement>, i: nat, n: nat, search: Search)
    requires Finds(search) && i < |reqs| && Provided(reqs[i]) && Unshared(reqs, i) && Dropped(reqs, i, search)
    requires n <= |reqs|
    ensures Clean(Run(reqs[..n], search), reqs[i].matches.pkgs[0], reqs[i])
    decreases n
  {
    hide Processed, Shadowed;
    if n > 0 {
      RunIsClean(reqs, i, n - 1, search);
      RunStep(reqs, n - 1, search);
      var q := reqs[n - 1];
      if n - 1 != i && Provided(q) {
        assert SameHead(reqs, n - 1, i) ==> Apart(q, reqs[i]);
        CleanStays(Run(reqs[..n - 1], search), q, q.matches.pkgs, search, reqs[i].matches.pkgs[0], reqs[i]);
      }
    }
  }

  lemma DroppedIsLost(reqs: seq<Requirement>, i: nat, search: Search)
    requires Finds(search) && i < |reqs| && Provided(reqs[i]) && IsFlagged(reqs[i])
    requires Unshared(reqs, i) && Dropped(reqs, i, search)
    ensures !HeadFlagged(Run(reqs, search), reqs[i].matches.pkgs[0], reqs[i])
  {
    RunIsClean(reqs, i, |reqs|, search);
    assert reqs[..|reqs|] == reqs;
  }

  // ----- the entry that shadows

  ghost predicate HasTaken(es: seq<Entry>, pkgs: seq<Pkg>) {
    exists e :: e in es && TakenForEqual(e, pkgs)
  }

  lemma TakenStays(es: seq<Entry>, q: Requirement, qs: seq<Pkg>, search: Search, pkgs: seq<Pkg>)
    requires qs != [] && HasTaken(es, pkgs)
    ensures HasTaken(Processed(es, q, qs, search), pkgs)
  {
    var e :| e in es && TakenForEqual(e, pkgs);
    var k :| 0 <= k < |es| && es[k] == e;
    var after := Processed(es, q, qs, search);
    assert after[k] in after && PkgsOf(after[k]) == PkgsOf(e);
  }

  lemma {:induction false} ShadowStands(reqs: seq<Requirement>, j: nat, n: nat, search: Search, pkgs: seq<Pkg>)
    requires Finds(search) && j < n <= |reqs| && Provided(reqs[j]) && |reqs[j].matches.pkgs| > 1
    requires reqs[j].matches.pkgs <= pkgs
    ensures HasTaken(Run(reqs[..n], search), pkgs)
    decreases n
  {
    var q, es := reqs[n - 1], Run(reqs[..n - 1], search);
    RunStep(reqs, n - 1, search);
    if n - 1 == j {
      var qs := q.matches.pkgs;
      var at := search(es, qs[0]);
      var after := Processed(es, q, qs, search);
      if 0 <= at < |es| && TakenForEqual(es[at], qs) {
        assert es[at] in after && TakenForEqual(es[at], pkgs);
      } else {
        assert after[|es|] in after && TakenForEqual(after[|es|], pkgs);
      }
    } else {
      ShadowStands(reqs, j, n - 1, search, pkgs);
      if Provided(q) { TakenStays(es, q, q.matches.pkgs, search, pkgs); }
    }
  }

  /** The first entry that the list would be taken for, or the length. */
  function FirstTaken(es: seq<Entry>, pkgs: seq<Pkg>): (n: nat)
    ensures n <= |es| && (n < |es| ==> TakenForEqual(es[n], pkgs))
    ensures n == |es| ==> forall e :: e in es ==> !TakenForEqual(e, pkgs)
  {
    if es == [] then 0
    else if TakenForEqual(es[0], pkgs) then 0
    else 1 + FirstTaken(es[1..], pkgs)
  }

  function FirstHead(es: seq<Entry>, pkg: Pkg): (n: nat)
    ensures n <= |es| && (n < |es| ==> es[n].head.pkg == pkg)
    ensures n == |es| ==> forall e :: e in es ==> e.head.pkg != pkg
  {
    if es == [] then 0
    else if es[0].head.pkg == pkg then 0
    else 1 + FirstHead(es[1..], pkg)
  }

  /** A search that finds an entry the list would be taken for, if there is one. */
  function Preferring(pkgs: seq<Pkg>): Search
    requires pkgs != []
  {
    (es: seq<Entry>, p: Pkg) =>
      if p == pkgs[0] && FirstTaken(es, pkgs) < |es| then FirstTaken(es, pkgs)
      else if FirstHead(es, p) < |es| then FirstHead(es, p)
      else -1
  }

  lemma PreferringFinds(pkgs: seq<Pkg>)
    requires pkgs != []
    ensures Finds(Preferring(pkgs))
  {
    var search := Preferring(pkgs);
    forall es: seq<Entry>, p: Pkg
      ensures search(es, p) == -1 <==> !HeadTaken(es, p)
      ensures search(es, p) != -1 ==> 0 <= search(es, p) < |es| && es[search(es, p)].head.pkg == p
    {
      var t, h := FirstTaken(es, pkgs), FirstHead(es, p);
      if t < |es| {
        assert PkgsOf(es[t])[0] == pkgs[0] && es[t] in es;
      }
      if h < |es| { assert es[h] in es; }
    }
  }

  /**
    The flags of a requirement reach an entry whatever the search finds if and only if no alternatives
    required before are a beginning of its own, given that no other requirement brings them to the same head.
   */
  lemma FlagSurvivesExactly(reqs: seq<Requirement>, i: nat)
    requires i < |reqs| && Provided(reqs[i]) && IsFlagged(reqs[i]) && Unshared(reqs, i)
    ensures (forall search: Search :: Finds(search) ==> HeadFlagged(Run(reqs, search), reqs[i].matches.pkgs[0], reqs[i]))
            <==> !Shadowed(reqs, i)
  {
    var pkgs := reqs[i].matches.pkgs;
    if !Shadowed(reqs, i) {
      forall search: Search | Finds(search) ensures HeadFlagged(Run(reqs, search), pkgs[0], reqs[i]) {
        FlagKept(reqs, i, search);
      }
    } else {
      var search := ShadowCanLose(reqs, i);
    }
  }

  lemma ShadowCanLose(reqs: seq<Requirement>, i: nat) returns (search: Search)
    requires i < |reqs| && Provided(reqs[i]) && IsFlagged(reqs[i]) && Unshared(reqs, i) && Shadowed(reqs, i)
    ensures Finds(search) && !HeadFlagged(Run(reqs, search), reqs[i].matches.pkgs[0], reqs[i])
  {
    hide Run, Processed, HeadFlagged, Unshared;
    var pkgs := reqs[i].matches.pkgs;
    search := Preferring(pkgs);
    PreferringFinds(pkgs);
    var j :| 0 <= j < i && Provided(reqs[j]) && |reqs[j].matches.pkgs| > 1 && reqs[j].matches.pkgs <= pkgs;
    ShadowStands(reqs, j, i, search, pkgs);
    RunStep(reqs, i, search);
    PreferringTakes(Run(reqs[..i], search), reqs[i], pkgs);
    DroppedIsLost(reqs, i, search);
  }

  lemma PreferringTakes(es: seq<Entry>, r: Requirement, pkgs: seq<Pkg>)
    requires |pkgs| > 1 && HasTaken(es, pkgs)
    ensures Processed(es, r, pkgs, Preferring(pkgs)) == es
  {
    var e :| e in es && TakenForEqual(e, pkgs);
    assert FirstTaken(es, pkgs) < |es|;
    assert Preferring(pkgs)(es, pkgs[0]) == FirstTaken(es, pkgs);
  }

  /** When nothing but such alternatives was required of that head before, the flags are lost in every case. */
  lemma FlagAlwaysLost(reqs: seq<Requirement>, i: nat, search: Search)
    requires Finds(search) && i < |reqs| && Provided(reqs[i]) && IsFlagged(reqs[i]) && Unshared(reqs, i)
    requires Shadowed(reqs, i)
    requires forall k :: 0 <= k < i && SameHead(reqs, k, i) ==>
               |reqs[k].matches.pkgs| > 1 && reqs[k].matches.pkgs <= reqs[i].matches.pkgs
    ensures !HeadFlagged(Run(reqs, search), reqs[i].matches.pkgs[0], reqs[i])
  {
    var pkgs, es := reqs[i].matches.pkgs, Run(reqs[..i], search);
    var j :| 0 <= j < i && Provided(reqs[j]) && |reqs[j].matches.pkgs| > 1 && reqs[j].matches.pkgs <= pkgs;
    ShadowStands(reqs, j, i, search, pkgs);
    var e :| e in es && TakenForEqual(e, pkgs);
    assert PkgsOf(e)[0] == e.head.pkg == pkgs[0];
    assert HeadTaken(es, pkgs[0]);
    var at := search(es, pkgs[0]);
    RunCompiles(reqs, i, search);
    assert es[at] in es && IsRequired(reqs, i, PkgsOf(es[at])) && PkgsOf(es[at])[0] == pkgs[0];
    var k :| 0 <= k < i && Provided(reqs[k]) && reqs[k].matches.pkgs == PkgsOf(es[at]);
    assert SameHead(reqs, k, i);
    RunStep(reqs, i, search);
    assert Dropped(reqs, i, search);
    DroppedIsLost(reqs, i, search);
  }

  /** After a requirement that 10 or 11 meets, the flag of a Requires(pre) met by 10, 11 or 12, or again by 10 or 11, is lost. */
  lemma FlagLost(search: Search)
    requires Finds(search)
    ensures var plain := Requirement(false, false, false, Found([10, 11]));
            var pre := Requirement(false, true, false, Found([10, 11, 12]));
            && !HeadFlagged(Run([plain, pre], search), 10, pre)
            && !HeadFlagged(Run([plain, plain.(prereq := true)], search), 10, plain.(prereq := true))
  {
    var plain := Requirement(false, false, false, Found([10, 11]));
    var pre := Requirement(false, true, false, Found([10, 11, 12]));
    assert [10, 11] <= [10, 11, 12];
    assert Shadowed([plain, pre], 1) by { assert [plain, pre][0] == plain; }
    FlagAlwaysLost([plain, pre], 1, search);
    var again := plain.(prereq := true);
    assert Shadowed([plain, again], 1) by { assert [plain, again][0] == plain; }
    FlagAlwaysLost([plain, again], 1, search);
  }
}

/** From the requirements of packages to the order they are installed in. */
module PreOrder {
  import opened ReqGraph
  import opened ReqEntries
  import opened ReqFlags
  import opened OrderSpec
  import opened OrderTheorems

  /** The graph that process_reqs makes of the requirements of each package. */
  ghost predicate GraphOf(g: Graph, reqs: map<Pkg, seq<Requirement>>, search: Search) {
    g.Keys == reqs.Keys && forall p :: p in g ==> g[p] == Run(reqs[p], search)
  }

  /** The i-th requirement of u, of the kind that the type of order goes by, is met by h; both are in the pool. */
  ghost predicate PreRequires(reqs: map<Pkg, seq<Requirement>>, t: OrderType, pkgs: seq<Pkg>, u: Pkg, i: nat, h: Pkg) {
    && u in pkgs && u in reqs && i < |reqs[u]| && !reqs[u][i].rpmlib && OfKind(t, reqs[u][i])
    && h in pkgs && reqs[u][i].matches.Found? && h in reqs[u][i].matches.pkgs
  }

  /** Requires(pre) for installing, Requires(un) for uninstalling. */
  predicate OfKind(t: OrderType, r: Requirement) {
    if t.Install? then r.prereq else r.prereqUn
  }

  /** The flagged requirements of the graph are those of the packages, shadowed ones excepted. */
  lemma FlaggedEdges(g: Graph, reqs: map<Pkg, seq<Requirement>>, search: Search, t: OrderType, pkgs: seq<Pkg>, u: Pkg, h: Pkg)
    requires GraphOf(g, reqs, search) && Finds(search)
    ensures (exists i: nat :: PreRequires(reqs, t, pkgs, u, i, h) && !Shadowed(reqs[u], i)) ==>
              Edge(Scope(g, FlagOf(t), PoolOf(pkgs)), u, h)
    ensures Edge(Scope(g, FlagOf(t), PoolOf(pkgs)), u, h) ==> exists i: nat :: PreRequires(reqs, t, pkgs, u, i, h)
  {
    var c := Scope(g, FlagOf(t), PoolOf(pkgs));
    if i: nat :| PreRequires(reqs, t, pkgs, u, i, h) && !Shadowed(reqs[u], i) {
      var a := ListedByU(g, reqs, search, t, pkgs, u, i, h);
      assert Requires(g, u, a) && Followed(FlagOf(t), a);
    }
    if Edge(c, u, h) {
      var a :| Requires(g, u, a) && a.pkg == h && Followed(FlagOf(t), a);
      var n := |reqs[u]|;
      FlagsAreAsked(reqs[u], n, search);
      assert reqs[u][..n] == reqs[u];
      assert Asked(reqs[u], n, a);
      var i: nat :| i < n && Provided(reqs[u][i]) && OfKind(t, reqs[u][i]) && h in reqs[u][i].matches.pkgs;
      assert PreRequires(reqs, t, pkgs, u, i, h);
    }
  }

  lemma ListedByU(g: Graph, reqs: map<Pkg, seq<Requirement>>, search: Search, t: OrderType, pkgs: seq<Pkg>,
                  u: Pkg, i: nat, h: Pkg) returns (a: Alt)
    requires GraphOf(g, reqs, search) && Finds(search) && PreRequires(reqs, t, pkgs, u, i, h) && !Shadowed(reqs[u], i)
    ensures exists e :: e in Entries(g, u) && (a == e.head || a in e.adds)
    ensures a.pkg == h && Wanted(t, a)
  {
    var k :| 0 <= k < |reqs[u][i].matches.pkgs| && reqs[u][i].matches.pkgs[k] == h;
    ProvidersKept(reqs[u], i, search, k);
    var e, b :| e in g[u] && (b == e.head || b in e.adds) && b.pkg == h && Carries(b, reqs[u][i]);
    a := b;
  }

  /**
    Every provider of a Requires(pre), or (un), that is not shadowed comes before the package, whenever it
    does not itself lead back to the package over such requirements; if no loop is counted, in any case.
   */
  lemma PreProvidersFirst(g: Graph, reqs: map<Pkg, seq<Requirement>>, search: Search, t: OrderType,
                          color: map<Pkg, Color>, prereqed: set<Pkg>, pkgs: seq<Pkg>, u: Pkg, i: nat, h: Pkg)
    requires GraphOf(g, reqs, search) && Finds(search) && Distinct(pkgs) && Settled(color)
    requires PreRequires(reqs, t, pkgs, u, i, h) && h != u && !Shadowed(reqs[u], i)
    ensures var r := PackagesOrder(g, t, color, prereqed, pkgs);
            var flagged := Scope(g, FlagOf(t), PoolOf(pkgs));
            r.nerrors == 0 || !Reaches(flagged, h, u) ==> Before(r.ordered, h, u)
  {
    var a := ListedByU(g, reqs, search, t, pkgs, u, i, h);
    var e :| e in Entries(g, u) && (a == e.head || a in e.adds);
    ListedFirst(g, t, color, prereqed, pkgs, u, e, a);
  }
}
