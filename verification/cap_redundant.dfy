/** Dropping requirements that others imply (capreq.c). */
module CapRedundant {
  import opened CapMatch
  import opened SearchSpec

  /** cmp_uniq gives 0: a requirement without a version next to one of the same name. */
  predicate Covered(kept: Cap, r: Cap) {
    kept.name == r.name && !r.Versioned()
  }

  /** What remains when every element that the last one kept covers is dropped. */
  function Uniq(last: Cap, rs: seq<Cap>): seq<Cap>
    decreases |rs|
  {
    if rs == [] then []
    else if Covered(last, rs[0]) then Uniq(last, rs[1..])
    else [rs[0]] + Uniq(rs[0], rs[1..])
  }

  function Reduced(rs: seq<Cap>): seq<Cap> {
    if rs == [] then [] else [rs[0]] + Uniq(rs[0], rs[1..])
  }

  /** capreq_arr_remove_redundant, on the array as its sorting leaves it: the elements move up in place. */
  method RemoveRedundant(arr: array<Cap>) returns (n: nat)
    modifies arr
    ensures n <= arr.Length && arr[..n] == Reduced(old(arr[..]))
  {
    hide Uniq, Covered;
    ghost var rs := arr[..];
    if arr.Length == 0 { return 0; }
    assert arr[..1] == [rs[0]];
    n := 1;
    var i := 1;
    while i < arr.Length
      invariant 1 <= n <= i <= arr.Length
      invariant arr[i..] == rs[i..]
      invariant arr[..n] + Uniq(arr[n - 1], rs[i..]) == Reduced(rs)
    {
      UniqStep(arr[n - 1], rs, i);
      assert arr[i] == rs[i];
      if !Covered(arr[n - 1], arr[i]) {
        ghost var before := arr[..n];
        arr[n] := arr[i];
        n := n + 1;
        assert arr[..n] == before + [rs[i]];
      }
      i := i + 1;
    }
    UniqEnds(arr[n - 1], rs);
  }

  lemma UniqStep(last: Cap, rs: seq<Cap>, i: nat)
    requires i < |rs|
    ensures Uniq(last, rs[i..]) ==
            if Covered(last, rs[i]) then Uniq(last, rs[i + 1..]) else [rs[i]] + Uniq(rs[i], rs[i + 1..])
  {
    assert rs[i..][0] == rs[i] && rs[i..][1..] == rs[i + 1..];
  }

  lemma UniqEnds(last: Cap, rs: seq<Cap>)
    ensures Uniq(last, rs[|rs|..]) == []
  {
  }

  /** The packages meet the requirement. */
  ghost predicate Met(conf: Config, ps: set<Package>, r: Cap, strict: bool) {
    exists p :: p in ps && Satisfies(conf, p, r, strict)
  }

  /** What meets a requirement meets one of the same name without a version. */
  lemma CoveredIsMet(conf: Config, ps: set<Package>, kept: Cap, r: Cap, strict: bool)
    requires Covered(kept, r) && Met(conf, ps, kept, strict)
    ensures Met(conf, ps, r, strict)
  {
    var p :| p in ps && Satisfies(conf, p, kept, strict);
    var flags := if strict then STRICT else LENIENT;
    if !r.IsFile() && CapsMatch(conf, p.caps, kept, flags) {
      var c :| c in p.caps && XMatch(conf, c, kept, flags);
      assert XMatch(conf, c, r, flags);
    }
    assert Satisfies(conf, p, r, strict);
  }

  lemma {:induction false} UniqDropsCovered(last: Cap, rs: seq<Cap>)
    ensures forall r :: r in Uniq(last, rs) ==> r in rs
    ensures forall r :: r in rs ==>
              r in Uniq(last, rs) || (!r.Versioned() && exists k :: k in [last] + Uniq(last, rs) && k.name == r.name)
    decreases |rs|
  {
    if rs != [] {
      var first, kept := rs[0], if Covered(last, rs[0]) then last else rs[0];
      UniqDropsCovered(kept, rs[1..]);
      assert rs == [first] + rs[1..];
      var u := [last] + Uniq(last, rs);
      assert last in u && kept in u;
      forall r | r in rs && r !in Uniq(last, rs) ensures !r.Versioned() && exists k :: k in u && k.name == r.name {
        if r != first {
          var k :| k in [kept] + Uniq(kept, rs[1..]) && k.name == r.name;
          assert k in u;
        }
      }
    }
  }

  /** Only requirements without a version go, and of each name one stays. */
  lemma OnlyCoveredGo(rs: seq<Cap>)
    ensures forall r :: r in Reduced(rs) ==> r in rs
    ensures forall r :: r in rs && r !in Reduced(rs) ==>
              !r.Versioned() && exists k :: k in Reduced(rs) && k.name == r.name
  {
    if rs != [] {
      UniqDropsCovered(rs[0], rs[1..]);
      assert rs == [rs[0]] + rs[1..];
    }
  }

  /** Whatever packages there are, they meet all requirements before exactly when they meet all after. */
  lemma MeaningIsKept(conf: Config, ps: set<Package>, rs: seq<Cap>, strict: bool)
    ensures (forall r :: r in rs ==> Met(conf, ps, r, strict)) <==> (forall r :: r in Reduced(rs) ==> Met(conf, ps, r, strict))
  {
    OnlyCoveredGo(rs);
    if forall r :: r in Reduced(rs) ==> Met(conf, ps, r, strict) {
      forall r | r in rs ensures Met(conf, ps, r, strict) {
        if r !in Reduced(rs) {
          var k :| k in Reduced(rs) && k.name == r.name;
          CoveredIsMet(conf, ps, k, r, strict);
        }
      }
    }
  }

  /** Sorted by name, those with a version first. */
  ghost predicate VersionedFirst(rs: seq<Cap>) {
    && Grouped(rs)
    && forall i, j :: 0 <= i < j < |rs| && rs[i].name == rs[j].name && rs[j].Versioned() ==> rs[i].Versioned()
  }

  lemma {:induction false} UniqNames(last: Cap, rs: seq<Cap>)
    requires VersionedFirst([last] + rs)
    ensures forall i :: 0 <= i < |Uniq(last, rs)| && Uniq(last, rs)[i].name == last.name ==> Uniq(last, rs)[i].Versioned()
    ensures forall i, j :: 0 <= i < j < |Uniq(last, rs)| && Uniq(last, rs)[i].name == Uniq(last, rs)[j].name ==>
              Uniq(last, rs)[j].Versioned()
    decreases |rs|
  {
    if rs != [] {
      var s := [last] + rs;
      assert s[1] == rs[0];
      var kept := if Covered(last, rs[0]) then last else rs[0];
      var t := [kept] + rs[1..];
      assert VersionedFirst(t) by {
        assert forall i :: 1 <= i < |t| ==> t[i] == s[i + 1];
        assert t[0] == s[0] || t[0] == s[1];
      }
      UniqNames(kept, rs[1..]);
      if !Covered(last, rs[0]) {
        UniqDropsCovered(kept, rs[1..]);
        var u := Uniq(last, rs);
        assert u == [rs[0]] + Uniq(rs[0], rs[1..]);
        forall i | 0 <= i < |u| && u[i].name == last.name ensures u[i].Versioned() {
          if i > 0 {
            assert u[i] in Uniq(rs[0], rs[1..]);
            var k :| 0 <= k < |rs| - 1 && rs[1..][k] == u[i];
            assert s[k + 2] == u[i] && s[0].name == s[k + 2].name;
            assert s[1].name == last.name;
          }
        }
      }
    }
  }

  /** Nothing redundant is left: a requirement without a version stays only where it is the first of its name. */
  lemma NothingRedundantStays(rs: seq<Cap>)
    requires VersionedFirst(rs)
    ensures forall i, j :: 0 <= i < j < |Reduced(rs)| && Reduced(rs)[i].name == Reduced(rs)[j].name ==> Reduced(rs)[j].Versioned()
  {
    if rs != [] {
      assert rs == [rs[0]] + rs[1..];
      UniqNames(rs[0], rs[1..]);
    }
  }

  // ----- the sorting

  /** What capreq_cmp_evr looks at first: whatever has a version is greater than what has none. */
  ghost predicate VersionIsGreater(cmp: (Cap, Cap) -> int) {
    forall a: Cap, b: Cap :: a.Versioned() && !b.Versioned() ==> cmp(a, b) > 0 && cmp(b, a) < 0
  }

  /** In the order of capreq_cmp_name_evr_rev: by name, and of one name the greatest first. */
  ghost predicate InOrder(cmp: (Cap, Cap) -> int, rs: seq<Cap>) {
    forall i, j :: 0 <= i < j < |rs| ==>
      StrLess(rs[i].name, rs[j].name) || (rs[i].name == rs[j].name && cmp(rs[i], rs[j]) >= 0)
  }

  lemma InOrderIsVersionedFirst(cmp: (Cap, Cap) -> int, rs: seq<Cap>)
    requires InOrder(cmp, rs) && VersionIsGreater(cmp)
    ensures VersionedFirst(rs)
  {
    hide StrLess;
    forall i, j, k | 0 <= i < j < k < |rs| && rs[i].name == rs[k].name ensures rs[j].name == rs[i].name {
      StrLessTotal(rs[i].name, rs[j].name);
    }
    forall i, j | 0 <= i < j < |rs| && rs[i].name == rs[j].name && rs[j].Versioned() ensures rs[i].Versioned() {
      StrLessTotal(rs[i].name, rs[j].name);
    }
  }

  /** Sorted by whatever algorithm and reduced, requirements mean what they meant, and none is redundant. */
  lemma SortedAndReduced(conf: Config, ps: set<Package>, rs: seq<Cap>, sorted: seq<Cap>, cmp: (Cap, Cap) -> int, strict: bool)
    requires multiset(sorted) == multiset(rs) && InOrder(cmp, sorted) && VersionIsGreater(cmp)
    ensures var r := Reduced(sorted);
            && ((forall c :: c in rs ==> Met(conf, ps, c, strict)) <==> (forall c :: c in r ==> Met(conf, ps, c, strict)))
            && (forall c :: c in r ==> c in rs) && (forall c :: c in rs && c.Versioned() ==> c in r)
            && (forall i, j :: 0 <= i < j < |r| && r[i].name == r[j].name ==> r[j].Versioned())
  {
    hide Met, Reduced;
    forall c ensures c in rs <==> c in sorted {
      assert c in rs <==> c in multiset(rs);
      assert c in sorted <==> c in multiset(sorted);
    }
    MeaningIsKept(conf, ps, sorted, strict);
    OnlyCoveredGo(sorted);
    InOrderIsVersionedFirst(cmp, sorted);
    NothingRedundantStays(sorted);
  }
}
