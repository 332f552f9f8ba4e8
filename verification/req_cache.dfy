/** The cache of answers that requirements are looked up in first (pkgset-dep.c). */
module ReqCache {
  import opened Wrappers
  import opened CapMatch
  import opened IndexSpec
  import opened SearchSpec

  /** A package set that does not change: its packages, what the index has under each name, what the system provides. */
  datatype Fixed = Fixed(w: World, suspects: string -> seq<int>, pm: Cap -> bool)

  datatype Query = Query(pkg: int, req: Cap)

  /** The search without a cache. */
  function Direct(f: Fixed, q: Query): Answer {
    Search(f.w, f.suspects(q.req.name), f.pm(q.req), Some(q.pkg), q.req, true)
  }

  /** The package matches its own requirement. */
  predicate SelfMatch(f: Fixed, q: Query) {
    q.pkg in Filter(f.suspects(q.req.name), Suits(f.w, q.req, true))
  }

  /** The first package that asked for the requirement. */
  function First(qs: seq<Query>, req: Cap): Option<int> {
    if qs == [] then None
    else if qs[0].req == req then Some(qs[0].pkg) else First(qs[1..], req)
  }

  class Cache {
    const f: Fixed
    var kept: map<Cap, Answer>
    ghost var asked: seq<Query>

    ghost predicate Valid()
      reads this
    {
      forall r :: if r in kept then First(asked, r).Some? && kept[r] == Direct(f, Query(First(asked, r).value, r))
                  else First(asked, r).None?
    }

    constructor (f: Fixed)
      ensures Valid() && this.f == f && asked == []
    {
      this.f, kept, asked := f, map[], [];
    }

    /** The answer process_reqs works with: for the requirement's text only, whoever asked first. */
    method Required(q: Query) returns (a: Answer)
      requires Valid()
      modifies this
      ensures Valid() && asked == old(asked) + [q] && First(asked, q.req).Some?
      ensures a == Direct(f, Query(First(asked, q.req).value, q.req))
      ensures a == Direct(f, q) <==> (SelfMatch(f, q) <==> SelfMatch(f, Query(First(asked, q.req).value, q.req)))
    {
      hide Direct, SelfMatch;
      FirstOver(asked, q);
      asked := asked + [q];
      if q.req !in kept {
        kept := kept[q.req := Direct(f, q)];
      }
      a := kept[q.req];
      KeptAnswer(f, q, First(asked, q.req).value);
    }
  }

  /** A requirer matches itself when the index has it under the name and, for a versioned requirement, it fits. */
  lemma SelfMatchExactly(f: Fixed, q: Query)
    ensures q.req.ver.None? ==> (SelfMatch(f, q) <==> q.pkg in f.suspects(q.req.name))
    ensures !f.w.conf.promoteEpoch && q.req.Versioned() && q.req.ver.Some? ==>
              (SelfMatch(f, q) <==> q.pkg in f.suspects(q.req.name) && Fits(f.w, q.pkg, q.req))
  {
    FilterMembers(f.suspects(q.req.name), Suits(f.w, q.req, true));
    if !f.w.conf.promoteEpoch && q.req.Versioned() && q.req.ver.Some? { MatchFits(f.w, q.pkg, q.req); }
  }

  lemma {:induction false} FirstOver(qs: seq<Query>, q: Query)
    ensures forall r :: First(qs + [q], r) == if First(qs, r).Some? then First(qs, r) else if q.req == r then Some(q.pkg) else None
  {
    if qs == [] {
      assert qs + [q] == [q];
    } else {
      assert (qs + [q])[1..] == qs[1..] + [q];
      FirstOver(qs[1..], q);
    }
  }

  /** The kept answer is the requirer's own exactly when both or neither match themselves. */
  lemma KeptAnswer(f: Fixed, q: Query, first: int)
    ensures Direct(f, Query(first, q.req)) == Direct(f, q) <==> (SelfMatch(f, q) <==> SelfMatch(f, Query(first, q.req)))
  {
    var suspects, suits := f.suspects(q.req.name), Suits(f.w, q.req, true);
    KeptAnswerIsRight(f.w, suspects, f.pm(q.req), q.pkg, first, q.req, true);
    FilterMembers(suspects, suits);
  }

  lemma {:induction false} FirstAmong(qs: seq<Query>, r: Cap)
    requires First(qs, r).Some?
    ensures Query(First(qs, r).value, r) in qs
  {
    if qs[0].req != r {
      FirstAmong(qs[1..], r);
    } else {
      assert qs[0] == Query(First(qs, r).value, r);
    }
  }

  lemma {:induction false} FirstExists(qs: seq<Query>, q: Query)
    requires q in qs
    ensures First(qs, q.req).Some?
  {
    if qs[0].req != q.req {
      assert qs == [qs[0]] + qs[1..];
      FirstExists(qs[1..], q);
    }
  }

  /** When no requirer in the run matches itself, the cache is not seen: every answer is the requirer's own. */
  lemma NoSelfMatchNoTrace(f: Fixed, qs: seq<Query>, q: Query)
    requires q in qs && forall x :: x in qs ==> !SelfMatch(f, x)
    ensures First(qs, q.req).Some? && Direct(f, Query(First(qs, q.req).value, q.req)) == Direct(f, q)
  {
    FirstExists(qs, q);
    FirstAmong(qs, q.req);
    KeptAnswer(f, q, First(qs, q.req).value);
  }

  /** Package 1 provides x and requires it; package 2 requires it as well. Whoever asks first spoils it for the other. */
  lemma SelfMatchSpoils(conf: Config, id: int -> Id)
    ensures var x := NameCap("x");
            var f := Fixed(World(conf, id, map[1 := [x]]), (n: string) => if n == "x" then [1] else [], (c: Cap) => false);
            var one, two := Query(1, x), Query(2, x);
            && Direct(f, one) == Found([]) && Direct(f, two) == Found([1])
            && First([one, two], x) == Some(1) && First([two, one], x) == Some(2)
  {
    var x := NameCap("x");
    var f := Fixed(World(conf, id, map[1 := [x]]), (n: string) => if n == "x" then [1] else [], (c: Cap) => false);
    var suits := Suits(f.w, x, true);
    assert f.suspects(x.name) == [1];
    assert [1][..0] == [] && Filter([1][..0], suits) == [] && suits(1);
    assert Filter([1], suits) == [1];
    assert ISort([1][..0], Before(f.w)) == [] && ISort([1], Before(f.w)) == [1];
  }
}
