/** What a capability index holds, name by name, over runs of adding and removing packages (capreqidx.c, pkgset.c). */
module IndexBooks {
  import opened IndexSpec

  /** What an entry holds, and the additions to it that were not taken back. */
  datatype Account = Account(list: seq<int>, owed: multiset<int>)

  type Books = map<string, Account>

  /** Whether a list holds no package twice, which names are not indexed, which packages compare equal. */
  datatype Rules = Rules(cap: bool, skip: string -> bool, same: (int, int) -> bool)

  const EMPTY := Account([], multiset{})

  function Look(b: Books, n: string): Account {
    if n in b then b[n] else EMPTY
  }

  function Added(a: Account, p: int, cap: bool): Account {
    Account(AddTo(a.list, p, cap), a.owed + multiset{p})
  }

  function Removed(a: Account, p: int, same: (int, int) -> bool): Account {
    Account(Strip(a.list, p, same), a.owed - multiset{p})
  }

  function AddName(b: Books, n: string, p: int, r: Rules): Books {
    if r.skip(n) then b else b[n := Added(Look(b, n), p, r.cap)]
  }

  function RemoveName(b: Books, n: string, p: int, r: Rules): Books {
    if n in b then b[n := Removed(b[n], p, r.same)] else b
  }

  function AddNames(b: Books, names: seq<string>, p: int, r: Rules): Books
    decreases |names|
  {
    if names == [] then b else AddNames(AddName(b, names[0], p, r), names[1..], p, r)
  }

  function RemoveNames(b: Books, names: seq<string>, p: int, r: Rules): Books
    decreases |names|
  {
    if names == [] then b else RemoveNames(RemoveName(b, names[0], p, r), names[1..], p, r)
  }

  /** The index after packages were indexed one by one. */
  function Build(ps: seq<int>, names: int -> seq<string>, r: Rules): Books {
    if ps == [] then map[]
    else AddNames(Build(ps[..|ps| - 1], names, r), names(ps[|ps| - 1]), ps[|ps| - 1], r)
  }

  /** How often the name is among the names. */
  function Times(names: seq<string>, n: string): nat {
    if names == [] then 0 else (if names[0] == n then 1 else 0) + Times(names[1..], n)
  }

  function Copies(p: int, k: nat): multiset<int> {
    multiset{}[p := k]
  }

  function Listings(ps: seq<int>, names: int -> seq<string>, n: string): seq<Listing> {
    seq(|ps|, i requires 0 <= i < |ps| => Listing(ps[i], Times(names(ps[i]), n)))
  }

  /** A name's account may give back p: it was added, and no other package there compares equal to it. */
  ghost predicate MayRemove(a: Account, p: int, k: nat, same: (int, int) -> bool) {
    a.owed[p] >= k && forall q :: q in a.owed ==> (same(p, q) <==> p == q)
  }

  // ----- one package

  function AddedTimes(a: Account, p: int, k: nat, cap: bool): Account
    decreases k
  {
    if k == 0 then a else AddedTimes(Added(a, p, cap), p, k - 1, cap)
  }

  function RemovedTimes(a: Account, p: int, k: nat, same: (int, int) -> bool): Account
    decreases k
  {
    if k == 0 then a else RemovedTimes(Removed(a, p, same), p, k - 1, same)
  }

  lemma {:induction false} AddedTimesIs(a: Account, p: int, k: nat, cap: bool)
    ensures AddedTimes(a, p, k, cap) == Account(AddTimes(a.list, p, k, cap), a.owed + Copies(p, k))
    decreases k
  {
    if k > 0 {
      AddedTimesIs(Added(a, p, cap), p, k - 1, cap);
      assert multiset{p} + Copies(p, k - 1) == Copies(p, k);
    }
  }

  lemma {:induction false} RemovedTimesIs(a: Account, p: int, k: nat, same: (int, int) -> bool)
    ensures RemovedTimes(a, p, k, same) == Account(StripTimes(a.list, p, k, same), a.owed - Copies(p, k))
    decreases k
  {
    if k > 0 {
      RemovedTimesIs(Removed(a, p, same), p, k - 1, same);
      assert a.owed - multiset{p} - Copies(p, k - 1) == a.owed - Copies(p, k);
    }
  }

  lemma {:induction false} LookAdded(b: Books, names: seq<string>, p: int, r: Rules, n: string)
    ensures Look(AddNames(b, names, p, r), n) ==
            if r.skip(n) then Look(b, n) else AddedTimes(Look(b, n), p, Times(names, n), r.cap)
    decreases |names|
  {
    hide Added;
    if names != [] {
      LookAdded(AddName(b, names[0], p, r), names[1..], p, r, n);
    }
  }

  lemma {:induction false} LookRemoved(b: Books, names: seq<string>, p: int, r: Rules, n: string)
    ensures Look(RemoveNames(b, names, p, r), n) ==
            if n in b then RemovedTimes(b[n], p, Times(names, n), r.same) else EMPTY
    decreases |names|
  {
    hide Removed;
    if names != [] {
      LookRemoved(RemoveName(b, names[0], p, r), names[1..], p, r, n);
    }
  }

  // ----- all packages

  function OwedFor(ls: seq<Listing>): multiset<int> {
    if ls == [] then multiset{}
    else OwedFor(ls[..|ls| - 1]) + Copies(ls[|ls| - 1].pkg, ls[|ls| - 1].times)
  }

  /** Name by name, the index is made of what each package lists. */
  lemma {:induction false} LookBuilt(ps: seq<int>, names: int -> seq<string>, r: Rules, n: string)
    ensures Look(Build(ps, names, r), n) ==
            if r.skip(n) then EMPTY
            else Account(Built(Listings(ps, names, n), r.cap), OwedFor(Listings(ps, names, n)))
  {
    if ps != [] {
      var front, last := ps[..|ps| - 1], ps[|ps| - 1];
      LookBuilt(front, names, r, n);
      LookAdded(Build(front, names, r), names(last), last, r, n);
      AddedTimesIs(Look(Build(front, names, r), n), last, Times(names(last), n), r.cap);
      var ls := Listings(ps, names, n);
      assert ls[..|ls| - 1] == Listings(front, names, n);
    }
  }

  lemma {:induction false} OwedDrop(ls: seq<Listing>, i: nat)
    requires i < |ls|
    ensures OwedFor(ls) == OwedFor(Drop(ls, i)) + Copies(ls[i].pkg, ls[i].times)
  {
    var front := ls[..|ls| - 1];
    if i < |front| {
      OwedDrop(front, i);
      var d, last := Drop(ls, i), ls[|ls| - 1];
      assert d[..|d| - 1] == Drop(front, i) && d[|d| - 1] == last && front[i] == ls[i];
      assert OwedFor(d) == OwedFor(Drop(front, i)) + Copies(last.pkg, last.times);
      hide *;
    } else {
      assert Drop(ls, i) == front;
    }
  }

  lemma {:induction false} OwedAmong(ls: seq<Listing>, q: int)
    requires q in OwedFor(ls)
    ensures exists k :: 0 <= k < |ls| && ls[k].pkg == q
  {
    var front, last := ls[..|ls| - 1], ls[|ls| - 1];
    if q == last.pkg {
      assert ls[|ls| - 1].pkg == q;
    } else {
      assert q in OwedFor(front);
      OwedAmong(front, q);
      var k :| 0 <= k < |front| && front[k].pkg == q;
      assert ls[k].pkg == q;
    }
  }

  /** Of the packages, only the i-th has its name and EVR. */
  ghost predicate Alone(ps: seq<int>, i: nat, same: (int, int) -> bool)
    requires i < |ps|
  {
    forall k :: 0 <= k < |ps| ==> (same(ps[i], ps[k]) <==> k == i) && (ps[k] == ps[i] <==> k == i)
  }

  function Omit(ps: seq<int>, i: nat): seq<int>
    requires i < |ps|
  {
    ps[..i] + ps[i + 1..]
  }

  /** No removal finds an entry that has nothing to give back. */
  lemma BuiltMayRemove(ps: seq<int>, i: nat, names: int -> seq<string>, r: Rules, n: string)
    requires i < |ps| && Alone(ps, i, r.same) && !r.skip(n)
    ensures MayRemove(Look(Build(ps, names, r), n), ps[i], Times(names(ps[i]), n), r.same)
  {
    var ls := Listings(ps, names, n);
    LookBuilt(ps, names, r, n);
    OwedDrop(ls, i);
    forall q | q in OwedFor(ls) ensures r.same(ps[i], q) <==> ps[i] == q {
      OwedAmong(ls, q);
    }
  }

  /**
   * Removing a package leaves the index as if it had never been there: its own entries are gone however
   * often a name repeats among its names, and nobody else's are touched.
   */
  lemma RemovalUndoes(ps: seq<int>, i: nat, names: int -> seq<string>, r: Rules, n: string)
    requires i < |ps| && Alone(ps, i, r.same)
    ensures Look(RemoveNames(Build(ps, names, r), names(ps[i]), ps[i], r), n) == Look(Build(Omit(ps, i), names, r), n)
  {
    hide Built, Build, Drop, Omit, RemovedTimes, Copies;
    var ls, p, k := Listings(ps, names, n), ps[i], Times(names(ps[i]), n);
    var b := Build(ps, names, r);
    LookBuilt(ps, names, r, n);
    LookBuilt(Omit(ps, i), names, r, n);
    LookRemoved(b, names(p), p, r, n);
    RemovedTimesIs(Look(b, n), p, k, r.same);
    NothingToStrip(p, k, r.same);
    if !r.skip(n) {
      ListingsOmit(ps, i, names, n);
      RemovalIsExact(ls, i, r.cap, r.same);
      OwedDrop(ls, i);
    }
  }

  lemma ListingsOmit(ps: seq<int>, i: nat, names: int -> seq<string>, n: string)
    requires i < |ps|
    ensures Listings(Omit(ps, i), names, n) == Drop(Listings(ps, names, n), i)
  {
  }

  lemma {:induction false} NothingToStrip(p: int, k: nat, same: (int, int) -> bool)
    ensures StripTimes([], p, k, same) == []
    decreases k
  {
    if k > 0 { NothingToStrip(p, k - 1, same); }
  }

  // ----- indexes that hold the same

  lemma SameAfterAdding(b: Books, c: Books, names: seq<string>, p: int, r: Rules, n: string)
    requires Look(b, n) == Look(c, n)
    ensures Look(AddNames(b, names, p, r), n) == Look(AddNames(c, names, p, r), n)
  {
    LookAdded(b, names, p, r, n);
    LookAdded(c, names, p, r, n);
  }

  lemma SameAfterRemoving(b: Books, c: Books, names: seq<string>, p: int, r: Rules, n: string)
    requires Look(b, n) == Look(c, n)
    ensures Look(RemoveNames(b, names, p, r), n) == Look(RemoveNames(c, names, p, r), n)
  {
    LookRemoved(b, names, p, r, n);
    LookRemoved(c, names, p, r, n);
    RemovedTimesIs(EMPTY, p, Times(names, n), r.same);
    NothingToStrip(p, Times(names, n), r.same);
  }
}
