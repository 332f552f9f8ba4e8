/** Sorting by insertion and the lists kept in a capability index, as values (capreqidx.c, pkgset-req.c). */
module IndexSpec {

  /** The list with x put in front of the elements at its end that are greater. */
  function Insert(s: seq<int>, x: int, less: (int, int) -> bool): (r: seq<int>)
    ensures |r| == |s| + 1
  {
    if s == [] || !less(x, s[|s| - 1]) then s + [x]
    else Insert(s[..|s| - 1], x, less) + [s[|s| - 1]]
  }

  function ISort(s: seq<int>, less: (int, int) -> bool): (r: seq<int>)
    ensures |r| == |s|
  {
    if s == [] then [] else Insert(ISort(s[..|s| - 1], less), s[|s| - 1], less)
  }

  /** Packages by their addresses. */
  function Below(): (int, int) -> bool {
    (a, b) => a < b
  }

  /** What adding a package does to a list of capabilities' owners, which holds each once, and to others. */
  function AddTo(s: seq<int>, p: int, cap: bool): seq<int> {
    if !cap then s + [p]
    else if p in s then s
    else ISort(s + [p], Below())
  }

  /** One removal: the scan goes on past the element that moves into the place of a removed one. */
  function Strip(s: seq<int>, p: int, same: (int, int) -> bool): seq<int> {
    if s == [] then []
    else if !same(p, s[0]) then [s[0]] + Strip(s[1..], p, same)
    else if |s| == 1 then []
    else [s[1]] + Strip(s[2..], p, same)
  }

  function StripTimes(s: seq<int>, p: int, k: nat, same: (int, int) -> bool): seq<int>
    decreases k
  {
    if k == 0 then s else StripTimes(Strip(s, p, same), p, k - 1, same)
  }

  function AddTimes(s: seq<int>, p: int, k: nat, cap: bool): seq<int>
    decreases k
  {
    if k == 0 then s else AddTimes(AddTo(s, p, cap), p, k - 1, cap)
  }

  function Without(s: seq<int>, p: int, same: (int, int) -> bool): seq<int> {
    if s == [] then []
    else if same(p, s[0]) then Without(s[1..], p, same)
    else [s[0]] + Without(s[1..], p, same)
  }

  function CountSame(s: seq<int>, p: int, same: (int, int) -> bool): nat {
    if s == [] then 0 else (if same(p, s[0]) then 1 else 0) + CountSame(s[1..], p, same)
  }

  ghost predicate StrictlySorted(s: seq<int>) {
    forall i, j :: 0 <= i < j < |s| ==> s[i] < s[j]
  }

  /** No package of the list but p itself has the name and EVR of p. */
  ghost predicate Tells(p: int, s: seq<int>, same: (int, int) -> bool) {
    forall i :: 0 <= i < |s| ==> (same(p, s[i]) <==> p == s[i])
  }

  // ----- sorting

  lemma {:induction false} InsertIsPermutation(s: seq<int>, x: int, less: (int, int) -> bool)
    ensures multiset(Insert(s, x, less)) == multiset(s) + multiset{x}
  {
    if s != [] && less(x, s[|s| - 1]) {
      InsertIsPermutation(s[..|s| - 1], x, less);
      assert s == s[..|s| - 1] + [s[|s| - 1]];
    }
  }

  lemma {:induction false} SortIsPermutation(s: seq<int>, less: (int, int) -> bool)
    ensures multiset(ISort(s, less)) == multiset(s)
  {
    if s != [] {
      SortIsPermutation(s[..|s| - 1], less);
      InsertIsPermutation(ISort(s[..|s| - 1], less), s[|s| - 1], less);
      assert s == s[..|s| - 1] + [s[|s| - 1]];
    }
  }

  ghost predicate WeakOrder(less: (int, int) -> bool) {
    && (forall a, b :: less(a, b) ==> !less(b, a))
    && (forall a, b, c :: !less(b, a) && !less(c, b) ==> !less(c, a))
  }

  ghost predicate Ordered(s: seq<int>, less: (int, int) -> bool) {
    forall i, j :: 0 <= i < j < |s| ==> !less(s[j], s[i])
  }

  lemma NotLess(a: int, b: int, c: int, less: (int, int) -> bool)
    requires WeakOrder(less) && !less(b, a) && !less(c, b)
    ensures !less(c, a)
  {
  }

  lemma {:induction false} InsertKeepsOrder(s: seq<int>, x: int, less: (int, int) -> bool)
    requires WeakOrder(less) && Ordered(s, less)
    ensures Ordered(Insert(s, x, less), less)
  {
    if s != [] && less(x, s[|s| - 1]) {
      var front, last := s[..|s| - 1], s[|s| - 1];
      InsertKeepsOrder(front, x, less);
      InsertIsPermutation(front, x, less);
      var r := Insert(front, x, less);
      forall i | 0 <= i < |r| ensures !less(last, r[i]) {
        assert r[i] in multiset(r);
        if r[i] != x {
          assert r[i] in front;
        }
      }
    } else {
      forall i | 0 <= i < |s| ensures !less(x, s[i]) {
        assert i < |s| - 1 ==> !less(s[|s| - 1], s[i]);
        NotLess(s[i], s[|s| - 1], x, less);
      }
    }
  }

  lemma {:induction false} SortOrders(s: seq<int>, less: (int, int) -> bool)
    requires WeakOrder(less)
    ensures Ordered(ISort(s, less), less)
  {
    if s != [] {
      SortOrders(s[..|s| - 1], less);
      InsertKeepsOrder(ISort(s[..|s| - 1], less), s[|s| - 1], less);
    }
  }

  lemma {:induction false} SortedUnique(s: seq<int>, t: seq<int>)
    requires StrictlySorted(s) && StrictlySorted(t) && forall x :: x in s <==> x in t
    ensures s == t
  {
    assert s != [] ==> s[0] in s && s[0] in t;
    assert t != [] ==> t[0] in t && t[0] in s;
    if s != [] {
      var m, n := |s| - 1, |t| - 1;
      assert s[m] in t && t[n] in s;
      assert s[m] == t[n];
      forall x ensures x in s[..m] <==> x in t[..n] {
        assert x in s[..m] ==> x in s && x != s[m];
        assert x in t[..n] ==> x in t && x != t[n];
      }
      SortedUnique(s[..m], t[..n]);
      assert s == s[..m] + [s[m]] && t == t[..n] + [t[n]];
    }
  }

  // ----- lists of capabilities

  lemma AddKeepsSorted(s: seq<int>, p: int)
    requires StrictlySorted(s)
    ensures StrictlySorted(AddTo(s, p, true))
    ensures forall x :: x in AddTo(s, p, true) <==> x in s || x == p
  {
    if p !in s {
      var t, r := s + [p], ISort(s + [p], Below());
      SortOrders(t, Below());
      SortIsPermutation(t, Below());
      forall x ensures multiset(t)[x] <= 1 { OnceIn(s, p, x); }
      hide ISort;
      OrderedIsStrict(r);
      forall x ensures x in r <==> x in s || x == p {
        assert x in r <==> x in multiset(r);
        assert x in t <==> x in multiset(t);
      }
    }
  }

  /** In order and without repetitions is strictly sorted. */
  lemma OrderedIsStrict(r: seq<int>)
    requires Ordered(r, Below()) && forall x :: multiset(r)[x] <= 1
    ensures StrictlySorted(r)
  {
    forall i, j | 0 <= i < j < |r| ensures r[i] < r[j] {
      assert !Below()(r[j], r[i]);
      if r[i] == r[j] {
        TwiceIn(r, i, j);
        assert false;
      }
    }
  }

  lemma TwiceIn(r: seq<int>, i: nat, j: nat)
    requires i < j < |r| && r[i] == r[j]
    ensures multiset(r)[r[i]] >= 2
  {
    assert r == r[..i] + [r[i]] + r[i + 1..j] + [r[j]] + r[j + 1..];
  }

  lemma {:induction false} OnceIn(s: seq<int>, p: int, x: int)
    requires StrictlySorted(s) && p !in s
    ensures multiset(s + [p])[x] <= 1
  {
    if s != [] {
      var front, last := s[..|s| - 1], s[|s| - 1];
      assert s == front + [last];
      assert last !in front;
      OnceIn(front, last, x);
      if x == p {
        assert x !in multiset(s);
      }
    }
  }

  function AddAll(adds: seq<int>): seq<int> {
    if adds == [] then [] else AddTo(AddAll(adds[..|adds| - 1]), adds[|adds| - 1], true)
  }

  /** Over every run of additions, duplicates included, the list is the sorted set of what was added. */
  lemma {:induction false} RunIsSortedSet(adds: seq<int>)
    ensures StrictlySorted(AddAll(adds))
    ensures forall x :: x in AddAll(adds) <==> x in adds
  {
    if adds != [] {
      var front, last := adds[..|adds| - 1], adds[|adds| - 1];
      assert adds == front + [last];
      RunIsSortedSet(front);
      AddKeepsSorted(AddAll(front), last);
    }
  }

  /** So the order of the additions does not matter. */
  lemma OrderOfAdditionsIsLost(a: seq<int>, b: seq<int>)
    requires forall x :: x in a <==> x in b
    ensures AddAll(a) == AddAll(b)
  {
    RunIsSortedSet(a);
    RunIsSortedSet(b);
    SortedUnique(AddAll(a), AddAll(b));
  }

  // ----- removing

  lemma {:induction false} StripKeepsRest(s: seq<int>, p: int, same: (int, int) -> bool)
    ensures Without(Strip(s, p, same), p, same) == Without(s, p, same)
    decreases |s|
  {
    if s != [] && !same(p, s[0]) {
      var r := Strip(s[1..], p, same);
      StripKeepsRest(s[1..], p, same);
      assert ([s[0]] + r)[1..] == r;
    } else if |s| > 1 {
      var r := Strip(s[2..], p, same);
      StripKeepsRest(s[2..], p, same);
      assert s[1..][1..] == s[2..];
      assert Without([s[1]] + r, p, same) == (if same(p, s[1]) then [] else [s[1]]) + Without(r, p, same) by {
        assert ([s[1]] + r)[1..] == r;
      }
    }
  }

  lemma {:induction false} StripProgresses(s: seq<int>, p: int, same: (int, int) -> bool)
    ensures var c := CountSame(s, p, same);
            if c > 0 then CountSame(Strip(s, p, same), p, same) < c
            else Strip(s, p, same) == s == Without(s, p, same)
    decreases |s|
  {
    if s != [] && !same(p, s[0]) {
      var r := Strip(s[1..], p, same);
      StripProgresses(s[1..], p, same);
      assert ([s[0]] + r)[1..] == r;
    } else if |s| > 1 {
      var r := Strip(s[2..], p, same);
      StripProgresses(s[2..], p, same);
      assert s[1..][1..] == s[2..];
      assert CountSame([s[1]] + r, p, same) == (if same(p, s[1]) then 1 else 0) + CountSame(r, p, same) by {
        assert ([s[1]] + r)[1..] == r;
      }
    }
  }

  lemma {:induction false} StripIsPart(s: seq<int>, p: int, same: (int, int) -> bool)
    ensures multiset(Strip(s, p, same)) <= multiset(s)
    decreases |s|
  {
    if s != [] && !same(p, s[0]) {
      StripIsPart(s[1..], p, same);
      assert s == [s[0]] + s[1..];
    } else if |s| > 1 {
      StripIsPart(s[2..], p, same);
      assert s == [s[0]] + [s[1]] + s[2..];
    }
  }

  lemma {:induction false} StripKeepsSorted(s: seq<int>, p: int, same: (int, int) -> bool)
    requires StrictlySorted(s)
    ensures StrictlySorted(Strip(s, p, same))
    decreases |s|
  {
    if s != [] && !same(p, s[0]) {
      StripKeepsSorted(s[1..], p, same);
      StripIsPart(s[1..], p, same);
      SortedFront(s[0], s[1..], Strip(s[1..], p, same));
    } else if |s| > 1 {
      StripKeepsSorted(s[2..], p, same);
      StripIsPart(s[2..], p, same);
      SortedFront(s[1], s[2..], Strip(s[2..], p, same));
    }
  }

  lemma SortedFront(x: int, s: seq<int>, r: seq<int>)
    requires multiset(r) <= multiset(s) && StrictlySorted(r) && forall i :: 0 <= i < |s| ==> x < s[i]
    ensures StrictlySorted([x] + r)
  {
    forall i | 0 <= i < |r| ensures r[i] in s {
      assert r[i] in multiset(r);
    }
  }

  /** Removing a package as often as it was listed removes all of it and nothing else. */
  lemma {:induction false} RemovalsSuffice(s: seq<int>, p: int, k: nat, same: (int, int) -> bool)
    requires CountSame(s, p, same) <= k
    ensures StripTimes(s, p, k, same) == Without(s, p, same)
    decreases k
  {
    StripProgresses(s, p, same);
    StripKeepsRest(s, p, same);
    if k > 0 {
      RemovalsSuffice(Strip(s, p, same), p, k - 1, same);
    }
  }

  /** One removal too few is not enough when the package stands alone. */
  lemma OneRemovalMayLeave(p: int, same: (int, int) -> bool)
    requires same(p, p)
    ensures Strip([p, p], p, same) == [p]
  {
  }

  lemma {:induction false} WithoutIsFilter(s: seq<int>, p: int, same: (int, int) -> bool)
    requires Tells(p, s, same)
    ensures forall x :: x in Without(s, p, same) <==> x in s && x != p
    ensures StrictlySorted(s) ==> StrictlySorted(Without(s, p, same))
  {
    if s != [] {
      WithoutIsFilter(s[1..], p, same);
      assert s == [s[0]] + s[1..];
      if StrictlySorted(s) && !same(p, s[0]) {
        var r := Without(s[1..], p, same);
        forall i | 0 <= i < |r| ensures s[0] < r[i] {
          assert r[i] in r;
        }
      }
    }
  }

  /** In a list without repetitions one removal is enough. */
  lemma {:induction false} CountInSorted(s: seq<int>, p: int, same: (int, int) -> bool)
    requires StrictlySorted(s) && Tells(p, s, same)
    ensures CountSame(s, p, same) == if p in s then 1 else 0
  {
    if s != [] {
      assert s == [s[0]] + s[1..];
      CountInSorted(s[1..], p, same);
      if p == s[0] { assert p !in s[1..]; }
    }
  }

  // ----- one name over the packages that list it

  /** A package and how many times it lists the name. */
  datatype Listing = Listing(pkg: int, times: nat)

  /** The list of the name once those packages are indexed, in that order. */
  function Built(ls: seq<Listing>, cap: bool): seq<int> {
    if ls == [] then []
    else
      var last := ls[|ls| - 1];
      AddTimes(Built(ls[..|ls| - 1], cap), last.pkg, last.times, cap)
  }

  /** Of the packages listed, only the i-th is p or has its name and EVR. */
  ghost predicate OnlyAt(ls: seq<Listing>, i: nat, p: int, same: (int, int) -> bool) {
    forall k :: 0 <= k < |ls| ==> (same(p, ls[k].pkg) <==> k == i) && (ls[k].pkg == p <==> k == i)
  }

  function Drop(ls: seq<Listing>, i: nat): seq<Listing>
    requires i < |ls|
  {
    ls[..i] + ls[i + 1..]
  }

  lemma {:induction false} AddTimesCap(s: seq<int>, p: int, k: nat)
    requires StrictlySorted(s)
    ensures StrictlySorted(AddTimes(s, p, k, true))
    ensures forall x :: x in AddTimes(s, p, k, true) <==> x in s || (x == p && k > 0)
    decreases k
  {
    if k > 0 {
      AddKeepsSorted(s, p);
      AddTimesCap(AddTo(s, p, true), p, k - 1);
    }
  }

  /** The list of a capability: each package that lists it, once, by address. */
  lemma {:induction false} BuiltCap(ls: seq<Listing>)
    ensures StrictlySorted(Built(ls, true))
    ensures forall x :: x in Built(ls, true) <==> exists i :: 0 <= i < |ls| && ls[i].pkg == x && ls[i].times > 0
  {
    if ls != [] {
      var front, last := ls[..|ls| - 1], ls[|ls| - 1];
      BuiltCap(front);
      AddTimesCap(Built(front, true), last.pkg, last.times);
      forall x ensures x in Built(ls, true) <==> exists i :: 0 <= i < |ls| && ls[i].pkg == x && ls[i].times > 0 {
        if x in Built(front, true) {
          var i :| 0 <= i < |front| && front[i].pkg == x && front[i].times > 0;
          assert ls[i] == front[i];
        } else if exists i :: 0 <= i < |ls| && ls[i].pkg == x && ls[i].times > 0 {
          var i :| 0 <= i < |ls| && ls[i].pkg == x && ls[i].times > 0;
          assert i < |front| ==> front[i] == ls[i];
        }
      }
    }
  }

  function Repeat(p: int, k: nat): seq<int> {
    seq(k, i => p)
  }

  lemma {:induction false} AddTimesReq(s: seq<int>, p: int, k: nat)
    ensures AddTimes(s, p, k, false) == s + Repeat(p, k)
    decreases k
  {
    if k > 0 {
      AddTimesReq(s + [p], p, k - 1);
      assert Repeat(p, k) == [p] + Repeat(p, k - 1);
    }
  }

  lemma {:induction false} WithoutOver(s: seq<int>, t: seq<int>, p: int, same: (int, int) -> bool)
    ensures Without(s + t, p, same) == Without(s, p, same) + Without(t, p, same)
    ensures CountSame(s + t, p, same) == CountSame(s, p, same) + CountSame(t, p, same)
  {
    if s == [] {
      assert s + t == t;
    } else {
      assert (s + t)[1..] == s[1..] + t;
      WithoutOver(s[1..], t, p, same);
    }
  }

  lemma {:induction false} WithoutRepeat(q: int, k: nat, p: int, same: (int, int) -> bool)
    requires same(p, q) <==> p == q
    ensures Without(Repeat(q, k), p, same) == if p == q then [] else Repeat(q, k)
    ensures CountSame(Repeat(q, k), p, same) == if p == q then k else 0
  {
    if k > 0 {
      assert Repeat(q, k)[1..] == Repeat(q, k - 1);
      WithoutRepeat(q, k - 1, p, same);
      assert Repeat(q, k) == [q] + Repeat(q, k - 1);
    }
  }

  /** For requirements: all that is of p goes, and the list is as if p had never been indexed. */
  lemma {:induction false} BuiltReqWithout(ls: seq<Listing>, i: nat, same: (int, int) -> bool)
    requires i < |ls| && OnlyAt(ls, i, ls[i].pkg, same)
    ensures Without(Built(ls, false), ls[i].pkg, same) == Built(Drop(ls, i), false)
    ensures CountSame(Built(ls, false), ls[i].pkg, same) == ls[i].times
  {
    var front, last := ls[..|ls| - 1], ls[|ls| - 1];
    var p := ls[i].pkg;
    AddTimesReq(Built(front, false), last.pkg, last.times);
    WithoutOver(Built(front, false), Repeat(last.pkg, last.times), p, same);
    WithoutRepeat(last.pkg, last.times, p, same);
    if i < |front| {
      BuiltReqWithout(front, i, same);
      assert front[i] == ls[i];
      var d := Drop(ls, i);
      assert d[..|d| - 1] == Drop(front, i) && d[|d| - 1] == last;
      AddTimesReq(Built(Drop(front, i), false), last.pkg, last.times);
    } else {
      assert Drop(ls, i) == front;
      forall k | 0 <= k < |front| ensures front[k].pkg != p && !same(p, front[k].pkg) {
        assert front[k] == ls[k];
      }
      BuiltReqOthers(front, p, same);
    }
  }

  lemma {:induction false} BuiltReqOthers(ls: seq<Listing>, p: int, same: (int, int) -> bool)
    requires forall k :: 0 <= k < |ls| ==> ls[k].pkg != p && !same(p, ls[k].pkg)
    ensures Without(Built(ls, false), p, same) == Built(ls, false)
    ensures CountSame(Built(ls, false), p, same) == 0
  {
    if ls != [] {
      var front, last := ls[..|ls| - 1], ls[|ls| - 1];
      BuiltReqOthers(front, p, same);
      AddTimesReq(Built(front, false), last.pkg, last.times);
      WithoutOver(Built(front, false), Repeat(last.pkg, last.times), p, same);
      WithoutRepeat(last.pkg, last.times, p, same);
    }
  }

  lemma DropMembers(ls: seq<Listing>, i: nat, x: int)
    requires i < |ls| && forall k :: 0 <= k < |ls| ==> (ls[k].pkg == ls[i].pkg <==> k == i)
    ensures (exists k :: 0 <= k < |Drop(ls, i)| && Drop(ls, i)[k].pkg == x && Drop(ls, i)[k].times > 0)
            <==> x != ls[i].pkg && exists k :: 0 <= k < |ls| && ls[k].pkg == x && ls[k].times > 0
  {
    var d := Drop(ls, i);
    if k :| 0 <= k < |ls| && k != i && ls[k].pkg == x && ls[k].times > 0 {
      assert d[if k < i then k else k - 1] == ls[k];
    }
    if k :| 0 <= k < |d| && d[k].pkg == x && d[k].times > 0 {
      assert d[k] == ls[if k < i then k else k + 1];
    }
  }

  lemma BuiltCapWithout(ls: seq<Listing>, i: nat, same: (int, int) -> bool)
    requires i < |ls| && OnlyAt(ls, i, ls[i].pkg, same)
    ensures Without(Built(ls, true), ls[i].pkg, same) == Built(Drop(ls, i), true)
    ensures CountSame(Built(ls, true), ls[i].pkg, same) <= ls[i].times
  {
    hide Built, Without, CountSame, Drop;
    var p := ls[i].pkg;
    var s, d := Built(ls, true), Built(Drop(ls, i), true);
    BuiltCap(ls);
    BuiltCap(Drop(ls, i));
    assert Tells(p, s, same) by {
      forall j | 0 <= j < |s| ensures same(p, s[j]) <==> p == s[j] {
        assert s[j] in s;
      }
    }
    WithoutIsFilter(s, p, same);
    CountInSorted(s, p, same);
    forall x ensures x in Without(s, p, same) <==> x in d {
      DropMembers(ls, i, x);
    }
    SortedUnique(Without(s, p, same), d);
  }

  /**
   * Removing a package, one removal for each time it lists the name, leaves exactly the list there would
   * be without it, whether the name repeats or not.
   */
  lemma RemovalIsExact(ls: seq<Listing>, i: nat, cap: bool, same: (int, int) -> bool)
    requires i < |ls| && OnlyAt(ls, i, ls[i].pkg, same)
    ensures StripTimes(Built(ls, cap), ls[i].pkg, ls[i].times, same) == Built(Drop(ls, i), cap)
  {
    if cap { BuiltCapWithout(ls, i, same); } else { BuiltReqWithout(ls, i, same); }
    RemovalsSuffice(Built(ls, cap), ls[i].pkg, ls[i].times, same);
  }
}
