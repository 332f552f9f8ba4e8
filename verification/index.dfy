/** The capability index: lists of packages that grow, are searched, sorted and shrunk in place (capreqidx.c). */
module CapIndex {
  import opened IndexSpec

  const NIL := 0

  /** Names whose lists start big. */
  predicate Reserved(name: string) {
    Prefix("libc", name) || Prefix("libm", name) || Prefix("libpthread", name)
  }

  predicate Prefix(p: string, s: string) {
    |p| <= |s| && s[..|p|] == p
  }

  /** The packages of the list are among the additions, or exactly they. */
  ghost predicate Covers(owed: multiset<int>, s: seq<int>, exact: bool) {
    multiset(s) <= owed && (exact ==> multiset(s) == owed)
  }

  /** A struct capreq_idx_ent. A single package is held in pkg; size 1 says so. */
  class Ent {
    var items: nat
    var size: nat
    var pkg: int
    var pkgs: array?<int>
    /** The additions that were not taken back yet. */
    ghost var owed: multiset<int>

    ghost predicate Shape()
      reads this`items, this`size, this`pkgs, pkgs
      ensures Shape() ==> size >= 1
    {
      && 1 <= size && items <= size
      && (size == 1 <==> pkgs == null) && (pkgs != null ==> pkgs.Length == size)
    }

    ghost predicate Valid()
      reads this, pkgs
    {
      Shape() && Covers(owed, Contents(), size == 1)
    }

    ghost function Contents(): seq<int>
      reads this`items, this`pkg, this`pkgs, pkgs
    {
      if pkgs != null then if items <= pkgs.Length then pkgs[..items] else []
      else if items == 0 then [] else [pkg]
    }

    constructor (p: int)
      ensures Valid() && Contents() == [p] && owed == multiset{p} && pkgs == null
    {
      items, size, pkg, pkgs := 1, 1, p, null;
      owed := multiset{p};
    }

    /** ent_transform_to_array. */
    method TransformToArray()
      requires Shape() && size == 1
      modifies this`size, this`pkgs
      ensures Shape() && size == 2 && fresh(pkgs) && Contents() == old(Contents())
    {
      var a := new int[2];
      a[0] := pkg;
      pkgs, size := a, 2;
    }

    /** n_realloc to a greater size. */
    method Resize(n: nat)
      requires Shape() && size > 1 && n >= size
      modifies this`size, this`pkgs
      ensures Shape() && size == n && fresh(pkgs) && Contents() == old(Contents())
    {
      var a := new int[n];
      forall i | 0 <= i < items { a[i] := pkgs[i]; }
      assert a[..items] == Contents();
      pkgs, size := a, n;
    }

    /** idx_ent_contains: a binary search. */
    method Has(p: int) returns (found: bool)
      requires Shape() && size > 1 && StrictlySorted(Contents())
      ensures found <==> p in Contents()
    {
      ghost var s := Contents();
      var l, r := 0, items;
      while l < r
        invariant 0 <= l <= r <= items
        invariant forall k :: 0 <= k < l ==> s[k] < p
        invariant forall k :: r <= k < items ==> p < s[k]
      {
        var i := (l + r) / 2;
        assert pkgs[i] == s[i];
        if pkgs[i] == p {
          return true;
        } else if pkgs[i] > p {
          r := i;
        } else {
          l := i + 1;
        }
      }
      return false;
    }

    /** idx_ent_sort. */
    method Sort()
      requires Shape() && size > 1
      modifies pkgs
      ensures Shape() && Contents() == ISort(old(Contents()), Below())
    {
      InsertionSort(pkgs, items, Below());
    }

    method Expand(reserve: bool)
      requires Shape() && size == 1
      modifies this`size, this`pkgs
      ensures Shape() && size > 1 && fresh(pkgs) && Contents() == old(Contents())
    {
      TransformToArray();
      if reserve { Resize(4096); }
    }

    method Push(p: int)
      requires Shape() && size > 1
      modifies this`items, this`size, this`pkgs, pkgs
      ensures Shape() && size > 1 && (pkgs == old(pkgs) || fresh(pkgs))
      ensures Contents() == old(Contents()) + [p]
    {
      ghost var s := Contents();
      if items == size { Resize(size * 2); }
      pkgs[items] := p;
      items := items + 1;
      assert Contents() == s + [p];
    }

    /** capreq_idx_add on an entry that exists; cap is the mode without duplicates. */
    method Add(p: int, cap: bool, reserve: bool)
      requires Valid() && (cap ==> StrictlySorted(Contents()))
      modifies this, pkgs
      ensures Valid() && (pkgs == old(pkgs) || fresh(pkgs))
      ensures Contents() == AddTo(old(Contents()), p, cap) && owed == old(owed) + multiset{p}
      ensures cap ==> StrictlySorted(Contents())
    {
      hide ISort, StrictlySorted, Covers, Shape, Contents;
      ghost var s := Contents();
      AddIsOwed(s, p, cap, owed, size == 1);
      if size == 1 { Expand(reserve); }
      var found := false;
      if cap {
        AddKeepsSorted(s, p);
        found := Has(p);
      }
      if !found {
        Push(p);
        if cap { Sort(); }
      }
      owed := owed + multiset{p};
    }

    /** capreq_idx_remove on the entry: the scan, and the shifting of what is behind a removed package. */
    method Remove(p: int, same: (int, int) -> bool)
      requires Valid() && p in owed && forall q :: q in owed ==> (same(p, q) <==> p == q)
      modifies this, pkgs
      ensures Valid() && pkgs == old(pkgs)
      ensures Contents() == Strip(old(Contents()), p, same) && owed == old(owed) - multiset{p}
      ensures old(StrictlySorted(Contents())) ==> StrictlySorted(Contents())
    {
      hide Strip, StrictlySorted, Covers, Shape, Contents;
      ghost var s := Contents();
      StripTakesOwed(s, p, same, owed, size == 1);
      if StrictlySorted(s) { StripKeepsSorted(s, p, same); }
      if size == 1 {
        AtMostOne();
        StripSingle(s, p, same, owed);
        TakeSingle(p, same);
      } else {
        Scan(p, same);
      }
      owed := owed - multiset{p};
    }

    lemma AtMostOne()
      requires Shape() && size == 1
      ensures |Contents()| <= 1
    {
    }

    method TakeSingle(p: int, same: (int, int) -> bool)
      requires Shape() && size == 1 && Contents() == [p] && same(p, p)
      modifies this`items, this`pkg
      ensures Shape() && Contents() == []
    {
      assert Contents()[0] == pkg;
      if same(p, pkg) {
        items := 0;
        pkg := NIL;
      }
    }

    method CutOut(i: nat)
      requires Shape() && size > 1 && i < items
      modifies this`items, pkgs
      ensures Shape() && Contents() == old(Contents()[..i] + Contents()[i + 1..])
    {
      ghost var s := Contents();
      if i == items - 1 {
        pkgs[i] := NIL;
      } else {
        forall k | i <= k < size - 1 { pkgs[k] := pkgs[k + 1]; }
      }
      pkgs[size - 1] := NIL;
      items := items - 1;
      assert pkgs[..i] == s[..i];
      assert pkgs[i..items] == s[i + 1..];
      assert pkgs[..items] == pkgs[..i] + pkgs[i..items];
    }

    method Scan(p: int, same: (int, int) -> bool)
      requires Shape() && size > 1
      modifies this`items, pkgs
      ensures Shape()
      ensures Contents() == Strip(old(Contents()), p, same)
    {
      hide Strip, ScanDone;
      ghost var s := Contents();
      ScanStarts(p, same, s);
      var i := 0;
      while i < items
        invariant Shape() && ScanDone(Contents(), i, p, same, s)
        decreases items - i
      {
        ScanStep(Contents(), i, p, same, s);
        if same(p, pkgs[i]) {
          CutOut(i);
        }
        i := i + 1;
      }
      ScanEnds(Contents(), i, p, same, s);
    }
  }

  /** The scan has come to i; the list it was called with was s and is c now. */
  ghost predicate ScanDone(c: seq<int>, i: nat, p: int, same: (int, int) -> bool, s: seq<int>) {
    Strip(s, p, same) == if i <= |c| then c[..i] + Strip(c[i..], p, same) else c
  }

  lemma ScanStarts(p: int, same: (int, int) -> bool, s: seq<int>)
    ensures ScanDone(s, 0, p, same, s)
  {
    assert s[..0] + Strip(s[0..], p, same) == Strip(s, p, same) by { assert s[0..] == s; }
  }

  lemma ScanEnds(c: seq<int>, i: nat, p: int, same: (int, int) -> bool, s: seq<int>)
    requires |c| <= i && ScanDone(c, i, p, same, s)
    ensures c == Strip(s, p, same)
  {
  }

  lemma ScanStep(c: seq<int>, i: nat, p: int, same: (int, int) -> bool, s: seq<int>)
    requires i < |c| && ScanDone(c, i, p, same, s)
    ensures ScanDone(if same(p, c[i]) then c[..i] + c[i + 1..] else c, i + 1, p, same, s)
  {
    assert c[i..][0] == c[i] && c[i..][1..] == c[i + 1..];
    if !same(p, c[i]) {
      assert c[..i + 1] == c[..i] + [c[i]];
    } else if i + 1 < |c| {
      var d := c[..i] + c[i + 1..];
      assert c[i..][1] == c[i + 1] && c[i..][2..] == c[i + 2..];
      assert d[..i + 1] == c[..i] + [c[i + 1]] && d[i + 1..] == c[i + 2..];
    } else {
      assert c[..i] + c[i + 1..] == c[..i];
    }
  }

  lemma AddIsOwed(s: seq<int>, p: int, cap: bool, owed: multiset<int>, exact: bool)
    requires Covers(owed, s, exact)
    ensures Covers(owed + multiset{p}, AddTo(s, p, cap), false)
  {
    SortIsPermutation(s + [p], Below());
  }

  /** An entry of one package is asked to give back no other. */
  lemma StripSingle(s: seq<int>, p: int, same: (int, int) -> bool, owed: multiset<int>)
    requires Covers(owed, s, true) && p in owed && |s| <= 1 && Tells(p, s, same)
    ensures s == [p] && same(p, p) && Strip(s, p, same) == [] && Covers(owed - multiset{p}, [], true)
  {
    assert p in s;
  }

  /** What is left after a removal is still covered by the additions less one. */
  lemma StripTakesOwed(s: seq<int>, p: int, same: (int, int) -> bool, owed: multiset<int>, exact: bool)
    requires Covers(owed, s, exact) && forall q :: q in owed ==> (same(p, q) <==> p == q)
    ensures Tells(p, s, same) && Covers(owed - multiset{p}, Strip(s, p, same), false)
  {
    forall i | 0 <= i < |s| ensures same(p, s[i]) <==> p == s[i] {
      assert s[i] in multiset(s);
    }
    StripIsPart(s, p, same);
    if p in s { StripTakesOne(s, p, same); }
    else { assert multiset(s)[p] == 0; }
  }

  lemma {:induction false} StripTakesOne(s: seq<int>, p: int, same: (int, int) -> bool)
    requires Tells(p, s, same) && p in s
    ensures multiset(Strip(s, p, same))[p] < multiset(s)[p]
    decreases |s|
  {
    HeadAndTail(s, p);
    if !same(p, s[0]) {
      StripTakesOne(s[1..], p, same);
      HeadAndTail([s[0]] + Strip(s[1..], p, same), p);
    } else if |s| > 1 {
      StripIsPart(s[2..], p, same);
      HeadAndTail(s[1..], p);
      HeadAndTail([s[1]] + Strip(s[2..], p, same), p);
      assert s[1..][1..] == s[2..];
    }
  }

  lemma HeadAndTail(s: seq<int>, p: int)
    requires s != []
    ensures multiset(s)[p] == (if s[0] == p then 1 else 0) + multiset(s[1..])[p]
    ensures p in s <==> s[0] == p || p in s[1..]
  {
    assert s == [s[0]] + s[1..];
  }

  /** The insertion sort that both idx_ent_sort and isort_pkgs are. */
  method InsertionSort(a: array<int>, n: nat, less: (int, int) -> bool)
    requires n <= a.Length
    modifies a
    ensures a[..n] == ISort(old(a[..n]), less) && a[n..] == old(a[n..])
  {
    hide Insert;
    ghost var s := a[..];
    if n == 0 { return; }
    SortStep(s, 0, less);
    assert a[..1] == [s[0]];
    InsertStops([], s[0], less);
    var i := 1;
    while i < n
      invariant 1 <= i <= n
      invariant a[..i] == ISort(s[..i], less) && a[i..] == s[i..]
    {
      SortStep(s, i, less);
      ghost var tail := a[i..];
      InsertAt(a, i, less);
      assert a[i + 1..] == tail[1..];
      i := i + 1;
    }
  }

  lemma SortStep(s: seq<int>, i: nat, less: (int, int) -> bool)
    requires i < |s|
    ensures ISort(s[..i + 1], less) == Insert(ISort(s[..i], less), s[i], less) && ISort([], less) == []
  {
    hide Insert;
    assert s[..i + 1][..i] == s[..i];
  }

  method InsertAt(a: array<int>, i: nat, less: (int, int) -> bool)
    requires i < a.Length
    modifies a
    ensures a[..i + 1] == Insert(old(a[..i]), old(a[i]), less) && a[i + 1..] == old(a[i + 1..])
  {
    hide Insert;
    var tmp := a[i];
    ghost var t, tail := a[..i], a[i + 1..];
    var j := i;
    assert t[..i] == t && t[i..] == [] && Insert(t, tmp, less) + [] == Insert(t, tmp, less);
    while j > 0 && less(tmp, a[j - 1])
      invariant 0 <= j <= i && |a[..]| == |t| + 1 + |tail|
      invariant Opened(a[..], t, j, tail)
      invariant Insert(t, tmp, less) == Insert(t[..j], tmp, less) + t[j..]
    {
      OpenedAt(a[..], t, j, tail);
      InsertStep(t, j, tmp, less);
      ghost var before := a[..];
      a[j] := a[j - 1];
      assert a[..] == before[j := t[j - 1]];
      j := j - 1;
    }
    OpenedAt(a[..], t, j, tail);
    InsertStops(t[..j], tmp, less);
    ghost var before := a[..];
    a[j] := tmp;
    assert a[..] == before[j := tmp];
    Closed(before, t, j, tail, tmp);
    assert a[..i + 1] == a[..][..i + 1] && a[i + 1..] == a[..][i + 1..];
  }

  /** The list t with a hole at j, and what follows it. */
  ghost predicate Opened(s: seq<int>, t: seq<int>, j: nat, tail: seq<int>)
    requires j <= |t| && |s| == |t| + 1 + |tail|
  {
    s[..j] == t[..j] && s[j + 1..|t| + 1] == t[j..] && s[|t| + 1..] == tail
  }

  lemma OpenedAt(s: seq<int>, t: seq<int>, j: nat, tail: seq<int>)
    requires j <= |t| && |s| == |t| + 1 + |tail| && Opened(s, t, j, tail)
    ensures j > 0 ==> s[j - 1] == t[j - 1] && Opened(s[j := t[j - 1]], t, j - 1, tail)
  {
    if j > 0 {
      assert s[..j][j - 1] == t[..j][j - 1];
      var r := s[j := t[j - 1]];
      assert r[..j - 1] == s[..j][..j - 1] == t[..j - 1];
      assert r[j..|t| + 1] == [t[j - 1]] + s[j + 1..|t| + 1] == t[j - 1..];
    }
  }

  lemma Closed(s: seq<int>, t: seq<int>, j: nat, tail: seq<int>, x: int)
    requires j <= |t| && |s| == |t| + 1 + |tail| && Opened(s, t, j, tail)
    ensures s[j := x][..|t| + 1] == t[..j] + [x] + t[j..] && s[j := x][|t| + 1..] == tail
  {
  }

  lemma InsertStops(t: seq<int>, x: int, less: (int, int) -> bool)
    requires t != [] ==> !less(x, t[|t| - 1])
    ensures Insert(t, x, less) == t + [x]
  {
  }

  lemma InsertStep(t: seq<int>, j: nat, x: int, less: (int, int) -> bool)
    requires 0 < j <= |t| && less(x, t[j - 1])
    ensures Insert(t[..j], x, less) + t[j..] == Insert(t[..j - 1], x, less) + t[j - 1..]
  {
    assert t[..j][..j - 1] == t[..j - 1] && t[j - 1..] == [t[j - 1]] + t[j..];
  }
}
