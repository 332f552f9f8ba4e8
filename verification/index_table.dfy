/** The index as a table from names to entries, and the loops over a package's names (capreqidx.c, pkgset.c). */
module IndexTable {
  import opened IndexSpec
  import opened CapIndex
  import opened IndexBooks

  ghost predicate Holds(e: Ent, a: Account)
    reads e, e.pkgs
  {
    e.Valid() && e.Contents() == a.list && e.owed == a.owed
  }

  class Index {
    const rules: Rules
    var ht: map<string, Ent>
    ghost var books: Books
    /** The name that each object of the table belongs to. */
    ghost var home: map<object, string>

    ghost predicate Mine(n: string)
      requires n in ht
      reads this, home.Keys
    {
      && n in books && ht[n] in home && home[ht[n]] == n
      && (ht[n].pkgs != null ==> ht[n].pkgs in home && home[ht[n].pkgs] == n)
      && Holds(ht[n], books[n])
    }

    ghost predicate Proper(n: string, a: Account) {
      !rules.skip(n) && (rules.cap ==> StrictlySorted(a.list))
    }

    ghost predicate Valid()
      reads this, home.Keys
    {
      && this !in home
      && (forall n :: n in books ==> n in ht && Proper(n, books[n]))
      && (forall n :: n in ht ==> Mine(n))
    }

    /** All but the entry of one name, which is in the middle of a change. */
    ghost predicate ValidBut(name: string)
      reads this, home.Keys
    {
      && this !in home
      && (forall n :: n in books ==> n in ht && Proper(n, books[n]))
      && (forall n :: n in ht ==> n == name || Mine(n))
      && name in ht && ht[name] in home && home[ht[name]] == name
    }

    /** capreq_idx_init. */
    constructor (rules: Rules)
      ensures Valid() && home == map[] && this.rules == rules && books == map[]
    {
      this.rules, ht, books, home := rules, map[], map[], map[];
    }

    /** capreq_idx_add. */
    method Add(name: string, p: int)
      requires Valid()
      modifies this, home.Keys
      ensures Valid() && fresh(home.Keys - old(home.Keys))
      ensures books == AddName(old(books), name, p, rules)
    {
      hide Holds, Proper, Added;
      if rules.skip(name) { return; }
      if name !in ht {
        AddFirst(name, p);
      } else {
        AddMore(name, p);
      }
    }

    method AddFirst(name: string, p: int)
      requires Valid() && !rules.skip(name) && name !in ht
      modifies this`ht, this`home, this`books
      ensures Valid() && fresh(home.Keys - old(home.Keys))
      ensures books == old(books)[name := Added(EMPTY, p, rules.cap)]
    {
      FirstAdded(p, rules.cap);
      var ent := new Ent(p);
      Install(name, ent, Added(EMPTY, p, rules.cap));
    }

    method Install(name: string, ent: Ent, ghost a: Account)
      requires Valid() && name !in ht && ent !in home && Holds(ent, a) && Proper(name, a) && ent.pkgs == null
      modifies this`ht, this`home, this`books
      ensures Valid() && home == old(home)[ent := name] && books == old(books)[name := a]
    {
      hide Holds, Proper;
      ht, books, home := ht[name := ent], books[name := a], home[ent := name];
    }

    method AddMore(name: string, p: int)
      requires Valid() && name in ht
      modifies this, home.Keys
      ensures Valid() && fresh(home.Keys - old(home.Keys))
      ensures books == old(books)[name := Added(old(books[name]), p, rules.cap)]
    {
      hide Holds, Proper, Added;
      var ent := ht[name];
      ghost var a := books[name];
      AddIn(name, ent, p, a);
      OthersKeep(name);
      Rebook(name, ent, Added(a, p, rules.cap));
    }

    method AddIn(name: string, ent: Ent, p: int, ghost a: Account)
      requires Holds(ent, a) && Proper(name, a)
      modifies ent, ent.pkgs
      ensures Holds(ent, Added(a, p, rules.cap)) && Proper(name, Added(a, p, rules.cap))
      ensures ent.pkgs == old(ent.pkgs) || fresh(ent.pkgs)
    {
      hide StrictlySorted, AddTo, Ent.Valid, Ent.Contents;
      ent.Add(p, rules.cap, Reserved(name));
    }

    /** capreq_idx_remove; an entry that still holds its only package inline is emptied once at most. */
    method Remove(name: string, p: int)
      requires Valid() && (name in books ==> MayRemove(books[name], p, 1, rules.same))
      modifies this, home.Keys
      ensures Valid() && fresh(home.Keys - old(home.Keys))
      ensures books == RemoveName(old(books), name, p, rules)
    {
      hide Holds, Proper, Removed, MayRemove;
      if name !in ht { return; }
      var ent := ht[name];
      ghost var a := books[name];
      RemoveIn(name, ent, p, a);
      OthersKeep(name);
      Rebook(name, ent, Removed(a, p, rules.same));
    }

    method RemoveIn(name: string, ent: Ent, p: int, ghost a: Account)
      requires Holds(ent, a) && Proper(name, a) && MayRemove(a, p, 1, rules.same)
      modifies ent, ent.pkgs
      ensures Holds(ent, Removed(a, p, rules.same)) && Proper(name, Removed(a, p, rules.same))
      ensures ent.pkgs == old(ent.pkgs)
    {
      hide StrictlySorted, Strip, Ent.Valid, Ent.Contents;
      ent.Remove(p, rules.same);
    }

    /** capreq_idx_lookup: an entry is handed out with its packages in an array, an empty one not at all. */
    method Lookup(name: string) returns (ent: Ent?)
      requires Valid()
      modifies this, home.Keys
      ensures Valid() && fresh(home.Keys - old(home.Keys)) && books == old(books)
      ensures ent == null <==> Look(books, name).list == []
      ensures ent != null ==> ent.pkgs != null && ent.items <= ent.pkgs.Length && ent.pkgs[..ent.items] == Look(books, name).list
    {
      hide Holds, Proper;
      if name !in ht { return null; }
      ent := ht[name];
      ghost var a := books[name];
      assert Mine(name);
      var found := Shown(ent, a);
      OthersKeep(name);
      Rebook(name, ent, a);
      assert books == old(books);
      if !found { ent := null; }
    }

    method Shown(ent: Ent, ghost a: Account) returns (found: bool)
      requires Holds(ent, a)
      modifies ent
      ensures Holds(ent, a) && (found <==> a.list != []) && (ent.pkgs == old(ent.pkgs) || fresh(ent.pkgs))
      ensures found ==> ent.pkgs != null && ent.items <= ent.pkgs.Length && ent.pkgs[..ent.items] == a.list
    {
      if ent.items == 0 { return false; }
      assert ent.Contents() != [];
      if ent.size == 1 {
        CoversLoosely(ent.owed, ent.Contents());
        ent.TransformToArray();
      }
      return true;
    }

    twostate lemma OthersKeep(name: string)
      requires old(Valid()) && name in old(ht)
      requires ht == old(ht) && books == old(books) && home == old(home)
      requires forall o: object :: o in home && o != ht[name] && o != old(ht[name].pkgs) ==> unchanged(o)
      ensures forall n :: n in ht && n != name ==> Mine(n)
    {
      hide Holds, Proper;
      forall n | n in ht && n != name ensures Mine(n) {
        assert old(Mine(n) && Mine(name));
        assert unchanged(ht[n]);
        if ht[n].pkgs != null { assert unchanged(ht[n].pkgs); }
      }
    }

    ghost method Rebook(name: string, ent: Ent, a: Account)
      requires ValidBut(name) && ent == ht[name] && Holds(ent, a) && Proper(name, a)
      requires ent.pkgs != null && ent.pkgs in home ==> home[ent.pkgs] == name
      modifies this`home, this`books
      ensures Valid() && books == old(books)[name := a]
      ensures home == if ent.pkgs != null then old(home)[ent.pkgs := name] else old(home)
    {
      hide Holds, Proper;
      books, home := books[name := a], if ent.pkgs != null then home[ent.pkgs := name] else home;
    }

    /** index_package_caps, and index_package_reqs without the rpmlib names: all the names of one package. */
    method AddPackage(names: seq<string>, p: int)
      requires Valid()
      modifies this, home.Keys
      ensures Valid() && fresh(home.Keys - old(home.Keys))
      ensures books == AddNames(old(books), names, p, rules)
    {
      hide AddName;
      var i := 0;
      while i < |names|
        invariant 0 <= i <= |names|
        invariant Valid() && fresh(home.Keys - old(home.Keys))
        invariant AddNames(books, names[i..], p, rules) == AddNames(old(books), names, p, rules)
      {
        assert names[i..][0] == names[i] && names[i..][1..] == names[i + 1..];
        Add(names[i], p);
        i := i + 1;
      }
    }

    /** The loop of pkgset_remove_package over the capabilities, or over the requirements. */
    method RemovePackage(names: seq<string>, p: int)
      requires Valid()
      requires forall n :: n in books ==> MayRemove(books[n], p, Times(names, n), rules.same)
      modifies this, home.Keys
      ensures Valid() && fresh(home.Keys - old(home.Keys))
      ensures books == RemoveNames(old(books), names, p, rules)
    {
      hide RemoveName, MayRemove, Times, Removed;
      var i := 0;
      while i < |names|
        invariant 0 <= i <= |names|
        invariant Valid() && fresh(home.Keys - old(home.Keys))
        invariant forall n :: n in books ==> MayRemove(books[n], p, Times(names[i..], n), rules.same)
        invariant RemoveNames(books, names[i..], p, rules) == RemoveNames(old(books), names, p, rules)
      {
        assert names[i..][0] == names[i] && names[i..][1..] == names[i + 1..];
        MayGoOn(books, names[i..], p, rules);
        Remove(names[i], p);
        i := i + 1;
      }
    }
  }

  lemma MayGoOn(b: Books, names: seq<string>, p: int, r: Rules)
    requires names != [] && forall n :: n in b ==> MayRemove(b[n], p, Times(names, n), r.same)
    ensures names[0] in b ==> MayRemove(b[names[0]], p, 1, r.same)
    ensures var c := RemoveName(b, names[0], p, r);
            forall n :: n in c ==> MayRemove(c[n], p, Times(names[1..], n), r.same)
  {
    var c := RemoveName(b, names[0], p, r);
    forall n | n in c ensures MayRemove(c[n], p, Times(names[1..], n), r.same) {
      assert MayRemove(b[n], p, Times(names, n), r.same);
    }
    if names[0] in b { assert MayRemove(b[names[0]], p, Times(names, names[0]), r.same); }
  }

  lemma CoversLoosely(owed: multiset<int>, s: seq<int>)
    requires Covers(owed, s, true)
    ensures Covers(owed, s, false)
  {
  }

  lemma FirstAdded(p: int, cap: bool)
    ensures Added(EMPTY, p, cap) == Account([p], multiset{p}) && StrictlySorted([p])
  {
    assert [] + [p] == [p] && [p][..0] == [];
    assert ISort([p], Below()) == Insert(ISort([], Below()), p, Below());
  }
}
