/** Storing and restoring file lists with the loops of the source (pkgfl.c). */
module FileList {
  import opened Wrappers
  import opened CodecSpec
  import opened FileListSpec
  import opened Codec
  import FileListTheorems

  /** pkgfl_store_buf: the table of matches first, then the count, then the directories it marks. */
  method PkgflStoreBuf(fl: seq<Dir>, nbuf: TnBuf, excluded: Option<seq<Byte> -> bool>, depdirs: set<seq<Byte>>, which: Which)
    returns (ndirs: nat)
    requires nbuf.Valid() && |fl| <= UINT32_MAX && (forall d :: d in fl ==> Wellformed(d))
    requires which == All ==> excluded.None?
    modifies nbuf
    ensures nbuf.Valid()
    ensures nbuf.Written() == old(nbuf.Written()) + StoreList(fl, which, depdirs, Excludes(excluded))
    ensures ndirs == |Pick(fl, which, depdirs, Excludes(excluded))|
  {
    hide StoreDirs, TnBuf.Valid, Int32, Pick, Wellformed;
    var matches := new bool[|fl|];
    ndirs := MarkMatches(fl, excluded, depdirs, which, matches);
    nbuf.Add(Int32(ndirs));
    StoreMatched(fl, nbuf, matches, which, depdirs, Excludes(excluded));
  }

  method StoreMatched(fl: seq<Dir>, nbuf: TnBuf, matches: array<bool>,
                      ghost which: Which, ghost depdirs: set<seq<Byte>>, ghost excl: seq<Byte> -> bool)
    requires nbuf.Valid() && matches.Length == |fl| && forall d :: d in fl ==> Wellformed(d)
    requires forall k :: 0 <= k < |fl| ==> matches[k] == Selected(fl[k], which, depdirs, excl)
    modifies nbuf
    ensures nbuf.Valid() && nbuf.Written() == old(nbuf.Written()) + StoreDirs(Pick(fl, which, depdirs, excl))
  {
    hide StoreDir, StoreDirs, Selected, TnBuf.Valid, Pick, Wellformed;
    ghost var goal := nbuf.Written() + StoreDirs(Pick(fl, which, depdirs, excl));
    assert fl[0..] == fl;
    var i := 0;
    while i < |fl|
      invariant 0 <= i <= |fl| && nbuf.Valid()
      invariant nbuf.Written() + StoreDirs(Pick(fl[i..], which, depdirs, excl)) == goal
    {
      PickStep(fl, i, which, depdirs, excl);
      if matches[i] {
        ghost var w, more := nbuf.Written(), StoreDirs(Pick(fl[i + 1..], which, depdirs, excl));
        StoreFlent(fl[i], nbuf);
        assert w + (StoreDir(fl[i]) + more) == w + StoreDir(fl[i]) + more;
      }
      i := i + 1;
    }
    PickNone(which, depdirs, excl);
    assert fl[|fl|..] == [];
  }

  lemma PickNone(which: Which, depdirs: set<seq<Byte>>, excl: seq<Byte> -> bool)
    ensures Pick([], which, depdirs, excl) == [] && StoreDirs([]) == []
  {
  }

  lemma PickStep(fl: seq<Dir>, i: nat, which: Which, depdirs: set<seq<Byte>>, excl: seq<Byte> -> bool)
    requires i < |fl| && forall d :: d in fl ==> Wellformed(d)
    ensures StoreDirs(Pick(fl[i..], which, depdirs, excl)) ==
            if Selected(fl[i], which, depdirs, excl) then StoreDir(fl[i]) + StoreDirs(Pick(fl[i + 1..], which, depdirs, excl))
            else StoreDirs(Pick(fl[i + 1..], which, depdirs, excl))
  {
    hide StoreDir, Selected;
    var more := Pick(fl[i + 1..], which, depdirs, excl);
    assert fl[i..][0] == fl[i] && fl[i..][1..] == fl[i + 1..];
    assert ([fl[i]] + more)[1..] == more;
    assert [] + more == more;
  }

  function Excludes(excluded: Option<seq<Byte> -> bool>): seq<Byte> -> bool {
    if excluded.Some? then excluded.value else n => false
  }

  method MarkMatches(fl: seq<Dir>, excluded: Option<seq<Byte> -> bool>, depdirs: set<seq<Byte>>, which: Which, matches: array<bool>)
    returns (ndirs: nat)
    requires matches.Length == |fl| && (which == All ==> excluded.None?)
    modifies matches
    ensures forall k :: 0 <= k < |fl| ==> matches[k] == Selected(fl[k], which, depdirs, Excludes(excluded))
    ensures ndirs == |Pick(fl, which, depdirs, Excludes(excluded))|
  {
    hide Pick, Selected, Excludes;
    ghost var excl := Excludes(excluded);
    ndirs := 0;
    assert fl[0..] == fl;
    var i := 0;
    while i < |fl|
      invariant 0 <= i <= |fl|
      invariant forall k :: 0 <= k < i ==> matches[k] == Selected(fl[k], which, depdirs, excl)
      invariant ndirs + |Pick(fl[i..], which, depdirs, excl)| == |Pick(fl, which, depdirs, excl)|
    {
      PickCount(fl, i, which, depdirs, excl);
      matches[i] := MatchesDir(fl[i], excluded, depdirs, which);
      if matches[i] { ndirs := ndirs + 1; }
      i := i + 1;
    }
    assert fl[|fl|..] == [];
    PickNone(which, depdirs, excl);
  }

  lemma PickCount(fl: seq<Dir>, i: nat, which: Which, depdirs: set<seq<Byte>>, excl: seq<Byte> -> bool)
    requires i < |fl|
    ensures |Pick(fl[i..], which, depdirs, excl)| ==
            |Pick(fl[i + 1..], which, depdirs, excl)| + if Selected(fl[i], which, depdirs, excl) then 1 else 0
  {
    hide Selected;
    assert fl[i..][0] == fl[i] && fl[i..][1..] == fl[i + 1..];
  }

  /** The test of the loop that fills the table of matches. */
  method MatchesDir(d: Dir, excluded: Option<seq<Byte> -> bool>, depdirs: set<seq<Byte>>, which: Which) returns (selected: bool)
    requires which == All ==> excluded.None?
    ensures selected == Selected(d, which, depdirs, Excludes(excluded))
  {
    if which == All { return true; }
    var isDepdir := d.name in depdirs;
    if which == DepDirs && isDepdir {
      return true;
    } else if which == NotDepDirs && !isDepdir {
      if excluded.None? || !excluded.value(d.name) { return true; }
    }
    return false;
  }

  /** A string of at most 255 bytes behind its length; of a longer one only what the length says. */
  method AddCounted(s: seq<Byte>, nbuf: TnBuf)
    requires nbuf.Valid()
    modifies nbuf
    ensures nbuf.Valid() && nbuf.Written() == old(nbuf.Written()) + Counted(s)
  {
    var n: Byte := |s| % 256;
    nbuf.Add([n]);
    nbuf.Add(s[..n]);
  }

  /** One directory with its files. */
  method StoreFlent(flent: Dir, nbuf: TnBuf)
    requires nbuf.Valid() && Wellformed(flent)
    modifies nbuf
    ensures nbuf.Valid() && nbuf.Written() == old(nbuf.Written()) + StoreDir(flent)
  {
    hide TnBuf.Valid, Counted, Int32;
    ghost var was := nbuf.Written();
    AddCounted(flent.name + NUL, nbuf);
    nbuf.Add(Int32(|flent.files|));
    ghost var head := Counted(flent.name + NUL) + Int32(|flent.files|);
    assert nbuf.Written() == was + head;
    StoreFlfiles(flent.files, nbuf);
    assert was + head + StoreFiles(flent.files) == was + StoreDir(flent);
  }

  method StoreFlfiles(fs: seq<File>, nbuf: TnBuf)
    requires nbuf.Valid() && forall f :: f in fs ==> WellformedFile(f)
    modifies nbuf
    ensures nbuf.Valid() && nbuf.Written() == old(nbuf.Written()) + StoreFiles(fs)
  {
    hide TnBuf.Valid, StoreFile;
    ghost var was := nbuf.Written();
    var j := 0;
    while j < |fs|
      invariant 0 <= j <= |fs| && nbuf.Valid()
      invariant nbuf.Written() + StoreFiles(fs[j..]) == was + StoreFiles(fs)
    {
      ghost var w, more := nbuf.Written(), StoreFiles(fs[j + 1..]);
      assert fs[j..][0] == fs[j] && fs[j..][1..] == fs[j + 1..];
      StoreFlfile(fs[j], nbuf);
      assert w + (StoreFile(fs[j]) + more) == w + StoreFile(fs[j]) + more;
      j := j + 1;
    }
  }

  method StoreFlfile(file: File, nbuf: TnBuf)
    requires nbuf.Valid() && WellformedFile(file)
    modifies nbuf
    ensures nbuf.Valid() && nbuf.Written() == old(nbuf.Written()) + StoreFile(file)
  {
    hide TnBuf.Valid, Counted, Int32, Int16;
    AddCounted(file.name, nbuf);
    nbuf.Add(Int16(file.mode));
    nbuf.Add(Int32(file.size));
    if IsLink(file.mode) {
      AddCounted(file.link, nbuf);
    }
  }

  // ----- restoring

  /** A reading that continues what was read before. */
  ghost function Prefixed<T>(done: seq<T>, r: Read<seq<T>>): Read<seq<T>> {
    match r
    case Short => Short
    case Read(v, rest) => Read(done + v, rest)
  }

  lemma PrefixedMore<T>(done: seq<T>, x: T, r: Read<seq<T>>)
    ensures Prefixed(done, Prefixed([x], r)) == Prefixed(done + [x], r)
  {
    if r.Read? {
      assert done + ([x] + r.value) == done + [x] + r.value;
    }
  }

  lemma PrefixedNone<T>(r: Read<seq<T>>)
    ensures Prefixed([], r) == r
  {
    if r.Read? {
      assert [] + r.value == r.value;
    }
  }

  method TakeCounted(b: seq<Byte>, pos: nat) returns (s: Option<seq<Byte>>, next: nat)
    requires pos <= |b|
    ensures var r := GetCounted(b[pos..]);
            if r.Short? then s == None else s == Some(r.value) && pos < next <= |b| && b[next..] == r.rest
  {
    if pos == |b| { return None, pos; }
    var n := b[pos];
    assert b[pos..][1..] == b[pos + 1..];
    if pos + 1 + n > |b| { return None, pos; }
    assert b[pos + 1..][..n] == b[pos + 1..pos + 1 + n] && b[pos + 1..][n..] == b[pos + 1 + n..];
    return Some(b[pos + 1..pos + 1 + n]), pos + 1 + n;
  }

  method TakeInt32(b: seq<Byte>, pos: nat) returns (x: Option<nat>, next: nat)
    requires pos <= |b|
    ensures var r := GetInt32(b[pos..]);
            if r.Short? then x == None else x == Some(r.value) && pos < next <= |b| && b[next..] == r.rest
  {
    if pos + 4 > |b| { return None, pos; }
    assert b[pos..][4..] == b[pos + 4..];
    return Some((b[pos] as int * 256 + b[pos + 1]) * 65536 + (b[pos + 2] as int * 256 + b[pos + 3])), pos + 4;
  }

  method TakeInt16(b: seq<Byte>, pos: nat) returns (x: Option<nat>, next: nat)
    requires pos <= |b|
    ensures var r := GetInt16(b[pos..]);
            if r.Short? then x == None else x == Some(r.value) && pos < next <= |b| && b[next..] == r.rest
  {
    if pos + 2 > |b| { return None, pos; }
    assert b[pos..][2..] == b[pos + 2..];
    return Some(b[pos] as int * 256 + b[pos + 1]), pos + 2;
  }

  method TakeFile(b: seq<Byte>, pos: nat) returns (file: Option<File>, next: nat)
    requires pos <= |b|
    ensures var r := RestoreFile(b[pos..]);
            if r.Short? then file == None else file == Some(r.value) && pos < next <= |b| && b[next..] == r.rest
  {
    hide GetCounted, GetInt16, GetInt32;
    var bn, mode, size;
    bn, next := TakeCounted(b, pos);
    if bn == None { return None, pos; }
    mode, next := TakeInt16(b, next);
    if mode == None { return None, pos; }
    size, next := TakeInt32(b, next);
    if size == None { return None, pos; }
    var link: seq<Byte> := [];
    if IsLink(mode.value) {
      var linkto;
      linkto, next := TakeCounted(b, next);
      if linkto == None { return None, pos; }
      if linkto.value != [] && linkto.value[0] != 0 {
        link := linkto.value;
      }
    }
    file := Some(File(bn.value, mode.value, size.value, link));
  }

  /** The files of a directory; those of one that is not loaded are passed over. */
  method TakeFiles(b: seq<Byte>, pos: nat, nfiles: nat, loadir: bool) returns (files: Option<seq<File>>, next: nat)
    requires pos <= |b|
    ensures var r := RestoreFiles(b[pos..], nfiles);
            if r.Short? then files == None
            else files == Some(if loadir then r.value else []) && pos <= next <= |b| && b[next..] == r.rest
  {
    hide RestoreFile;
    ghost var done: seq<File> := [];
    PrefixedNone(RestoreFiles(b[pos..], nfiles));
    var list: seq<File> := [];
    next := pos;
    var j := 0;
    while j < nfiles
      invariant 0 <= j <= nfiles && pos <= next <= |b| && list == if loadir then done else []
      invariant RestoreFiles(b[pos..], nfiles) == Prefixed(done, RestoreFiles(b[next..], nfiles - j))
    {
      var file;
      file, next := TakeFile(b, next);
      if file == None { return None, pos; }
      PrefixedMore(done, file.value, RestoreFiles(b[next..], nfiles - j - 1));
      done := done + [file.value];
      if loadir {
        list := list + [file.value];
      }
      j := j + 1;
    }
    assert done + [] == done;
    files := Some(list);
  }

  /** One directory: whether it is wanted is decided by its name as stored. */
  method TakeFlent(b: seq<Byte>, pos: nat, dirs: Option<set<seq<Byte>>>, inclusive: bool)
    returns (ok: bool, flent: Option<Dir>, next: nat)
    requires pos <= |b|
    ensures var r := RestoreDir(b[pos..]);
            if r.Short? then !ok
            else
              && ok && flent == (if Loaded(r.value.raw, dirs, inclusive) then Some(r.value.dir) else None)
              && pos < next <= |b| && b[next..] == r.rest
  {
    hide RestoreFiles, GetCounted, GetInt32, Prepare, StrLen;
    var dn, nfiles, files;
    dn, next := TakeCounted(b, pos);
    if dn == None || dn.value == [] { return false, None, pos; }
    var raw := dn.value[..StrLen(dn.value)];
    var loadir := if dirs.None? then true else !inclusive;
    if dirs.Some? && raw in dirs.value {
      loadir := inclusive;
    }
    nfiles, next := TakeInt32(b, next);
    if nfiles == None { return false, None, pos; }
    files, next := TakeFiles(b, next, nfiles.value, loadir);
    if files == None { return false, None, pos; }
    ok := true;
    flent := if loadir then Some(Dir(Prepare(dn.value[..|dn.value| - 1]), files.value)) else None;
  }

  /** pkgfl_restore. */
  method PkgflRestore(b: seq<Byte>, dirs: Option<set<seq<Byte>>>, inclusive: bool) returns (fl: Option<seq<Dir>>)
    ensures var r := RestoreAll(b);
            if r.Short? then fl == None else fl == Some(Load(r.value, dirs, inclusive))
  {
    hide RestoreDir, Loaded;
    assert b[0..] == b;
    var ndirs: Option<nat>, next: nat := TakeInt32(b, 0);
    if ndirs == None { return None; }
    ghost var start: nat := next;
    ghost var done: seq<Stored> := [];
    PrefixedNone(RestoreDirs(b[start..], ndirs.value));
    var ents: seq<Dir> := [];
    var left := ndirs.value;
    while left > 0
      invariant next <= |b| && ents == Load(done, dirs, inclusive)
      invariant RestoreDirs(b[start..], ndirs.value) == Prefixed(done, RestoreDirs(b[next..], left))
    {
      ghost var s := RestoreDir(b[next..]);
      var ok, flent;
      ok, flent, next := TakeFlent(b, next, dirs, inclusive);
      if !ok { return None; }
      PrefixedMore(done, s.value, RestoreDirs(b[next..], left - 1));
      FileListTheorems.LoadOver(done, s.value, dirs, inclusive);
      done := done + [s.value];
      if flent != None {
        ents := ents + [flent.value];
      }
      left := left - 1;
    }
    assert done + [] == done;
    fl := Some(ents);
  }
}
