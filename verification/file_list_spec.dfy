/** The binary form of a package's file list (pkgfl.c). */
module FileListSpec {
  import opened Wrappers
  import opened CodecSpec

  /** A struct flfile; the link target is there for symbolic links only. */
  datatype File = File(name: seq<Byte>, mode: nat, size: nat, link: seq<Byte>)

  /** A struct pkgfl_ent. */
  datatype Dir = Dir(name: seq<Byte>, files: seq<File>)

  const SLASH := 47
  const UINT32_MAX := 4294967295

  /** S_ISLNK. */
  predicate IsLink(mode: nat) {
    mode / 4096 % 16 == 10
  }

  /** The types and C strings of the structures, and the directory names pkgfl_ent_new lets through. */
  predicate Wellformed(d: Dir) {
    && 0 < |d.name| < UINT8_MAX && NoZeros(d.name) && |d.files| <= UINT32_MAX / 2
    && forall f :: f in d.files ==> WellformedFile(f)
  }

  predicate WellformedFile(f: File) {
    && NoZeros(f.name) && NoZeros(f.link) && f.mode <= UINT16_MAX && f.size <= UINT32_MAX
    && (f.link == [] || IsLink(f.mode))
  }

  // ----- storing

  function Int32(x: nat): (r: seq<Byte>)
    requires x <= UINT32_MAX
    ensures |r| == 4
  {
    Int16(x / 65536) + Int16(x % 65536)
  }

  /** A string behind its length, as far as the length fits into a byte. */
  function Counted(s: seq<Byte>): (r: seq<Byte>)
    ensures |r| == 1 + |s| % 256
  {
    var n: Byte := |s| % 256;
    [n] + s[..n]
  }

  function StoreFile(f: File): seq<Byte>
    requires WellformedFile(f)
  {
    Counted(f.name) + (Int16(f.mode) + (Int32(f.size) + (if IsLink(f.mode) then Counted(f.link) else [])))
  }

  function StoreFiles(fs: seq<File>): seq<Byte>
    requires forall f :: f in fs ==> WellformedFile(f)
  {
    if fs == [] then [] else StoreFile(fs[0]) + StoreFiles(fs[1..])
  }

  function StoreDir(d: Dir): seq<Byte>
    requires Wellformed(d)
  {
    Counted(d.name + NUL) + (Int32(|d.files|) + StoreFiles(d.files))
  }

  function StoreDirs(ds: seq<Dir>): seq<Byte>
    requires forall d :: d in ds ==> Wellformed(d)
  {
    if ds == [] then [] else StoreDir(ds[0]) + StoreDirs(ds[1..])
  }

  datatype Which = All | DepDirs | NotDepDirs

  /** Which directories are stored: those others depend on, or the rest less what is excluded. */
  predicate Selected(d: Dir, which: Which, depdirs: set<seq<Byte>>, excluded: seq<Byte> -> bool) {
    match which
    case All => true
    case DepDirs => d.name in depdirs
    case NotDepDirs => d.name !in depdirs && !excluded(d.name)
  }

  function Pick(ds: seq<Dir>, which: Which, depdirs: set<seq<Byte>>, excluded: seq<Byte> -> bool): (r: seq<Dir>)
    ensures |r| <= |ds|
    ensures forall d :: d in r <==> d in ds && Selected(d, which, depdirs, excluded)
  {
    if ds == [] then []
    else (if Selected(ds[0], which, depdirs, excluded) then [ds[0]] else []) + Pick(ds[1..], which, depdirs, excluded)
  }

  /** pkgfl_store_buf. */
  function StoreList(ds: seq<Dir>, which: Which, depdirs: set<seq<Byte>>, excluded: seq<Byte> -> bool): seq<Byte>
    requires |ds| <= UINT32_MAX && forall d :: d in ds ==> Wellformed(d)
  {
    var picked := Pick(ds, which, depdirs, excluded);
    Int32(|picked|) + StoreDirs(picked)
  }

  // ----- restoring

  /** What was read and what is left; the source does not notice when the buffer is too short. */
  datatype Read<T> = Short | Read(value: T, rest: seq<Byte>)

  function GetByte(b: seq<Byte>): (r: Read<Byte>)
    ensures r.Read? ==> |r.rest| < |b|
  {
    if b == [] then Short else Read(b[0], b[1..])
  }

  function Get(b: seq<Byte>, n: nat): (r: Read<seq<Byte>>)
    ensures r.Read? ==> |r.rest| <= |b| && |r.value| == n
  {
    if n > |b| then Short else Read(b[..n], b[n..])
  }

  function GetInt16(b: seq<Byte>): (r: Read<nat>)
    ensures r.Read? ==> |r.rest| < |b|
  {
    if |b| < 2 then Short else Read(b[0] as int * 256 + b[1], b[2..])
  }

  function GetInt32(b: seq<Byte>): (r: Read<nat>)
    ensures r.Read? ==> |r.rest| < |b|
  {
    if |b| < 4 then Short
    else Read((b[0] as int * 256 + b[1]) * 65536 + (b[2] as int * 256 + b[3]), b[4..])
  }

  function GetCounted(b: seq<Byte>): (r: Read<seq<Byte>>)
    ensures r.Read? ==> |r.rest| < |b|
  {
    match GetByte(b)
    case Short => Short
    case Read(n, rest) => Get(rest, n)
  }

  function RestoreFile(b: seq<Byte>): (r: Read<File>)
    ensures r.Read? ==> |r.rest| < |b|
  {
    match GetCounted(b)
    case Short => Short
    case Read(name, b1) =>
      match GetInt16(b1)
      case Short => Short
      case Read(mode, b2) =>
        match GetInt32(b2)
        case Short => Short
        case Read(size, b3) =>
          if !IsLink(mode) then Read(File(name, mode, size, []), b3)
          else
            match GetCounted(b3)
            case Short => Short
            case Read(link, b4) => Read(File(name, mode, size, if link != [] && link[0] == 0 then [] else link), b4)
  }

  function RestoreFiles(b: seq<Byte>, n: nat): (r: Read<seq<File>>)
    ensures r.Read? ==> |r.rest| <= |b|
    decreases n
  {
    if n == 0 then Read([], b)
    else
      match RestoreFile(b)
      case Short => Short
      case Read(f, rest) =>
        match RestoreFiles(rest, n - 1)
        case Short => Short
        case Read(fs, end) => Read([f] + fs, end)
  }

  /** prepare_dirname: a slash at the end and one at the beginning are cut off. */
  function Prepare(name: seq<Byte>): (r: seq<Byte>)
    ensures |r| <= |name|
  {
    var s := if |name| > 1 && name[|name| - 1] == SLASH then name[..|name| - 1] else name;
    if |s| > 1 && s[0] == SLASH then s[1..] else s
  }

  /** A directory with its name as it stands in the buffer, and as it is kept. */
  datatype Stored = Stored(raw: seq<Byte>, dir: Dir)

  function RestoreDir(b: seq<Byte>): (r: Read<Stored>)
    ensures r.Read? ==> |r.rest| < |b|
  {
    match GetCounted(b)
    case Short => Short
    case Read(dn, b1) =>
      if dn == [] then Short
      else
        match GetInt32(b1)
        case Short => Short
        case Read(nfiles, b2) =>
          match RestoreFiles(b2, nfiles)
          case Short => Short
          case Read(files, b3) =>
            Read(Stored(dn[..StrLen(dn)], Dir(Prepare(dn[..|dn| - 1]), files)), b3)
  }

  function RestoreDirs(b: seq<Byte>, n: nat): (r: Read<seq<Stored>>)
    decreases n
  {
    if n == 0 then Read([], b)
    else
      match RestoreDir(b)
      case Short => Short
      case Read(d, rest) =>
        match RestoreDirs(rest, n - 1)
        case Short => Short
        case Read(ds, end) => Read([d] + ds, end)
  }

  /** Everything in a buffer. */
  function RestoreAll(b: seq<Byte>): Read<seq<Stored>> {
    match GetInt32(b)
    case Short => Short
    case Read(n, rest) => RestoreDirs(rest, n)
  }

  /** pkgfl_restore's choice: without a list of directories all are loaded, otherwise those on it, or those not. */
  predicate Loaded(raw: seq<Byte>, dirs: Option<set<seq<Byte>>>, inclusive: bool) {
    dirs.None? || (raw in dirs.value <==> inclusive)
  }

  function Load(ss: seq<Stored>, dirs: Option<set<seq<Byte>>>, inclusive: bool): seq<Dir> {
    if ss == [] then []
    else (if Loaded(ss[0].raw, dirs, inclusive) then [ss[0].dir] else []) + Load(ss[1..], dirs, inclusive)
  }
}

module FileListTheorems {
  import opened Wrappers
  import opened CodecSpec
  import opened FileListSpec

  /** What comes back of a file: its strings as far as their lengths fit into a byte. */
  function Trimmed(f: File): File {
    f.(name := f.name[..|f.name| % 256], link := f.link[..|f.link| % 256])
  }

  function TrimmedAll(fs: seq<File>): (r: seq<File>)
    ensures |r| == |fs| && forall i :: 0 <= i < |fs| ==> r[i] == Trimmed(fs[i])
  {
    seq(|fs|, i requires 0 <= i < |fs| => Trimmed(fs[i]))
  }

  function Returned(d: Dir): Stored {
    Stored(d.name, Dir(Prepare(d.name), TrimmedAll(d.files)))
  }

  function ReturnedAll(ds: seq<Dir>): (r: seq<Stored>)
    ensures |r| == |ds| && forall i :: 0 <= i < |ds| ==> r[i] == Returned(ds[i])
  {
    seq(|ds|, i requires 0 <= i < |ds| => Returned(ds[i]))
  }

  lemma CountedReturns(s: seq<Byte>, rest: seq<Byte>)
    ensures GetCounted(Counted(s) + rest) == Read(s[..|s| % 256], rest)
  {
    var n, b := |s| % 256, Counted(s) + rest;
    assert b[0] == n && b[1..] == s[..n] + rest;
    assert b[1..][..n] == s[..n] && b[1..][n..] == rest;
  }

  lemma Int16Returns(x: nat, rest: seq<Byte>)
    requires x <= UINT16_MAX
    ensures GetInt16(Int16(x) + rest) == Read(x, rest)
  {
    assert (Int16(x) + rest)[2..] == rest;
  }

  lemma Int32Returns(x: nat, rest: seq<Byte>)
    requires x <= UINT32_MAX
    ensures GetInt32(Int32(x) + rest) == Read(x, rest)
  {
    var b := Int32(x) + rest;
    assert b[0] == Int16(x / 65536)[0] && b[1] == Int16(x / 65536)[1];
    assert b[2] == Int16(x % 65536)[0] && b[3] == Int16(x % 65536)[1];
    assert b[4..] == rest;
  }

  lemma FileReturns(f: File, rest: seq<Byte>)
    requires WellformedFile(f)
    ensures RestoreFile(StoreFile(f) + rest) == Read(Trimmed(f), rest)
  {
    hide GetCounted, GetInt16, GetInt32, Counted, Int16, Int32;
    var link := if IsLink(f.mode) then Counted(f.link) else [];
    var b2 := Int32(f.size) + (link + rest);
    var b1 := Int16(f.mode) + b2;
    assert StoreFile(f) + rest == Counted(f.name) + b1;
    CountedReturns(f.name, b1);
    Int16Returns(f.mode, b2);
    Int32Returns(f.size, link + rest);
    if IsLink(f.mode) {
      CountedReturns(f.link, rest);
    } else {
      assert link + rest == rest;
    }
  }

  lemma {:induction false} FilesReturn(fs: seq<File>, rest: seq<Byte>)
    requires forall f :: f in fs ==> WellformedFile(f)
    ensures RestoreFiles(StoreFiles(fs) + rest, |fs|) == Read(TrimmedAll(fs), rest)
    decreases |fs|
  {
    hide StoreFile, RestoreFile, Trimmed;
    if fs == [] {
      assert StoreFiles(fs) + rest == rest;
    } else {
      FileReturns(fs[0], StoreFiles(fs[1..]) + rest);
      FilesReturn(fs[1..], rest);
      assert StoreFiles(fs) + rest == StoreFile(fs[0]) + (StoreFiles(fs[1..]) + rest);
      assert TrimmedAll(fs) == [Trimmed(fs[0])] + TrimmedAll(fs[1..]);
    }
  }

  lemma {:induction false} StrLenTerminated(name: seq<Byte>)
    requires NoZeros(name)
    ensures StrLen(name + NUL) == |name|
    decreases |name|
  {
    if name != [] {
      assert (name + NUL)[1..] == name[1..] + NUL;
      StrLenTerminated(name[1..]);
    }
  }

  lemma DirReturns(d: Dir, rest: seq<Byte>)
    requires Wellformed(d)
    ensures RestoreDir(StoreDir(d) + rest) == Read(Returned(d), rest)
  {
    hide GetCounted, GetInt32, Counted, Int32, StoreFiles, RestoreFiles, Prepare, StrLen;
    var b2 := StoreFiles(d.files) + rest;
    var b1 := Int32(|d.files|) + b2;
    var dn := d.name + NUL;
    assert StoreDir(d) + rest == Counted(dn) + b1;
    CountedReturns(dn, b1);
    assert dn[..|dn| % 256] == dn;
    Int32Returns(|d.files|, b2);
    FilesReturn(d.files, rest);
    StrLenTerminated(d.name);
    assert dn[..|dn| - 1] == d.name && dn[..|d.name|] == d.name;
  }

  lemma {:induction false} DirsReturn(ds: seq<Dir>, rest: seq<Byte>)
    requires forall d :: d in ds ==> Wellformed(d)
    ensures RestoreDirs(StoreDirs(ds) + rest, |ds|) == Read(ReturnedAll(ds), rest)
    decreases |ds|
  {
    hide StoreDir, RestoreDir, Returned;
    if ds == [] {
      assert StoreDirs(ds) + rest == rest;
    } else {
      DirReturns(ds[0], StoreDirs(ds[1..]) + rest);
      DirsReturn(ds[1..], rest);
      assert StoreDirs(ds) + rest == StoreDir(ds[0]) + (StoreDirs(ds[1..]) + rest);
      assert ReturnedAll(ds) == [Returned(ds[0])] + ReturnedAll(ds[1..]);
    }
  }

  /** Any stored selection reads back in its order, and nothing of what follows it is touched. */
  lemma StoredReturns(ds: seq<Dir>, which: Which, depdirs: set<seq<Byte>>, excluded: seq<Byte> -> bool, rest: seq<Byte>)
    requires |ds| <= UINT32_MAX && forall d :: d in ds ==> Wellformed(d)
    ensures RestoreAll(StoreList(ds, which, depdirs, excluded) + rest)
            == Read(ReturnedAll(Pick(ds, which, depdirs, excluded)), rest)
  {
    var picked := Pick(ds, which, depdirs, excluded);
    var count, body := Int32(|picked|), StoreDirs(picked);
    assert StoreList(ds, which, depdirs, excluded) == count + body;
    hide StoreList, Pick, StoreDirs, Wellformed, GetInt32, Int32, RestoreDirs, ReturnedAll;
    assert count + body + rest == count + (body + rest);
    Int32Returns(|picked|, body + rest);
    DirsReturn(picked, rest);
  }

  /** No slash at either end of the name, unless it is the name, and no string of more than 255 bytes. */
  predicate Survives(d: Dir) {
    && (|d.name| > 1 ==> d.name[0] != SLASH && d.name[|d.name| - 1] != SLASH)
    && forall f :: f in d.files ==> |f.name| <= 255 && |f.link| <= 255
  }

  /** Exactly then a directory comes back unchanged. */
  lemma SurvivesExactly(d: Dir)
    ensures Survives(d) <==> Returned(d).dir == d
  {
    if Survives(d) {
      forall i | 0 <= i < |d.files| ensures Trimmed(d.files[i]) == d.files[i] {
        assert d.files[i] in d.files;
      }
    }
    if Returned(d).dir == d {
      forall f | f in d.files ensures |f.name| <= 255 && |f.link| <= 255 {
        var i :| 0 <= i < |d.files| && d.files[i] == f;
        assert Trimmed(f) == f;
      }
    }
  }

  /** One slash is cut off at the end and one at the beginning, as long as something is left. */
  lemma PrepareCuts(name: seq<Byte>)
    requires name != []
    ensures Prepare([47] + name + [47]) == name
    ensures name[|name| - 1] != 47 ==> Prepare([47] + name) == name
    ensures name[0] != 47 ==> Prepare(name + [47]) == name
    ensures |name| == 1 || (name[0] != 47 && name[|name| - 1] != 47) ==> Prepare(name) == name
    ensures Prepare([47, 47]) == [47]
  {
    var both := [SLASH] + name + [SLASH];
    assert both[..|both| - 1] == [SLASH] + name && ([SLASH] + name)[1..] == name;
    assert (name + [SLASH])[..|name|] == name;
  }

  lemma {:induction false} LoadsAll(ds: seq<Dir>, inclusive: bool)
    requires forall d :: d in ds ==> Survives(d)
    ensures Load(ReturnedAll(ds), None, inclusive) == ds
    decreases |ds|
  {
    if ds != [] {
      SurvivesExactly(ds[0]);
      LoadsAll(ds[1..], inclusive);
      assert ReturnedAll(ds)[1..] == ReturnedAll(ds[1..]);
    }
  }

  /** Every directory is stored in exactly one of the two parts, so both together give the whole list back. */
  lemma {:induction false} PartsMakeWhole(ds: seq<Dir>, depdirs: set<seq<Byte>>)
    ensures var nothing := (n: seq<Byte>) => false;
            multiset(Pick(ds, DepDirs, depdirs, nothing)) + multiset(Pick(ds, NotDepDirs, depdirs, nothing)) == multiset(ds)
    decreases |ds|
  {
    if ds != [] {
      PartsMakeWhole(ds[1..], depdirs);
      assert ds == [ds[0]] + ds[1..];
    }
  }

  /** Stored in two parts and restored from both, the file list is the one it was. */
  lemma TwoPartsRoundTrip(ds: seq<Dir>, depdirs: set<seq<Byte>>, rest: seq<Byte>)
    requires |ds| <= UINT32_MAX && forall d :: d in ds ==> Wellformed(d) && Survives(d)
    ensures var nothing := (n: seq<Byte>) => false;
            var dep := RestoreAll(StoreList(ds, DepDirs, depdirs, nothing) + rest);
            var other := RestoreAll(StoreList(ds, NotDepDirs, depdirs, nothing) + rest);
            && dep.Read? && other.Read? && dep.rest == rest && other.rest == rest
            && (forall d :: d in Load(dep.value, None, true) ==> d.name in depdirs)
            && (forall d :: d in Load(other.value, None, true) ==> d.name !in depdirs)
            && multiset(Load(dep.value, None, true)) + multiset(Load(other.value, None, true)) == multiset(ds)
  {
    hide StoreList, RestoreAll, Wellformed, Survives;
    var nothing := (n: seq<Byte>) => false;
    StoredReturns(ds, DepDirs, depdirs, nothing, rest);
    StoredReturns(ds, NotDepDirs, depdirs, nothing, rest);
    LoadsAll(Pick(ds, DepDirs, depdirs, nothing), true);
    LoadsAll(Pick(ds, NotDepDirs, depdirs, nothing), true);
    PartsMakeWhole(ds, depdirs);
  }

  /** The elements at the places chosen, in order. */
  function Chosen<T>(s: seq<T>, places: set<nat>): seq<T> {
    if s == [] then []
    else Chosen(s[..|s| - 1], places) + (if |s| - 1 in places then [s[|s| - 1]] else [])
  }

  function DirsOf(ss: seq<Stored>): (r: seq<Dir>)
    ensures |r| == |ss| && forall i :: 0 <= i < |ss| ==> r[i] == ss[i].dir
  {
    seq(|ss|, i requires 0 <= i < |ss| => ss[i].dir)
  }

  lemma {:induction false} LoadOver(ss: seq<Stored>, s: Stored, dirs: Option<set<seq<Byte>>>, inclusive: bool)
    ensures Load(ss + [s], dirs, inclusive) == Load(ss, dirs, inclusive) + (if Loaded(s.raw, dirs, inclusive) then [s.dir] else [])
    decreases |ss|
  {
    if ss == [] {
      assert (ss + [s])[1..] == [];
    } else {
      hide Loaded;
      var head := if Loaded(ss[0].raw, dirs, inclusive) then [ss[0].dir] else [];
      var last := if Loaded(s.raw, dirs, inclusive) then [s.dir] else [];
      assert (ss + [s])[1..] == ss[1..] + [s] && (ss + [s])[0] == ss[0];
      LoadOver(ss[1..], s, dirs, inclusive);
      var more := Load(ss[1..], dirs, inclusive);
      assert head + (more + last) == (head + more) + last;
    }
  }

  lemma {:induction false} LoadIsChosen(ss: seq<Stored>, dirs: Option<set<seq<Byte>>>, inclusive: bool, places: set<nat>)
    requires forall i :: 0 <= i < |ss| ==> (i in places <==> Loaded(ss[i].raw, dirs, inclusive))
    ensures Load(ss, dirs, inclusive) == Chosen(DirsOf(ss), places)
    decreases |ss|
  {
    if ss != [] {
      var front, last := ss[..|ss| - 1], ss[|ss| - 1];
      assert ss == front + [last] && DirsOf(ss)[..|ss| - 1] == DirsOf(front);
      LoadOver(front, last, dirs, inclusive);
      LoadIsChosen(front, dirs, inclusive, places);
    }
  }

  /**
   * With a list of directories, including takes from any buffer those whose names are on it and excluding
   * those whose names are not, complementary parts of the full list, each in its order.
   */
  lemma FiltersComplement(ss: seq<Stored>, ds: set<seq<Byte>>, inclusive: bool)
    ensures var taken, left := set i: nat | i < |ss| && ss[i].raw in ds, set i: nat | i < |ss| && ss[i].raw !in ds;
            && taken !! left && (forall i: nat :: i < |ss| ==> i in taken + left)
            && Load(ss, Some(ds), true) == Chosen(DirsOf(ss), taken) && Load(ss, Some(ds), false) == Chosen(DirsOf(ss), left)
            && Load(ss, None, inclusive) == Chosen(DirsOf(ss), taken + left) == DirsOf(ss)
  {
    var taken, left := set i: nat | i < |ss| && ss[i].raw in ds, set i: nat | i < |ss| && ss[i].raw !in ds;
    LoadIsChosen(ss, Some(ds), true, taken);
    LoadIsChosen(ss, Some(ds), false, left);
    LoadIsChosen(ss, None, inclusive, taken + left);
    ChooseAll(DirsOf(ss), taken + left);
  }

  lemma {:induction false} ChooseAll<T>(s: seq<T>, places: set<nat>)
    requires forall i :: 0 <= i < |s| ==> i in places
    ensures Chosen(s, places) == s
    decreases |s|
  {
    if s != [] {
      ChooseAll(s[..|s| - 1], places);
      assert s == s[..|s| - 1] + [s[|s| - 1]];
    }
  }

  /** What is picked for storing, said place by place. */
  lemma {:induction false} PickChooses(ds: seq<Dir>, which: Which, depdirs: set<seq<Byte>>, excluded: seq<Byte> -> bool, places: set<nat>)
    requires forall i :: 0 <= i < |ds| ==>
               (i in places <==> which == All || (which == DepDirs && ds[i].name in depdirs) ||
                                 (which == NotDepDirs && ds[i].name !in depdirs && !excluded(ds[i].name)))
    ensures Pick(ds, which, depdirs, excluded) == Chosen(ds, places)
    decreases |ds|
  {
    if ds != [] {
      var front, last := ds[..|ds| - 1], ds[|ds| - 1];
      assert ds == front + [last];
      PickOver(front, last, which, depdirs, excluded);
      PickChooses(front, which, depdirs, excluded, places);
    }
  }

  lemma {:induction false} PickOver(ds: seq<Dir>, d: Dir, which: Which, depdirs: set<seq<Byte>>, excluded: seq<Byte> -> bool)
    ensures Pick(ds + [d], which, depdirs, excluded) ==
            Pick(ds, which, depdirs, excluded) + (if Selected(d, which, depdirs, excluded) then [d] else [])
    decreases |ds|
  {
    if ds == [] {
      assert (ds + [d])[1..] == [];
    } else {
      hide Selected;
      var head := if Selected(ds[0], which, depdirs, excluded) then [ds[0]] else [];
      var last := if Selected(d, which, depdirs, excluded) then [d] else [];
      assert (ds + [d])[1..] == ds[1..] + [d] && (ds + [d])[0] == ds[0];
      PickOver(ds[1..], d, which, depdirs, excluded);
      var more := Pick(ds[1..], which, depdirs, excluded);
      assert head + (more + last) == (head + more) + last;
    }
  }

  lemma {:induction false} PickAll(ds: seq<Dir>, depdirs: set<seq<Byte>>, excluded: seq<Byte> -> bool)
    ensures Pick(ds, All, depdirs, excluded) == ds
    decreases |ds|
  {
    if ds != [] { PickAll(ds[1..], depdirs, excluded); }
  }

  lemma ReturnedAsIs(fl: seq<Dir>)
    requires forall d :: d in fl ==> Survives(d)
    ensures DirsOf(ReturnedAll(fl)) == fl
    ensures forall i :: 0 <= i < |fl| ==> ReturnedAll(fl)[i].raw == fl[i].name
  {
    forall i | 0 <= i < |fl| ensures ReturnedAll(fl)[i].dir == fl[i] {
      assert fl[i] in fl;
      SurvivesExactly(fl[i]);
    }
  }

  /** Stored whole and restored with a list of directories, the file list gives those on the list, or those not on it. */
  lemma ListRestores(fl: seq<Dir>, depdirs: set<seq<Byte>>, excluded: seq<Byte> -> bool, ds: set<seq<Byte>>, rest: seq<Byte>)
    requires |fl| <= UINT32_MAX && forall d :: d in fl ==> Wellformed(d) && Survives(d)
    ensures var r := RestoreAll(StoreList(fl, All, depdirs, excluded) + rest);
            && r.Read? && r.rest == rest
            && Load(r.value, Some(ds), true) == Chosen(fl, set i: nat | i < |fl| && fl[i].name in ds)
            && Load(r.value, Some(ds), false) == Chosen(fl, set i: nat | i < |fl| && fl[i].name !in ds)
  {
    hide *;
    StoredReturns(fl, All, depdirs, excluded, rest);
    PickAll(fl, depdirs, excluded);
    ReturnedAsIs(fl);
    var ss := ReturnedAll(fl);
    FiltersComplement(ss, ds, true);
    assert (set i: nat | i < |ss| && ss[i].raw in ds) == (set i: nat | i < |fl| && fl[i].name in ds);
    assert (set i: nat | i < |ss| && ss[i].raw !in ds) == (set i: nat | i < |fl| && fl[i].name !in ds);
  }

  // ----- the bytes, place by place

  /** Four bytes, the most significant first. */
  lemma Int32Value(x: nat)
    requires x <= UINT32_MAX
    ensures var s := Int32(x); |s| == 4 && s[0] as int * 16777216 + s[1] as int * 65536 + s[2] as int * 256 + s[3] == x
  {
  }

  /** A file: name, mode and size, and for a symbolic link (type 10 in the mode) what it leads to. */
  lemma FileLayout(f: File)
    requires WellformedFile(f) && |f.name| <= 255 && |f.link| <= 255
    ensures StoreFile(f) ==
            ([|f.name|] + f.name) + ([f.mode / 256, f.mode % 256] +
            (Int32(f.size) + (if f.mode / 4096 == 10 then [|f.link|] + f.link else [])))
  {
    assert Int16(f.mode) == [f.mode / 256, f.mode % 256];
    CountedBytes(f.name);
    CountedBytes(f.link);
  }

  lemma CountedBytes(s: seq<Byte>)
    requires |s| <= 255
    ensures Counted(s) == [|s|] + s
  {
    assert s[..|s|] == s;
  }

  /** A directory: its name with a zero, the number of files, and the files; a list: how many, and each of them. */
  lemma ListLayout(ds: seq<Dir>, which: Which, depdirs: set<seq<Byte>>, excluded: seq<Byte> -> bool)
    requires |ds| <= UINT32_MAX && forall d :: d in ds ==> Wellformed(d)
    ensures StoreList(ds, which, depdirs, excluded) ==
            Int32(|Pick(ds, which, depdirs, excluded)|) + StoreDirs(Pick(ds, which, depdirs, excluded))
    ensures forall d :: Wellformed(d) ==>
              StoreDir(d) == ([|d.name| + 1] + (d.name + [0])) + (Int32(|d.files|) + StoreFiles(d.files))
  {
    hide Pick, Int32, StoreDirs, StoreFiles;
    forall d | Wellformed(d)
      ensures StoreDir(d) == ([|d.name| + 1] + (d.name + [0])) + (Int32(|d.files|) + StoreFiles(d.files))
    {
      CountedBytes(d.name + NUL);
    }
  }
}
