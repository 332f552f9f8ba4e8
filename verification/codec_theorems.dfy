/** Storing capabilities and restoring them gives them back. */
module CodecTheorems {
  import opened Wrappers
  import opened CodecSpec

  // ----- one record

  lemma {:induction false} StrLenOf(s: seq<Byte>, more: seq<Byte>)
    requires NoZeros(s) && (more == [] || more[0] == 0)
    ensures StrLen(s + more) == |s|
    decreases |s|
  {
    if s == [] {
      assert s + more == more;
    } else {
      assert (s + more)[1..] == s[1..] + more;
      StrLenOf(s[1..], more);
    }
  }

  function LastPart(e: Evr): seq<Byte>
    requires e.Evr?
  {
    if e.release.Some? then e.release.value else e.ver
  }

  lemma BuffEnds(e: Evr)
    requires e.Evr?
    ensures var m := if e.release.Some? then RelOfs(e) else VerOfs(e);
            && m + |LastPart(e)| == |EvrBytes(e)| && m <= |EvrBuff(e)| && EvrBuff(e)[m..] == LastPart(e) + NUL
  {
    var first := NUL + e.epoch + e.ver;
    if e.release.Some? {
      assert EvrBuff(e) == first + NUL + (LastPart(e) + NUL);
    } else {
      assert EvrBuff(e) == NUL + e.epoch + (LastPart(e) + NUL);
    }
  }

  /** The offsets of a laid out capreq lead to all of its EVR bytes. */
  lemma EvrSizeIs(c: Capreq, e: Evr)
    requires LaidOut(c, e)
    ensures Consistent(c) && EvrSize(c) == |EvrBytes(e)| && |c.buff| == EvrSize(c) + 1
  {
    if e.Evr? {
      BuffEnds(e);
      StrLenOf(LastPart(e), NUL);
    }
  }

  lemma SwapTwice(buff: seq<Byte>, ofs: nat)
    requires ofs == 0 || ofs + 4 <= |buff|
    ensures Swap(Swap(buff, ofs), ofs) == buff
  {
  }

  /** Only the epoch moves, so the first and the last byte stay zero. */
  lemma SwapKeepsRim(c: Capreq, e: Evr)
    requires LaidOut(c, e) && e.Evr?
    ensures Consistent(c) && 0 < EvrSize(c) < |c.buff|
    ensures Swap(c.buff, c.epOfs)[0] == 0 && Swap(c.buff, c.epOfs)[EvrSize(c)] == 0
  {
    EvrSizeIs(c, e);
    assert c.buff[0] == 0;
  }

  lemma RimAround(s: seq<Byte>, n: nat)
    requires |s| == n + 1 && n > 0 && s[0] == 0 && s[n] == 0
    ensures NUL + s[1..n] + NUL == s
  {
  }

  function RestoredCap(c: Capreq, name: seq<Byte>): Capreq {
    c.(relflags := c.relflags % 128 + SPLITTED, flags := c.flags % CAPREQ_RT, name := name)
  }

  lemma OffsetReturns(o: Byte, nameLen: nat)
    requires o == 0 || o + nameLen + 1 <= UINT8_MAX
    ensures UnshiftOfs(ShiftOfs(o, nameLen), nameLen) == o
  {
  }

  lemma BuffReturns(c: Capreq, e: Evr, name: seq<Byte>)
    requires LaidOut(c, e) && Consistent(c) && NoZeros(name)
    ensures StrLen(name + EvrPart(c)) == |name|
    ensures RestoredBuff(name + EvrPart(c), |name|) == Swap(c.buff, c.epOfs)
    ensures e.NoEvr? <==> EvrPart(c) == []
  {
    EvrSizeIs(c, e);
    var s, n := Swap(c.buff, c.epOfs), EvrSize(c);
    assert EvrPart(c) == s[..n] && |s| == n + 1;
    if e.Evr? {
      SwapKeepsRim(c, e);
      hide *;
      RimReturns(name, s, n);
    } else {
      assert s == NUL && n == 0;
      hide *;
      NulReturns(name, s[..n]);
    }
  }

  lemma RimReturns(name: seq<Byte>, s: seq<Byte>, n: nat)
    requires NoZeros(name) && |s| == n + 1 && n > 0 && s[0] == 0 && s[n] == 0
    ensures StrLen(name + s[..n]) == |name| && RestoredBuff(name + s[..n], |name|) == s
  {
    hide StrLen;
    StrLenOf(name, s[..n]);
    assert (name + s[..n])[|name| + 1..] == s[1..n];
    RimAround(s, n);
  }

  lemma NulReturns(name: seq<Byte>, none: seq<Byte>)
    requires NoZeros(name) && none == []
    ensures StrLen(name + none) == |name| && RestoredBuff(name + none, |name|) == NUL
  {
    hide StrLen;
    StrLenOf(name, none);
    assert name + none == name;
  }

  lemma OffsetsFit(c: Capreq, e: Evr, nameLen: nat)
    requires LaidOut(c, e) && 6 + |EvrBytes(e)| + nameLen <= UINT8_MAX
    ensures c.epOfs + nameLen + 1 <= UINT8_MAX && c.verOfs + nameLen + 1 <= UINT8_MAX
    ensures c.relOfs + nameLen + 1 <= UINT8_MAX
  {
  }

  lemma FromRecordReturns(c: Capreq, e: Evr, relflags: Byte, name: seq<Byte>)
    requires LaidOut(c, e) && Consistent(c) && 6 + EvrSize(c) + |name| <= UINT8_MAX
    requires NoZeros(name) && relflags % 128 == c.relflags % 128
    ensures FromRecord(Header(c, relflags, |name|)[1..6], name + EvrPart(c)) == Some(RestoredCap(c, name))
  {
    hide *;
    BuffReturns(c, e, name);
    EvrSizeIs(c, e);
    OffsetsFit(c, e, |name|);
    HeaderFields(c, relflags, |name|);
    var rest := name + EvrPart(c);
    assert rest[..|name|] == name;
    FromFields(c, relflags, name, rest);
  }

  lemma HeaderFields(c: Capreq, relflags: Byte, nameLen: nat)
    requires Consistent(c) && 6 + EvrSize(c) + nameLen <= UINT8_MAX
    ensures Header(c, relflags, nameLen)[1..6] == HeadFields(c, relflags, nameLen)
    ensures c.epOfs == 0 || c.epOfs + 4 <= |c.buff|
  {
    hide EvrSize, MaxOfs, ShiftOfs;
  }

  /** The fields of a record before its zero, less the size. */
  function HeadFields(c: Capreq, relflags: Byte, nameLen: nat): seq<Byte> {
    [relflags, c.flags % CAPREQ_RT, ShiftOfs(c.epOfs, nameLen), ShiftOfs(c.verOfs, nameLen), ShiftOfs(c.relOfs, nameLen)]
  }

  lemma FromFields(c: Capreq, relflags: Byte, name: seq<Byte>, rest: seq<Byte>)
    requires c.epOfs == 0 || c.epOfs + 4 <= |c.buff|
    requires c.epOfs + |name| + 1 <= UINT8_MAX && c.verOfs + |name| + 1 <= UINT8_MAX && c.relOfs + |name| + 1 <= UINT8_MAX
    requires StrLen(rest) == |name| && rest[..|name|] == name && relflags % 128 == c.relflags % 128
    requires RestoredBuff(rest, |name|) == Swap(c.buff, c.epOfs)
    ensures FromRecord(HeadFields(c, relflags, |name|), rest) == Some(RestoredCap(c, name))
  {
    OffsetReturns(c.epOfs, |name|);
    OffsetReturns(c.verOfs, |name|);
    OffsetReturns(c.relOfs, |name|);
    SwapTwice(c.buff, c.epOfs);
    hide StrLen, RestoredBuff, Swap, ShiftOfs, UnshiftOfs;
    var head := HeadFields(c, relflags, |name|);
    assert head[0] == relflags && head[1] == c.flags % CAPREQ_RT && UnshiftOfs(head[2], |name|) == c.epOfs;
    assert UnshiftOfs(head[3], |name|) == c.verOfs && UnshiftOfs(head[4], |name|) == c.relOfs;
  }

  /** The bytes of b from pos on begin with r. */
  ghost predicate Holds(b: seq<Byte>, pos: nat, r: seq<Byte>) {
    pos + |r| <= |b| && b[pos..pos + |r|] == r
  }

  lemma HoldsBoth(b: seq<Byte>, pos: nat, r: seq<Byte>, s: seq<Byte>)
    requires Holds(b, pos, r + s)
    ensures Holds(b, pos, r) && Holds(b, pos + |r|, s)
  {
    var t := b[pos..pos + |r| + |s|];
    assert t == r + s;
    assert b[pos..pos + |r|] == t[..|r|];
    assert b[pos + |r|..pos + |r| + |s|] == t[|r|..];
  }

  /** A record comes back with the name it was given; nothing wraps around. */
  lemma RecordRestores(c: Capreq, e: Evr, relflags: Byte, name: seq<Byte>, b: seq<Byte>, pos: nat)
    requires LaidOut(c, e) && Consistent(c) && 6 + EvrSize(c) + |name| <= UINT8_MAX
    requires NoZeros(name) && relflags % 128 == c.relflags % 128
    requires Holds(b, pos, Record(c, relflags, name)) && pos + |Record(c, relflags, name)| < |b|
    ensures Restore(b, pos) ==
            Restored(RestoredCap(c, name), relflags >= SPLITTED, pos + |Record(c, relflags, name)|)
  {
    hide *;
    FromRecordReturns(c, e, relflags, name);
    RecordIs(c, relflags, name);
    RestoreReads(b, pos, Header(c, relflags, |name|), name + EvrPart(c), RestoredCap(c, name));
  }

  /** A record is seven bytes of header, the first two of them the size and the flags, and its body. */
  lemma RecordIs(c: Capreq, relflags: Byte, name: seq<Byte>)
    requires Consistent(c) && 6 + EvrSize(c) + |name| <= UINT8_MAX
    ensures var h, body := Header(c, relflags, |name|), name + EvrPart(c);
            |h| == 7 && h[0] == 6 + |body| && h[1] == relflags && Record(c, relflags, name) == h + body
  {
    hide ShiftOfs, MaxOfs;
  }

  lemma SliceOfSlice(b: seq<Byte>, i: nat, j: nat, k: nat, l: nat)
    requires i <= j <= |b| && k <= l <= j - i
    ensures b[i..j][k..l] == b[i + k..i + l]
  {
    var inner, outer := b[i..j][k..l], b[i + k..i + l];
    assert |inner| == |outer|;
    forall x | 0 <= x < |inner| ensures inner[x] == outer[x] {
      assert inner[x] == b[i..j][k + x] == b[i + k + x];
    }
  }

  lemma RestoreReads(b: seq<Byte>, pos: nat, h: seq<Byte>, body: seq<Byte>, cap: Capreq)
    requires |h| == 7 && h[0] == 6 + |body| && FromRecord(h[1..6], body) == Some(cap)
    requires Holds(b, pos, h + body) && pos + 7 + |body| < |b|
    ensures Restore(b, pos) == Restored(cap, h[1] >= SPLITTED, pos + 7 + |body|)
  {
    hide FromRecord, StrLen;
    HoldsBoth(b, pos, h, body);
    assert b[pos..pos + 7] == h;
    SliceOfSlice(b, pos, pos + 7, 1, 6);
    assert b[pos] == h[0] && b[pos + 1] == h[1];
  }

  // ----- one capability, in one record or in parts

  function {:induction false} Joined(chunks: seq<seq<Byte>>): (r: seq<Byte>)
    ensures |r| <= TotalLength(chunks)
  {
    if chunks == [] then [] else NewName(chunks[0]) + Joined(chunks[1..])
  }

  function TotalLength(chunks: seq<seq<Byte>>): nat {
    if chunks == [] then 0 else |chunks[0]| + TotalLength(chunks[1..])
  }

  function ChunksOf(c: Capreq): seq<seq<Byte>>
    requires Storable(c)
  {
    Chunks(c.name, ChunkSize(EvrSize(c)))
  }

  /** The name that comes back. */
  function StoredName(c: Capreq): seq<Byte>
    requires Storable(c)
  {
    if NeedsSplit(c) then Joined(ChunksOf(c)) else c.name
  }

  /** The capreq that comes back: without runtime flags, and marked as allocated. */
  function Result(c: Capreq): Capreq
    requires Storable(c)
  {
    RestoredCap(c, StoredName(c))
  }

  function FirstName(c: Capreq): (r: seq<Byte>)
    requires Storable(c)
    ensures 6 + EvrSize(c) + |r| <= UINT8_MAX
  {
    if NeedsSplit(c) then NewName(ChunksOf(c)[0]) else c.name
  }

  function FirstFlags(c: Capreq): (r: Byte)
    requires Storable(c)
    ensures r % 128 == c.relflags % 128 && (r >= SPLITTED <==> NeedsSplit(c))
  {
    if NeedsSplit(c) then c.relflags % 128 + SPLITTED else c.relflags % 128
  }

  function FirstRecord(c: Capreq): seq<Byte>
    requires Storable(c)
  {
    Record(c, FirstFlags(c), FirstName(c))
  }

  function OtherRecords(c: Capreq): seq<Byte>
    requires Storable(c)
  {
    if NeedsSplit(c) then PartRecords(ChunksOf(c)[1..]) else []
  }

  lemma StoreInTwo(c: Capreq)
    requires Storable(c)
    ensures Store(c) == FirstRecord(c) + OtherRecords(c)
  {
  }

  lemma {:induction false} ChunksNoZeros(name: seq<Byte>, size: nat)
    requires size > 0 && NoZeros(name)
    ensures forall k :: 0 <= k < |Chunks(name, size)| ==> NoZeros(Chunks(name, size)[k])
    decreases |name|
  {
    if |name| > size {
      assert forall i :: 0 <= i < |name| - size ==> name[size..][i] == name[size + i];
      ChunksNoZeros(name[size..], size);
    }
  }

  lemma NewNameNoZeros(name: seq<Byte>)
    requires NoZeros(name)
    ensures NoZeros(NewName(name))
  {
    if IsRpmlib(name) {
      var p := name[7..];
      assert forall i :: 0 <= i < |p| ==> p[i] == name[7 + i];
    }
  }

  lemma FirstNameNoZeros(c: Capreq, e: Evr)
    requires LaidOut(c, e) && Storable(c)
    ensures NoZeros(FirstName(c))
  {
    if NeedsSplit(c) {
      ChunksNoZeros(c.name, ChunkSize(EvrSize(c)));
      NewNameNoZeros(ChunksOf(c)[0]);
    }
  }

  /** The first record of a capability is never taken for a part. */
  lemma FirstRestores(c: Capreq, e: Evr, b: seq<Byte>, pos: nat)
    requires LaidOut(c, e) && Storable(c) && c.relflags % 128 < PART
    requires Holds(b, pos, FirstRecord(c)) && pos + |FirstRecord(c)| < |b|
    ensures Restore(b, pos) == Restored(RestoredCap(c, FirstName(c)), NeedsSplit(c), pos + |FirstRecord(c)|)
    ensures !IsPart(RestoredCap(c, FirstName(c)))
  {
    hide *;
    FirstIsRecord(c, e);
    FirstNameNoZeros(c, e);
    RecordRestores(c, e, FirstFlags(c), FirstName(c), b, pos);
  }

  lemma FirstIsRecord(c: Capreq, e: Evr)
    requires LaidOut(c, e) && Storable(c) && c.relflags % 128 < PART
    ensures FirstRecord(c) == Record(c, FirstFlags(c), FirstName(c)) && Consistent(c)
    ensures 6 + EvrSize(c) + |FirstName(c)| <= UINT8_MAX && FirstFlags(c) % 128 == c.relflags % 128
    ensures (FirstFlags(c) >= SPLITTED) == NeedsSplit(c)
    ensures !IsPart(RestoredCap(c, FirstName(c)))
  {
    hide Record, NoZeros;
  }

  lemma PartIsLaidOut(chunk: seq<Byte>)
    requires NoZeros(chunk) && |chunk| <= 249
    ensures LaidOut(PartOf(chunk), NoEvr) && Storable(PartOf(chunk)) && EvrSize(PartOf(chunk)) == 0
    ensures !NeedsSplit(PartOf(chunk)) && Store(PartOf(chunk)) == PartRecord(chunk)
  {
    NewNameNoZeros(chunk);
  }

  lemma PartRecordRestores(b: seq<Byte>, pos: nat, chunk: seq<Byte>)
    requires |chunk| <= 249 && NoZeros(chunk)
    requires Holds(b, pos, PartRecord(chunk)) && pos + |PartRecord(chunk)| < |b|
    ensures var r := Restore(b, pos);
            r.Restored? && IsPart(r.cap) && r.cap.name == NewName(chunk) && r.next == pos + |PartRecord(chunk)|
  {
    var part := PartOf(chunk);
    PartIsLaidOut(chunk);
    assert part.relflags == PART && part.name == NewName(chunk);
    NewNameNoZeros(chunk);
    hide LaidOut, EvrSize, Consistent, Record, Restore, PartOf, NewName, NeedsSplit, Store, Storable, NoZeros;
    RecordRestores(part, NoEvr, PART, part.name, b, pos);
  }

  lemma PartRestores(b: seq<Byte>, pos: nat, name: seq<Byte>, chunk: seq<Byte>)
    requires |chunk| <= 249 && NoZeros(chunk)
    requires Holds(b, pos, PartRecord(chunk)) && pos + |PartRecord(chunk)| < |b|
    ensures RestoreParts(b, pos, name) == RestoreParts(b, pos + |PartRecord(chunk)|, name + NewName(chunk))
  {
    hide Restore, IsPart, PartRecord, NewName, Holds;
    PartRecordRestores(b, pos, chunk);
  }

  ghost predicate Parts(chunks: seq<seq<Byte>>) {
    forall k :: 0 <= k < |chunks| ==> |chunks[k]| <= 249 && NoZeros(chunks[k])
  }

  lemma PartStep(b: seq<Byte>, pos: nat, name: seq<Byte>, chunks: seq<seq<Byte>>) returns (size: nat)
    requires Parts(chunks) && chunks != []
    requires Holds(b, pos, PartRecords(chunks)) && pos + |PartRecords(chunks)| < |b|
    ensures Parts(chunks[1..]) && Holds(b, pos + size, PartRecords(chunks[1..]))
    ensures size + |PartRecords(chunks[1..])| == |PartRecords(chunks)|
    ensures RestoreParts(b, pos, name) == RestoreParts(b, pos + size, name + NewName(chunks[0]))
  {
    hide RestoreParts, Restore, PartRecord, NewName;
    var r := PartRecord(chunks[0]);
    size := |r|;
    HoldsBoth(b, pos, r, PartRecords(chunks[1..]));
    PartRestores(b, pos, name, chunks[0]);
  }

  /** Reading over the parts collects their names. */
  lemma {:induction false} PartsRestore(b: seq<Byte>, pos: nat, name: seq<Byte>, chunks: seq<seq<Byte>>)
    requires Parts(chunks)
    requires Holds(b, pos, PartRecords(chunks)) && pos + |PartRecords(chunks)| < |b|
    ensures RestoreParts(b, pos, name) == RestoreParts(b, pos + |PartRecords(chunks)|, name + Joined(chunks))
    decreases |chunks|
  {
    hide RestoreParts, Restore, NewName, Holds;
    if chunks == [] {
      assert name + Joined(chunks) == name && pos + |PartRecords(chunks)| == pos;
    } else {
      var size := PartStep(b, pos, name, chunks);
      JoinedInTwo(name, NewName(chunks[0]), chunks);
      PartsRestore(b, pos + size, name + NewName(chunks[0]), chunks[1..]);
    }
  }

  lemma JoinedInTwo(name: seq<Byte>, first: seq<Byte>, chunks: seq<seq<Byte>>)
    requires chunks != [] && first == NewName(chunks[0])
    ensures name + first + Joined(chunks[1..]) == name + Joined(chunks)
  {
  }

  // ----- a whole array

  ghost predicate AllValid(cs: seq<Capreq>) {
    forall k :: 0 <= k < |cs| ==> Valid(cs[k]) && Storable(cs[k])
  }

  function Results(cs: seq<Capreq>): (r: seq<Capreq>)
    requires forall k :: 0 <= k < |cs| ==> Storable(cs[k])
    ensures |r| == |cs| && forall k :: 0 <= k < |cs| ==> r[k] == Result(cs[k])
  {
    seq(|cs|, i requires 0 <= i < |cs| => Result(cs[i]))
  }

  lemma ResultsStep(cs: seq<Capreq>)
    requires cs != [] && forall k :: 0 <= k < |cs| ==> Storable(cs[k])
    ensures Results(cs) == [Result(cs[0])] + Results(cs[1..])
  {
    hide Result, Storable;
  }

  /** What is left to read once the first record of cs[0] has been: its parts, the others, a newline. */
  ghost predicate AtRest(b: seq<Byte>, pos: nat, cs: seq<Capreq>)
    requires AllValid(cs)
  {
    cs != [] && pos <= |b| && b[pos..] == OtherRecords(cs[0]) + (StoreAll(cs[1..]) + NEWLINE)
  }

  ghost predicate AtStart(b: seq<Byte>, pos: nat, cs: seq<Capreq>)
    requires AllValid(cs)
  {
    pos <= |b| && b[pos..] == StoreAll(cs) + NEWLINE
  }

  lemma SplitBytes(b: seq<Byte>, pos: nat, r: seq<Byte>, more: seq<Byte>)
    requires pos <= |b| && b[pos..] == r + more
    ensures Holds(b, pos, r) && pos + |r| <= |b| && b[pos + |r|..] == more
  {
    assert Holds(b, pos, r + more);
    HoldsBoth(b, pos, r, more);
  }

  lemma StoreAllInThree(cs: seq<Capreq>)
    requires cs != [] && forall k :: 0 <= k < |cs| ==> Storable(cs[k])
    ensures StoreAll(cs) + NEWLINE ==
            FirstRecord(cs[0]) + (OtherRecords(cs[0]) + (StoreAll(cs[1..]) + NEWLINE))
  {
    hide Storable, Store, FirstRecord, OtherRecords;
    StoreThree(cs[0], StoreAll(cs[1..]));
  }

  lemma StoreThree(c: Capreq, tail: seq<Byte>)
    requires Storable(c)
    ensures Store(c) + tail + NEWLINE == FirstRecord(c) + (OtherRecords(c) + (tail + NEWLINE))
  {
    hide Storable, Store, FirstRecord, OtherRecords;
    StoreInTwo(c);
    FourInLine(FirstRecord(c), OtherRecords(c), tail, NEWLINE);
  }

  lemma FourInLine(a: seq<Byte>, b: seq<Byte>, c: seq<Byte>, d: seq<Byte>)
    ensures a + b + c + d == a + (b + (c + d))
  {
  }

  lemma EnterBytes(b: seq<Byte>, pos: nat, cs: seq<Capreq>)
    requires AllValid(cs) && cs != [] && AtStart(b, pos, cs)
    ensures Holds(b, pos, FirstRecord(cs[0])) && pos + |FirstRecord(cs[0])| < |b|
    ensures AtRest(b, pos + |FirstRecord(cs[0])|, cs)
  {
    hide Store, FirstRecord, OtherRecords, Valid, Storable, StoreAll;
    StoreAllInThree(cs);
    SplitBytes(b, pos, FirstRecord(cs[0]), OtherRecords(cs[0]) + (StoreAll(cs[1..]) + NEWLINE));
  }

  lemma HeadValid(cs: seq<Capreq>) returns (e: Evr)
    requires AllValid(cs) && cs != []
    ensures LaidOut(cs[0], e) && Storable(cs[0]) && cs[0].relflags % 128 < PART
  {
    hide LaidOut, Storable;
    assert Valid(cs[0]);
    e :| LaidOut(cs[0], e);
  }

  lemma HeadAndTailValid(cs: seq<Capreq>)
    requires AllValid(cs) && cs != []
    ensures Storable(cs[0]) && AllValid(cs[1..]) && (|cs| > 1 ==> Storable(cs[1]))
  {
    hide Valid, Storable;
  }

  lemma EnterFirst(b: seq<Byte>, pos: nat, cs: seq<Capreq>)
    requires AllValid(cs) && cs != [] && AtStart(b, pos, cs)
    ensures var next := pos + |FirstRecord(cs[0])|;
            && AtRest(b, next, cs) && !IsPart(RestoredCap(cs[0], FirstName(cs[0])))
            && Restore(b, pos) == Restored(RestoredCap(cs[0], FirstName(cs[0])), NeedsSplit(cs[0]), next)
  {
    EnterBytes(b, pos, cs);
    var e := HeadValid(cs);
    hide *;
    FirstRestores(cs[0], e, b, pos);
  }

  lemma PartsOf(c: Capreq)
    requires Valid(c) && Storable(c) && NeedsSplit(c)
    ensures ChunksOf(c) != [] && Parts(ChunksOf(c)[1..]) && OtherRecords(c) == PartRecords(ChunksOf(c)[1..])
    ensures FirstName(c) + Joined(ChunksOf(c)[1..]) == StoredName(c)
  {
    var e :| LaidOut(c, e);
    ChunksNoZeros(c.name, ChunkSize(EvrSize(c)));
  }

  lemma LeaveParts(b: seq<Byte>, pos: nat, cs: seq<Capreq>)
    requires AllValid(cs) && AtRest(b, pos, cs) && NeedsSplit(cs[0])
    ensures AtStart(b, pos + |OtherRecords(cs[0])|, cs[1..])
    ensures RestoreParts(b, pos, FirstName(cs[0])) ==
            RestoreParts(b, pos + |OtherRecords(cs[0])|, StoredName(cs[0]))
  {
    hide OtherRecords, FirstName, StoredName, RestoreParts, Restore, Store, StoreAll, Valid, Storable, NeedsSplit,
         PartRecords, ChunksOf, Parts, Joined;
    PartsOf(cs[0]);
    SplitBytes(b, pos, OtherRecords(cs[0]), StoreAll(cs[1..]) + NEWLINE);
    PartsRestore(b, pos, FirstName(cs[0]), ChunksOf(cs[0])[1..]);
  }

  /** The runtime flags are not stored. */
  lemma NeverBastard(c: Capreq, name: seq<Byte>)
    ensures !IsBastard(RestoredCap(c, name))
  {
  }

  lemma {:induction false} ArrayFromStart(b: seq<Byte>, pos: nat, cs: seq<Capreq>, i: nat, n: nat)
    requires AllValid(cs) && AtStart(b, pos, cs) && n == i + |cs|
    ensures RestoreFrom(b, pos, i, n) == Results(cs)
    decreases |cs|, 1
  {
    hide Restore, AtStart, AtRest, FirstRecord, FirstName, NeedsSplit, RestoredCap, RestoreRest, Valid, Storable;
    if cs != [] {
      EnterFirst(b, pos, cs);
      NeverBastard(cs[0], FirstName(cs[0]));
      ArrayFromRest(b, pos + |FirstRecord(cs[0])|, cs, i, n);
    }
  }

  /** After the parts of a capability comes the first record of cs[0], or nothing. */
  lemma NextIsRegular(b: seq<Byte>, pos: nat, cs: seq<Capreq>) returns (r: Restored)
    requires AllValid(cs) && AtStart(b, pos, cs)
    ensures r == Restore(b, pos) && (r.Restored? ==> !IsPart(r.cap))
    ensures cs == [] ==> r == Null
    ensures cs != [] ==> AtRest(b, pos + |FirstRecord(cs[0])|, cs)
    ensures cs != [] ==> r == Restored(RestoredCap(cs[0], FirstName(cs[0])), NeedsSplit(cs[0]), pos + |FirstRecord(cs[0])|)
  {
    hide FirstName, NeedsSplit, RestoredCap, FirstRecord, AtRest, Valid, Storable, FromRecord;
    r := Restore(b, pos);
    if cs != [] {
      hide Restore, StoreAll, AtStart;
      EnterFirst(b, pos, cs);
    }
  }

  /** Reading over the parts of cs[0] leads to the first record of cs[1], or to nothing. */
  lemma AfterParts(b: seq<Byte>, pos: nat, cs: seq<Capreq>) returns (next: nat)
    requires cs != [] && Storable(cs[0]) && AllValid(cs[1..]) && (|cs| > 1 ==> Storable(cs[1]))
    requires AllValid(cs) && AtRest(b, pos, cs) && NeedsSplit(cs[0])
    ensures RestoreParts(b, pos, FirstName(cs[0])).0 == StoredName(cs[0])
    ensures |cs| == 1 ==> RestoreParts(b, pos, FirstName(cs[0])).1 == Null
    ensures |cs| > 1 ==> AtRest(b, next, cs[1..]) &&
                         RestoreParts(b, pos, FirstName(cs[0])).1 ==
                         Restored(RestoredCap(cs[1], FirstName(cs[1])), NeedsSplit(cs[1]), next)
  {
    hide *;
    LeaveParts(b, pos, cs);
    var middle := pos + |OtherRecords(cs[0])|;
    var r := NextIsRegular(b, middle, cs[1..]);
    next := if |cs| > 1 then middle + |FirstRecord(cs[1])| else middle;
    PartsStop(b, middle, StoredName(cs[0]));
  }

  lemma PartsStop(b: seq<Byte>, pos: nat, name: seq<Byte>)
    requires Restore(b, pos).Restored? ==> !IsPart(Restore(b, pos).cap)
    ensures RestoreParts(b, pos, name) == (name, Restore(b, pos))
  {
    hide Restore, IsPart;
  }

  lemma {:induction false} ArrayFromRest(b: seq<Byte>, pos: nat, cs: seq<Capreq>, i: nat, n: nat)
    requires AllValid(cs) && AtRest(b, pos, cs) && n == i + |cs|
    ensures RestoreRest(b, pos, RestoredCap(cs[0], FirstName(cs[0])), NeedsSplit(cs[0]), i, n) == Results(cs)
    decreases |cs|, 0
  {
    var cap := RestoredCap(cs[0], FirstName(cs[0]));
    ResultsStep(cs);
    assert cap.name == FirstName(cs[0]) && cap.(name := StoredName(cs[0])) == Result(cs[0]);
    if !NeedsSplit(cs[0]) {
      assert AtStart(b, pos, cs[1..]);
      assert StoredName(cs[0]) == FirstName(cs[0]);
      ArrayFromStart(b, pos, cs[1..], i + 1, n);
    } else {
      HeadAndTailValid(cs);
      var next := AfterParts(b, pos, cs);
      if |cs| > 1 {
        ArrayFromRest(b, next, cs[1..], i + 1, n);
      }
    }
    hide Restore, RestoreParts, FirstName, StoredName, NeedsSplit, RestoredCap, Result, AtRest, AtStart, AllValid, RestoreFrom;
  }

  /** The records kept always fit the 16-bit size field, and one more capability would not have. */
  lemma {:induction false} KeptFits(cs: seq<Capreq>, used: nat)
    requires forall k :: 0 <= k < |cs| ==> Storable(cs[k])
    requires used <= UINT16_MAX - 1
    ensures var k := KeepCount(cs, used);
            && used + |StoreAll(cs[..k])| + 1 <= UINT16_MAX
            && (k < |cs| ==> used + |StoreAll(cs[..k])| + |Store(cs[k])| > UINT16_MAX - 1)
  {
    hide Store, Storable;
    if cs != [] && used + |Store(cs[0])| <= UINT16_MAX - 1 {
      KeptFits(cs[1..], used + |Store(cs[0])|);
      var k := KeepCount(cs, used);
      assert cs[..k][1..] == cs[1..][..k - 1];
      assert |StoreAll(cs[..k])| == |Store(cs[0])| + |StoreAll(cs[1..][..k - 1])|;
    } else {
      assert cs[..0] == [];
    }
  }

  /** capreq_arr_store: size, number of entries, records, newline. */
  function ArrayBytes(cs: seq<Capreq>): (r: seq<Byte>)
    requires forall k :: 0 <= k < |cs| ==> Storable(cs[k])
    requires |cs| < UINT16_MAX
    ensures |r| >= 5
  {
    KeptFits(cs, 2);
    Int16(2 + |StoreAll(Kept(cs))| + 1) + Int16(|Kept(cs)|) + StoreAll(Kept(cs)) + NEWLINE
  }

  lemma KeptIsValid(cs: seq<Capreq>)
    requires AllValid(cs)
    ensures AllValid(Kept(cs)) && |Kept(cs)| <= |cs| && forall k :: 0 <= k < |Kept(cs)| ==> Kept(cs)[k] == cs[k]
  {
    hide Valid, Storable, KeepCount;
  }

  lemma ReadBack(b: seq<Byte>, kept: seq<Capreq>)
    requires AllValid(kept) && |kept| <= UINT16_MAX
    requires b == Int16(|kept|) + (StoreAll(kept) + NEWLINE)
    ensures RestoreArray(b) == Results(kept)
  {
    hide StoreAll, Storable, Valid, RestoreFrom, Results, Int16, AllValid, AtStart;
    AfterCount(b, kept);
    ArrayFromStart(b, 2, kept, 0, |kept|);
  }

  lemma AfterCount(b: seq<Byte>, kept: seq<Capreq>)
    requires AllValid(kept) && |kept| <= UINT16_MAX
    requires b == Int16(|kept|) + (StoreAll(kept) + NEWLINE)
    ensures |b| >= 2 && AtStart(b, 2, kept) && b[0] as int * 256 + b[1] == |kept|
  {
    hide StoreAll, Storable, Valid, Int16;
    CountFirst(b, |kept|, StoreAll(kept) + NEWLINE);
  }

  lemma CountFirst(b: seq<Byte>, n: nat, more: seq<Byte>)
    requires n <= UINT16_MAX && b == Int16(n) + more
    ensures |b| >= 2 && b[2..] == more && b[0] as int * 256 + b[1] == n
  {
    hide Int16;
  }

  lemma DropFour(a: seq<Byte>, b: seq<Byte>, c: seq<Byte>, d: seq<Byte>)
    ensures (a + b + c + d)[|a|..] == b + (c + d)
  {
  }

  /**
    Restoring a stored array gives the array back, in order, as far as it was kept. Each capability has its
    flags less the runtime ones, its EVR, and its name as it went through the chunks.
   */
  lemma ArrayRoundTrip(cs: seq<Capreq>)
    requires AllValid(cs) && |cs| < UINT16_MAX
    ensures RestoreArray(ArrayBytes(cs)[2..]) == Results(Kept(cs))
  {
    hide StoreAll, Storable, Valid, RestoreArray, Results, KeepCount, Int16;
    KeptIsValid(cs);
    KeptFits(cs, 2);
    DropFour(Int16(2 + |StoreAll(Kept(cs))| + 1), Int16(|Kept(cs)|), StoreAll(Kept(cs)), NEWLINE);
    ReadBack(ArrayBytes(cs)[2..], Kept(cs));
  }

  /** Everything is kept exactly when it all fits. */
  lemma AllKept(cs: seq<Capreq>)
    requires forall k :: 0 <= k < |cs| ==> Storable(cs[k])
    ensures Kept(cs) == cs <==> 2 + |StoreAll(cs)| <= UINT16_MAX - 1
  {
    KeptFits(cs, 2);
    var k := KeepCount(cs, 2);
    hide StoreAll, Store, Storable, KeepCount;
    if k < |cs| {
      PrefixIsShorter(cs, k);
    } else {
      assert cs[..k] == cs;
    }
  }

  lemma {:induction false} PrefixIsShorter(cs: seq<Capreq>, k: nat)
    requires k < |cs| && forall i :: 0 <= i < |cs| ==> Storable(cs[i])
    ensures |StoreAll(cs[..k])| + |Store(cs[k])| <= |StoreAll(cs)|
  {
    hide Store, Storable;
    if k == 0 {
      assert cs[..0] == [];
    } else {
      PrefixIsShorter(cs[1..], k - 1);
      assert cs[..k][1..] == cs[1..][..k - 1];
    }
  }

  // ----- when names survive

  lemma {:induction false} ChunksAddUp(name: seq<Byte>, size: nat)
    requires size > 0
    ensures TotalLength(Chunks(name, size)) == |name|
    ensures (forall k :: 0 <= k < |Chunks(name, size)| ==> !IsRpmlib(Chunks(name, size)[k])) ==>
              Joined(Chunks(name, size)) == name
    decreases |name|
  {
    var chunks := Chunks(name, size);
    if name != [] && |name| <= size {
      assert chunks == [name] && chunks[1..] == [];
      assert Joined(chunks) == NewName(name) + [];
    } else if name != [] {
      ChunksAddUp(name[size..], size);
      assert chunks[1..] == Chunks(name[size..], size);
      assert forall k :: 0 <= k < |chunks[1..]| ==> chunks[1..][k] == chunks[k + 1];
      assert name[..size] + name[size..] == name;
    }
  }

  lemma {:induction false} RpmlibChunkShrinks(chunks: seq<seq<Byte>>, k: nat)
    requires k < |chunks| && IsRpmlib(chunks[k])
    ensures |Joined(chunks)| < TotalLength(chunks)
  {
    if k > 0 {
      RpmlibChunkShrinks(chunks[1..], k - 1);
    }
  }

  /** A chunk that capreq_new takes for an rpmlib() capability. */
  ghost predicate HasRpmlibChunk(c: Capreq)
    requires Storable(c)
  {
    NeedsSplit(c) && exists k :: 0 <= k < |ChunksOf(c)| && IsRpmlib(ChunksOf(c)[k])
  }

  /** The name survives exactly when no chunk of it begins with "rpmlib(". */
  lemma NameSurvives(c: Capreq)
    requires Storable(c)
    ensures StoredName(c) == c.name <==> !HasRpmlibChunk(c)
  {
    if NeedsSplit(c) {
      ChunksAddUp(c.name, ChunkSize(EvrSize(c)));
      if HasRpmlibChunk(c) {
        var k :| 0 <= k < |ChunksOf(c)| && IsRpmlib(ChunksOf(c)[k]);
        RpmlibChunkShrinks(ChunksOf(c), k);
      }
    }
  }

  function As(n: nat): (r: seq<Byte>)
    ensures |r| == n
  {
    seq(n, i => 97)
  }

  /** A name of 249 letters with "rpmlib(" behind them comes back without these seven bytes. */
  lemma RpmlibChunkLost()
    ensures var c := Capreq(0, 0, As(249) + RPMLIB_PREFIX, 0, 0, 0, NUL);
            Valid(c) && Storable(c) && HasRpmlibChunk(c) && StoredName(c) == As(249)
  {
    var a, z := As(249), RPMLIB_PREFIX;
    var c := Capreq(0, 0, a + z, 0, 0, 0, NUL);
    assert LaidOut(c, NoEvr);
    assert c.name[..249] == a && c.name[249..] == z;
    assert EvrSize(c) == 0 && ChunkSize(0) == 249;
    assert Chunks(z, 249) == [z] && Chunks(c.name, 249) == [a] + Chunks(z, 249);
    assert ChunksOf(c) == [a, z];
    assert !IsRpmlib(a) by { assert a[0] == 97 && z[0] == 114; }
    assert IsRpmlib(ChunksOf(c)[1]);
    assert z[7..] == [] && NewName(z) == [];
    JoinedTwo(a, z);
  }

  lemma JoinedTwo(a: seq<Byte>, z: seq<Byte>)
    ensures Joined([a, z]) == NewName(a) + NewName(z)
  {
    hide NewName;
    assert [a, z][1..] == [z] && [z][1..] == [];
    assert NewName(z) + [] == NewName(z);
  }

  /** What a reader of the restored array may rely on: the same name, EVR, relation and storable flags. */
  ghost predicate SameCapability(c: Capreq, r: Capreq) {
    && r.name == c.name && r.buff == c.buff
    && r.epOfs == c.epOfs && r.verOfs == c.verOfs && r.relOfs == c.relOfs
    && r.relflags % 128 == c.relflags % 128 && r.flags == c.flags % CAPREQ_RT
  }

  lemma ResultIsSame(c: Capreq)
    requires Storable(c)
    ensures SameCapability(c, Result(c)) <==> !HasRpmlibChunk(c)
  {
    NameSurvives(c);
    hide Storable, StoredName, HasRpmlibChunk;
  }

  /** The whole array is given back exactly when it fits and no chunk of a name looks like rpmlib(). */
  lemma ArraySurvives(cs: seq<Capreq>)
    requires AllValid(cs) && |cs| < UINT16_MAX
    ensures var r := RestoreArray(ArrayBytes(cs)[2..]);
            (|r| == |cs| && forall k :: 0 <= k < |cs| ==> SameCapability(cs[k], r[k])) <==>
            (2 + |StoreAll(cs)| <= UINT16_MAX - 1 && forall k :: 0 <= k < |cs| ==> !HasRpmlibChunk(cs[k]))
  {
    hide StoreAll, Storable, Valid, HasRpmlibChunk, RestoreArray, Kept, SameCapability, Result, ArrayBytes;
    ArrayRoundTrip(cs);
    AllKept(cs);
    KeptIsValid(cs);
    var r := RestoreArray(ArrayBytes(cs)[2..]);
    if |Kept(cs)| == |cs| {
      assert Kept(cs) == cs;
      forall k | 0 <= k < |cs| ensures SameCapability(cs[k], r[k]) <==> !HasRpmlibChunk(cs[k]) {
        ResultIsSame(cs[k]);
      }
    }
  }

  /** The split loop makes no progress on any name exactly when the EVR takes up more than 248 bytes. */
  lemma SplitProgress(c: Capreq, e: Evr)
    requires LaidOut(c, e)
    ensures ChunkSize(EvrSize(c)) <= 0 <==> |EvrBytes(e)| > 248
    ensures |EvrBytes(e)| <= 248 <==> Storable(c)
  {
    EvrSizeIs(c, e);
  }
}
