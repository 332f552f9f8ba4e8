/** The codec as the source runs it: records appended to a buffer, offsets and flags edited in place (capreq.c). */
module Codec {
  import opened Wrappers
  import opened CodecSpec
  import opened CodecTheorems

  /** A byte buffer with a cursor: adding overwrites what is behind the cursor. */
  class TnBuf {
    var data: seq<Byte>
    var pos: nat

    ghost predicate Valid()
      reads this
    {
      pos <= |data|
    }

    /** What has been written up to the cursor. */
    ghost function Written(): seq<Byte>
      reads this
      requires Valid()
    {
      data[..pos]
    }

    constructor ()
      ensures Valid() && Written() == []
    {
      data, pos := [], 0;
    }

    method Add(bytes: seq<Byte>)
      requires Valid()
      modifies this
      ensures Valid() && Written() == old(Written()) + bytes && pos == old(pos) + |bytes|
      ensures data == old(data)[..old(pos)] + bytes + (if pos <= |old(data)| then old(data)[pos..] else [])
    {
      data := data[..pos] + bytes + (if pos + |bytes| <= |data| then data[pos + |bytes|..] else []);
      pos := pos + |bytes|;
    }

    method Seek(to: nat)
      requires Valid() && to <= |data|
      modifies this`pos
      ensures Valid() && pos == to
    {
      pos := to;
    }
  }

  /** strlen from some offset on. */
  method StrLenFrom(buff: array<Byte>, ofs: nat) returns (n: nat)
    requires ofs <= buff.Length
    ensures n == StrLen(buff[ofs..])
  {
    n := 0;
    while ofs + n < buff.Length && buff[ofs + n] != 0
      invariant ofs + n <= buff.Length
      invariant StrLen(buff[ofs..]) == n + StrLen(buff[ofs + n..])
    {
      assert buff[ofs + n..][0] == buff[ofs + n] && buff[ofs + n..][1..] == buff[ofs + n + 1..];
      n := n + 1;
    }
  }

  /** split_capreq: chunks cut off the front of the name. */
  method SplitCapreq(name: seq<Byte>, pos: nat) returns (parts: seq<seq<Byte>>)
    requires pos > 0
    ensures parts == Chunks(name, pos)
  {
    parts := [];
    var left := name;
    while left != []
      invariant parts + Chunks(left, pos) == Chunks(name, pos)
      decreases |left|
    {
      var end := 0;
      while end < |left| && end < pos
        invariant 0 <= end <= |left| && end <= pos
      {
        end := end + 1;
      }
      if end == |left| {
        assert left[..end] == left && left[end..] == [];
      }
      assert Chunks(left, pos) == [left[..end]] + Chunks(left[end..], pos);
      parts := parts + [left[..end]];
      left := left[end..];
    }
  }

  /** A struct capreq in memory. */
  class CapreqObj {
    var relflags: Byte
    var flags: Byte
    var name: seq<Byte>
    var epOfs: Byte
    var verOfs: Byte
    var relOfs: Byte
    const buff: array<Byte>

    ghost function Value(): Capreq
      reads this, buff
    {
      Capreq(relflags, flags, name, epOfs, verOfs, relOfs, buff[..])
    }

    /** capreq_new for a part of a name. */
    constructor ForPart(chunk: seq<Byte>)
      ensures fresh(buff) && Value() == PartOf(chunk)
    {
      relflags := PART;
      flags := if IsRpmlib(chunk) then RPMLIB else 0;
      name := NewName(chunk);
      epOfs, verOfs, relOfs := 0, 0, 0;
      buff := new Byte[1](_ => 0);
    }

    /** capreq_bufsize less one. */
    method Bufsize() returns (n: nat)
      requires Consistent(Value())
      ensures n == EvrSize(Value())
    {
      var maxOfs: int := 0;
      if epOfs > maxOfs { maxOfs := epOfs; }
      if verOfs > maxOfs { maxOfs := verOfs; }
      if relOfs > maxOfs { maxOfs := relOfs; }
      assert buff[maxOfs..] == buff[..][maxOfs..];
      if maxOfs == 0 {
        n := 0;
      } else {
        var len := StrLenFrom(buff, maxOfs);
        n := maxOfs + len;
      }
    }

    method SwapEpoch()
      requires epOfs == 0 || epOfs + 4 <= buff.Length
      modifies buff
      ensures buff[..] == Swap(old(buff[..]), epOfs)
    {
      if epOfs != 0 {
        buff[epOfs], buff[epOfs + 1], buff[epOfs + 2], buff[epOfs + 3] :=
          buff[epOfs + 3], buff[epOfs + 2], buff[epOfs + 1], buff[epOfs];
      }
    }

    /** The size byte, `cr_buf` with its offsets moved by the length of the name, and a zero. */
    method BuildHeader(relbyte: Byte, bufsize: nat, nameLen: nat) returns (header: seq<Byte>)
      requires Consistent(Value()) && bufsize == EvrSize(Value()) && 6 + bufsize + nameLen <= UINT8_MAX
      requires flags < CAPREQ_RT
      ensures header == Header(Value(), relbyte, nameLen)
    {
      var size: Byte := 5 + bufsize + nameLen + 1;
      var crBuf: seq<Byte> := [relbyte, flags, epOfs, verOfs, relOfs];
      var i := 2;
      while i < 5
        invariant 2 <= i <= 5 && |crBuf| == 5 && crBuf[0] == relbyte && crBuf[1] == flags
        invariant crBuf[2] == if i > 2 then ShiftOfs(epOfs, nameLen) else epOfs
        invariant crBuf[3] == if i > 3 then ShiftOfs(verOfs, nameLen) else verOfs
        invariant crBuf[4] == if i > 4 then ShiftOfs(relOfs, nameLen) else relOfs
      {
        if crBuf[i] != 0 {
          var moved: Byte := (crBuf[i] + nameLen + 1) % 256;
          crBuf := crBuf[i := moved];
        }
        i := i + 1;
      }
      var front: seq<Byte> := [size];
      header := front + crBuf + NUL;
    }

    /** The EVR bytes are added with the epoch swapped in place and back. */
    method AddEvr(nbuf: TnBuf, bufsize: nat)
      requires nbuf.Valid() && Consistent(Value()) && bufsize == EvrSize(Value())
      modifies nbuf, buff
      ensures Value() == old(Value())
      ensures nbuf.Valid() && nbuf.Written() == old(nbuf.Written()) + EvrPart(old(Value()))
    {
      ghost var c := Value();
      hide StrLen, MaxOfs;
      if bufsize > 0 {
        SwapEpoch();
        nbuf.Add(buff[..bufsize]);
        assert buff[..bufsize] == buff[..][..bufsize] == EvrPart(c);
        SwapEpoch();
        SwapTwice(c.buff, c.epOfs);
      }
    }

    /** One record of this capreq under some name. */
    method StoreRecord(nbuf: TnBuf, relbyte: Byte, crName: seq<Byte>)
      requires nbuf.Valid() && Consistent(Value()) && 6 + EvrSize(Value()) + |crName| <= UINT8_MAX
      requires flags < CAPREQ_RT
      modifies nbuf, buff
      ensures Value() == old(Value())
      ensures nbuf.Valid() && nbuf.Written() == old(nbuf.Written()) + Record(old(Value()), relbyte, crName)
    {
      ghost var c := Value();
      hide StrLen, MaxOfs, Header, EvrPart;
      var bufsize := Bufsize();
      var header := BuildHeader(relbyte, bufsize, |crName|);
      nbuf.Add(header);
      nbuf.Add(crName);
      AddEvr(nbuf, bufsize);
      FourInLine(old(nbuf.Written()), header, crName, EvrPart(c));
    }

    /** The name, the flags and the parts with which a capability without runtime flags goes out. */
    method ChooseName() returns (crName: seq<Byte>, relbyte: Byte, parts: seq<seq<Byte>>)
      requires Storable(Value()) && relflags < SPLITTED
      ensures crName == FirstName(Value()) && relbyte == FirstFlags(Value())
      ensures parts == if NeedsSplit(Value()) then ChunksOf(Value())[1..] else []
    {
      var bufsize := Bufsize();
      crName, relbyte, parts := name, relflags, [];
      if 5 + bufsize + |name| + 1 > UINT8_MAX {
        parts := SplitCapreq(name, UINT8_MAX - (5 + bufsize + 1));
        crName := NewName(parts[0]);
        relbyte := relflags + SPLITTED;
        parts := parts[1..];
      }
    }

    /** The first record of capreq_store, with the runtime flags masked meanwhile; the parts are left to store. */
    method StoreFirst(nbuf: TnBuf) returns (parts: seq<seq<Byte>>)
      requires nbuf.Valid() && Storable(Value())
      modifies this, nbuf, buff
      ensures Value() == old(Value())
      ensures nbuf.Valid() && nbuf.Written() == old(nbuf.Written()) + FirstRecord(old(Value()))
      ensures parts == if NeedsSplit(old(Value())) then ChunksOf(old(Value()))[1..] else []
    {
      ghost var c := Value();
      var crFlags: Byte, crRelflags: Byte := 0, 0;
      if flags >= CAPREQ_RT {
        crFlags := flags;
        flags := flags % CAPREQ_RT;
      }
      if relflags >= SPLITTED {
        crRelflags := relflags;
        relflags := relflags % 128;
      }
      ghost var masked := Value();
      SameRecord(c, masked);
      hide EvrSize, MaxOfs, FirstFlags, FirstName, Record, FirstRecord, ChunksOf, NeedsSplit;
      var crName, relbyte;
      crName, relbyte, parts := ChooseName();
      StoreRecord(nbuf, relbyte, crName);
      if crFlags != 0 {
        flags := crFlags;
      }
      if crRelflags != 0 {
        relflags := crRelflags;
      }
    }

    /** capreq_store: a capability whose record would be too long goes out in parts. */
    method CapreqStore(nbuf: TnBuf)
      requires nbuf.Valid() && Storable(Value())
      modifies this, nbuf, buff
      ensures Value() == old(Value())
      ensures nbuf.Valid() && nbuf.Written() == old(nbuf.Written()) + Store(old(Value()))
      decreases if NeedsSplit(Value()) then 2 else 0
    {
      ghost var c := Value();
      var parts := StoreFirst(nbuf);
      PartsAreOthers(c, parts);
      StoreInTwo(c);
      hide *;
      if parts != [] {
        ThreeInLine(old(nbuf.Written()), FirstRecord(c), PartRecords(parts));
        StoreParts(parts, nbuf);
      }
    }
  }

  lemma PartsAreOthers(c: Capreq, parts: seq<seq<Byte>>)
    requires Storable(c) && parts == if NeedsSplit(c) then ChunksOf(c)[1..] else []
    ensures forall k :: 0 <= k < |parts| ==> |parts[k]| <= 249
    ensures OtherRecords(c) == PartRecords(parts)
    ensures parts == [] ==> Store(c) == FirstRecord(c)
    ensures parts != [] ==> NeedsSplit(c)
  {
  }

  lemma ThreeInLine(a: seq<Byte>, b: seq<Byte>, c: seq<Byte>)
    ensures a + b + c == a + (b + c)
  {
  }

  /** The parts after the first record. */
  method StoreParts(parts: seq<seq<Byte>>, nbuf: TnBuf)
    requires nbuf.Valid() && forall k :: 0 <= k < |parts| ==> |parts[k]| <= 249
    modifies nbuf
    ensures nbuf.Valid() && nbuf.Written() == old(nbuf.Written()) + PartRecords(parts)
    decreases 1
  {
    hide PartRecord, Store, Storable, NeedsSplit;
    ghost var base := nbuf.Written();
    assert parts[0..] == parts;
    var i := 0;
    while i < |parts|
      invariant 0 <= i <= |parts| && nbuf.Valid()
      invariant nbuf.Written() + PartRecords(parts[i..]) == base + PartRecords(parts)
    {
      var part := new CapreqObj.ForPart(parts[i]);
      PartStores(parts[i]);
      MoreParts(nbuf.Written(), parts, i);
      part.CapreqStore(nbuf);
      i := i + 1;
    }
    assert parts[i..] == [] && nbuf.Written() + PartRecords([]) == nbuf.Written();
  }

  /** Masking the runtime flags changes neither the record nor the decision to split. */
  lemma SameRecord(c: Capreq, masked: Capreq)
    requires Storable(c) && masked == c.(flags := c.flags % CAPREQ_RT, relflags := c.relflags % 128)
    ensures Storable(masked) && EvrSize(masked) == EvrSize(c) && NeedsSplit(masked) == NeedsSplit(c)
    ensures FirstFlags(masked) == FirstFlags(c) && FirstName(masked) == FirstName(c)
    ensures NeedsSplit(c) ==> ChunksOf(masked) == ChunksOf(c)
    ensures Record(masked, FirstFlags(c), FirstName(c)) == FirstRecord(c)
  {
    hide StrLen, NewName, Chunks;
  }

  lemma PartStores(chunk: seq<Byte>)
    requires |chunk| <= 249
    ensures Storable(PartOf(chunk)) && !NeedsSplit(PartOf(chunk)) && Store(PartOf(chunk)) == PartRecord(chunk)
  {
    hide StrLen, NewName;
  }

  lemma MoreParts(before: seq<Byte>, parts: seq<seq<Byte>>, i: nat)
    requires i < |parts| && forall k :: 0 <= k < |parts| ==> |parts[k]| <= 249
    ensures before + PartRecord(parts[i]) + PartRecords(parts[i + 1..]) == before + PartRecords(parts[i..])
  {
    hide PartRecord;
    assert parts[i..][1..] == parts[i + 1..];
  }

  // ----- arrays

  ghost function Objects(arr: seq<CapreqObj>): set<object> {
    (set o: CapreqObj | o in arr :: o as object) + (set o: CapreqObj | o in arr :: o.buff as object)
  }

  /** The objects hold these values. */
  ghost predicate Hold(arr: seq<CapreqObj>, cs: seq<Capreq>)
    reads Objects(arr)
  {
    |arr| == |cs| && forall k :: 0 <= k < |arr| ==> arr[k].Value() == cs[k]
  }

  lemma Inside(arr: seq<CapreqObj>, i: nat)
    requires i < |arr|
    ensures arr[i] in Objects(arr) && arr[i].buff in Objects(arr)
  {
    var o := arr[i];
    assert o in arr;
  }

  /** Storing one capability leaves all of them as they were, whatever they share. */
  method StoreOne(arr: seq<CapreqObj>, ghost cs: seq<Capreq>, i: nat, nbuf: TnBuf)
    requires nbuf.Valid() && nbuf !in Objects(arr) && Hold(arr, cs) && i < |arr| && Storable(cs[i])
    modifies nbuf, Objects(arr)
    ensures Hold(arr, cs) && nbuf.Valid() && nbuf.Written() == old(nbuf.Written()) + Store(cs[i])
  {
    hide Store, Storable;
    Inside(arr, i);
    assert arr[i].Value() == cs[i];
    arr[i].CapreqStore(nbuf);
    forall k | 0 <= k < |arr| ensures arr[k].Value() == cs[k] {
      assert old(arr[k].Value()) == cs[k];
    }
  }

  /** The records written so far, and what KeepCount says about the others. */
  ghost predicate Progress(cs: seq<Capreq>, kept: nat, records: seq<Byte>)
    requires forall k :: 0 <= k < |cs| ==> Storable(cs[k])
  {
    && kept <= |cs| && records == StoreAll(cs[..kept])
    && KeepCount(cs, 2) == kept + KeepCount(cs[kept..], 2 + |records|)
  }

  /** The records up to the 64K limit; on overflow the cursor goes back to before the record that was too much. */
  method StoreKept(arr: seq<CapreqObj>, ghost cs: seq<Capreq>, nbuf: TnBuf, off: nat)
      returns (kept: nat, ghost records: seq<Byte>)
    requires nbuf.Valid() && nbuf !in Objects(arr) && nbuf.pos == off + 4 && Hold(arr, cs)
    requires forall k :: 0 <= k < |cs| ==> Storable(cs[k])
    modifies nbuf, Objects(arr)
    ensures Hold(arr, cs) && kept == KeepCount(cs, 2) && records == StoreAll(cs[..kept])
    ensures nbuf.Valid() && nbuf.Written() == old(nbuf.Written()) + records
  {
    hide Store, Storable, KeepCount, StoreAll;
    ghost var base := nbuf.Written();
    kept, records := 0, [];
    FirstProgress(cs);
    while kept < |arr|
      invariant Hold(arr, cs) && nbuf.Valid() && Progress(cs, kept, records) && nbuf.Written() == base + records
    {
      var crOff := nbuf.pos;
      NextProgress(cs, kept, records);
      StoreOne(arr, cs, kept, nbuf);
      var size := nbuf.pos - off - 2;
      if size > UINT16_MAX - 1 {
        nbuf.Seek(crOff);
        return;
      }
      records := records + Store(cs[kept]);
      kept := kept + 1;
    }
    LastProgress(cs, records);
  }

  lemma FirstProgress(cs: seq<Capreq>)
    requires forall k :: 0 <= k < |cs| ==> Storable(cs[k])
    ensures Progress(cs, 0, [])
  {
    assert cs[0..] == cs && cs[..0] == [];
  }

  lemma LastProgress(cs: seq<Capreq>, records: seq<Byte>)
    requires (forall k :: 0 <= k < |cs| ==> Storable(cs[k])) && Progress(cs, |cs|, records)
    ensures KeepCount(cs, 2) == |cs|
  {
  }

  /** One step of the storing loop, seen from KeepCount and StoreAll. */
  lemma NextProgress(cs: seq<Capreq>, kept: nat, records: seq<Byte>)
    requires (forall k :: 0 <= k < |cs| ==> Storable(cs[k])) && Progress(cs, kept, records) && kept < |cs|
    ensures if 2 + |records + Store(cs[kept])| > UINT16_MAX - 1 then KeepCount(cs, 2) == kept
            else Progress(cs, kept + 1, records + Store(cs[kept]))
  {
    hide Store, Storable, StoreAll;
    StoreAllAppend(cs[..kept], cs[kept]);
    assert cs[..kept + 1] == cs[..kept] + [cs[kept]];
    KeepStep(cs, kept, 2 + |records|);
    hide KeepCount;
  }

  lemma KeepStep(cs: seq<Capreq>, k: nat, used: nat)
    requires k < |cs| && forall i :: 0 <= i < |cs| ==> Storable(cs[i])
    ensures KeepCount(cs[k..], used) ==
            if used + |Store(cs[k])| > UINT16_MAX - 1 then 0 else 1 + KeepCount(cs[k + 1..], used + |Store(cs[k])|)
  {
    hide Store, Storable;
    assert cs[k..][0] == cs[k] && cs[k..][1..] == cs[k + 1..];
  }

  lemma {:induction false} StoreAllAppend(cs: seq<Capreq>, c: Capreq)
    requires Storable(c) && forall k :: 0 <= k < |cs| ==> Storable(cs[k])
    ensures StoreAll(cs + [c]) == StoreAll(cs) + Store(c)
    decreases |cs|
  {
    hide Store, Storable;
    if cs == [] {
      assert StoreAll([]) == [] && [c][1..] == [] && cs + [c] == [c];
      assert StoreAll([c]) == Store(c) + StoreAll([]);
    } else {
      assert (cs + [c])[1..] == cs[1..] + [c];
      StoreAllAppend(cs[1..], c);
    }
  }

  /** capreq_arr_store: the number of capabilities stored; only the bytes up to the cursor count. */
  method CapreqArrStore(arr: seq<CapreqObj>, ghost cs: seq<Capreq>, nbuf: TnBuf) returns (n: nat)
    requires nbuf.Valid() && nbuf !in Objects(arr) && Hold(arr, cs) && |arr| < UINT16_MAX
    requires forall k :: 0 <= k < |cs| ==> Storable(cs[k])
    modifies nbuf, Objects(arr)
    ensures Hold(arr, cs) && n == |Kept(cs)| && nbuf.Valid()
    ensures nbuf.Written() == old(nbuf.Written()) + if arr == [] then [] else ArrayBytes(cs)
  {
    hide Store, Storable, KeepCount, StoreAll, Int16;
    if arr == [] { return 0; }
    KeptFits(cs, 2);
    ghost var base := nbuf.Written();
    var off := nbuf.pos;
    nbuf.Add(Int16(0));
    nbuf.Add(Int16(|arr|));
    ghost var records;
    n, records := StoreKept(arr, cs, nbuf, off);
    nbuf.Add(NEWLINE);
    WriteHeader(nbuf, off, |arr|, n, nbuf.pos - off - 2, base, records);
  }

  /** The size and, if it has changed, the number of entries are written over the placeholders. */
  method WriteHeader(nbuf: TnBuf, off: nat, arrSize: nat, realArrSize: nat, size: nat,
                     ghost base: seq<Byte>, ghost records: seq<Byte>)
    requires nbuf.Valid() && arrSize <= UINT16_MAX && realArrSize <= UINT16_MAX && size <= UINT16_MAX
    requires nbuf.Written() == base + Int16(0) + Int16(arrSize) + records + NEWLINE && off == |base|
    modifies nbuf
    ensures nbuf.Valid() && nbuf.Written() == base + (Int16(size) + Int16(realArrSize) + records + NEWLINE)
  {
    hide Int16;
    var endoff := nbuf.pos;
    ghost var before, h, c := nbuf.data, Int16(size), Int16(realArrSize);
    nbuf.Seek(off);
    CountField(before, endoff, base, Int16(0), Int16(arrSize), records);
    PutTwo(before, off, h, c);
    nbuf.Add(Int16(size));
    if realArrSize != arrSize {
      nbuf.Add(Int16(realArrSize));
    }
    nbuf.Seek(endoff);
    Patched(before, endoff, base, Int16(0), Int16(arrSize), h, c, records);
  }

  /** Two fields of two bytes, one behind the other, are overwritten. */
  lemma PutTwo(b: seq<Byte>, off: nat, h: seq<Byte>, c: seq<Byte>)
    requires off + 4 <= |b| && |h| == |c| == 2
    ensures var d, both := b[..off] + h + b[off + 2..], b[..off] + h + c + b[off + 4..];
            && d[..off + 2] + c + d[off + 4..] == both && (b[off + 2..off + 4] == c ==> d == both)
  {
  }

  lemma CountField(b: seq<Byte>, end: nat, base: seq<Byte>, h: seq<Byte>, c: seq<Byte>, records: seq<Byte>)
    requires |h| == |c| == 2 && end <= |b| && b[..end] == base + h + c + records + NEWLINE
    ensures |base| + 4 <= end && b[|base| + 2..|base| + 4] == c
  {
    assert b[|base| + 2..|base| + 4] == b[..end][|base| + 2..|base| + 4];
  }

  /** Overwriting the two header fields leaves the rest of what was written. */
  lemma Patched(b: seq<Byte>, end: nat, base: seq<Byte>, h0: seq<Byte>, c0: seq<Byte>,
                h1: seq<Byte>, c1: seq<Byte>, records: seq<Byte>)
    requires |h0| == |h1| == |c0| == |c1| == 2 && end <= |b|
    requires b[..end] == base + h0 + c0 + records + NEWLINE
    ensures (b[..|base|] + h1 + c1 + b[|base| + 4..])[..end] == base + (h1 + c1 + records + NEWLINE)
  {
    var n, tail := |base|, records + NEWLINE;
    assert b[..end] == base + h0 + c0 + tail;
    assert b[..n] == b[..end][..n] == base;
    assert b[n + 4..end] == b[..end][n + 4..] == tail;
    var r := base + h1 + c1 + b[n + 4..];
    assert r[..end] == base + h1 + c1 + b[n + 4..end];
    assert base + h1 + c1 + tail == base + (h1 + c1 + records + NEWLINE);
  }

  // ----- restoring

  lemma SliceAhead(a: seq<Byte>, b: seq<Byte>, pos: nat, i: nat, j: nat)
    requires |a| == |b| && pos <= i <= j <= |a| && a[pos..] == b[pos..]
    ensures a[i..j] == b[i..j]
  {
    forall k | i <= k < j ensures a[k] == b[k] {
      ByteAhead(a, b, pos, k);
    }
  }

  lemma ByteAhead(a: seq<Byte>, b: seq<Byte>, pos: nat, i: nat)
    requires |a| == |b| && pos <= i < |a| && a[pos..] == b[pos..]
    ensures a[i] == b[i]
  {
    assert a[i] == a[pos..][i - pos] && b[i] == b[pos..][i - pos];
  }

  lemma RestoreLooksAhead(a: seq<Byte>, b: seq<Byte>, pos: nat)
    requires |a| == |b| && pos <= |a| && a[pos..] == b[pos..]
    ensures Restore(a, pos) == Restore(b, pos)
  {
    hide FromRecord, StrLen;
    if pos + 6 <= |a| {
      ByteAhead(a, b, pos, pos);
      ByteAhead(a, b, pos, pos + 1);
      SliceAhead(a, b, pos, pos + 1, pos + 6);
      if 6 <= a[pos] && pos + 1 + a[pos] <= |a| {
        SliceAhead(a, b, pos, pos + 7, pos + 1 + a[pos]);
      }
    }
  }

  /** An iterator over a buffer whose records are edited as they are read. */
  class TnBufIt {
    const bytes: array<Byte>
    var pos: nat

    constructor (bytes: array<Byte>)
      ensures this.bytes == bytes && pos == 0
    {
      this.bytes := bytes;
      pos := 0;
    }

    /** What lies ahead is as it was in b. */
    ghost predicate Ahead(b: seq<Byte>)
      reads this, bytes
      ensures Ahead(b) ==> pos <= |b|
    {
      |b| == bytes.Length && pos <= |b| && bytes[pos..] == b[pos..]
    }

    /** The offsets of a record are moved back in the buffer itself. */
    method MoveOffsets(start: nat, nameLen: nat)
      requires start + 6 <= bytes.Length
      modifies bytes
      ensures bytes[start + 6..] == old(bytes[start + 6..])
      ensures bytes[start + 3] == UnshiftOfs(old(bytes[start + 3]), nameLen)
      ensures bytes[start + 4] == UnshiftOfs(old(bytes[start + 4]), nameLen)
      ensures bytes[start + 5] == UnshiftOfs(old(bytes[start + 5]), nameLen)
    {
      var i := 2;
      while i < 5
        invariant 2 <= i <= 5
        invariant bytes[start + 6..] == old(bytes[start + 6..])
        invariant bytes[start + 3] == if i > 2 then UnshiftOfs(old(bytes[start + 3]), nameLen) else old(bytes[start + 3])
        invariant bytes[start + 4] == if i > 3 then UnshiftOfs(old(bytes[start + 4]), nameLen) else old(bytes[start + 4])
        invariant bytes[start + 5] == if i > 4 then UnshiftOfs(old(bytes[start + 5]), nameLen) else old(bytes[start + 5])
      {
        if bytes[start + 1 + i] != 0 {
          bytes[start + 1 + i] := (bytes[start + 1 + i] - (nameLen + 1)) % 256;
        }
        i := i + 1;
      }
    }

    /** The capreq of a complete record, taken from the record after its offsets have been moved. */
    method TakeRecord(start: nat, end: nat) returns (cap: Option<Capreq>)
      requires start + 7 <= end <= bytes.Length
      modifies bytes
      ensures bytes[end..] == old(bytes[end..])
      ensures cap == FromRecord(old(bytes[start + 1..start + 6]), old(bytes[start + 7..end]))
      ensures cap.None? ==> bytes[..] == old(bytes[..])
    {
      hide StrLen, UnshiftOfs, RestoredBuff;
      var rest := bytes[start + 7..end];
      ghost var header := bytes[start + 1..start + 6];
      var nameLen := StrLen(rest);
      var buff := RestoredBuff(rest, nameLen);
      var epOfs := UnshiftOfs(bytes[start + 3], nameLen);
      if epOfs != 0 && epOfs + 4 > |buff| {
        return None;
      }
      var relflags, flags := bytes[start + 1], bytes[start + 2];
      ghost var ahead := bytes[start + 6..];
      MoveOffsets(start, nameLen);
      assert bytes[end..] == bytes[start + 6..][end - start - 6..] == ahead[end - start - 6..];
      cap := Some(Capreq(relflags % 128 + SPLITTED, flags, rest[..nameLen],
                         bytes[start + 3], bytes[start + 4], bytes[start + 5], Swap(buff, bytes[start + 3])));
    }

    /** capreq_restore_na; a record that runs off the buffer ends the reading. */
    method CapreqRestoreNa(ghost b: seq<Byte>) returns (cap: Option<Capreq>, splitted: bool)
      requires Ahead(b)
      modifies this, bytes
      ensures Ahead(b) && pos >= old(pos)
      ensures var r := Restore(b, old(pos));
              if r.Restored? then cap == Some(r.cap) && splitted == r.splitted && pos == r.next
              else cap == None && !splitted && Restore(b, pos) == Null
    {
      hide StrLen, FromRecord;
      cap, splitted := None, false;
      RestoreLooksAhead(bytes[..], b, pos);
      var start := pos;
      if start + 6 > bytes.Length {
        return;
      }
      var size := bytes[start];
      if size < 6 || start + 1 + size > bytes.Length {
        pos := bytes.Length;
        return;
      }
      var end := start + 1 + size;
      var rest := bytes[start + 7..end];
      splitted := bytes[start + 1] >= SPLITTED;
      SliceAhead(bytes[..], b, start, end, bytes.Length);
      pos := end;
      if StrLen(rest) < |rest| && end == bytes.Length {
        splitted := false;
        return;
      }
      cap := TakeRecord(start, end);
      if cap == None {
        splitted := false;
        pos := bytes.Length;
      }
    }

    /** restore_parts: the name collected over the parts, and the regular capreq read after them. */
    method CollectParts(name: seq<Byte>, ghost b: seq<Byte>)
        returns (whole: seq<Byte>, next: Option<Capreq>, splitted: bool)
      requires Ahead(b)
      modifies this, bytes
      ensures Ahead(b) && pos >= old(pos)
      ensures var (n, r) := RestoreParts(b, old(pos), name);
              && whole == n
              && if r.Restored? then next == Some(r.cap) && splitted == r.splitted && pos == r.next && pos > old(pos)
                 else next == None && !splitted && Restore(b, pos) == Null
    {
      hide Restore;
      whole := name;
      ghost var start := pos;
      while true
        invariant Ahead(b) && pos >= start
        invariant RestoreParts(b, start, name) == RestoreParts(b, pos, whole)
        decreases |b| - pos
      {
        ghost var here := pos;
        ghost var r := Restore(b, here);
        next, splitted := CapreqRestoreNa(b);
        if next == None || next.value.relflags % 128 < PART {
          return;
        }
        whole := whole + next.value.name;
      }
    }
  }

  /** capreq_arr_restore with an allocator, from the bytes after the size field. */
  method CapreqArrRestore(it: TnBufIt) returns (caps: seq<Capreq>)
    requires it.pos == 0 && it.bytes.Length >= 2
    modifies it, it.bytes
    ensures caps == RestoreArray(old(it.bytes[..]))
  {
    hide Restore, RestoreParts, RestoreRest;
    ghost var b := it.bytes[..];
    var arrSize := it.bytes[0] as int * 256 + it.bytes[1];
    it.pos := 2;
    caps := [];
    var i := 0;
    while i < arrSize
      invariant it.Ahead(b)
      invariant caps + RestoreFrom(b, it.pos, i, arrSize) == RestoreArray(b)
      decreases arrSize - i
    {
      ghost var here := it.pos;
      var cap, splitted := it.CapreqRestoreNa(b);
      FromStep(b, here, i, arrSize);
      if cap == None {
        i := i + 1;
        FromEnd(b, it.pos, i, arrSize);
        continue;
      }
      if IsBastard(cap.value) {
        i := i + 1;
        continue;
      }
      var more;
      more, i := RestoreSplit(it, b, cap.value, splitted, i, arrSize);
      ghost var rest := RestoreFrom(b, it.pos, i + 1, arrSize);
      Regroup(caps, more, rest);
      caps := caps + more;
      i := i + 1;
    }
  }

  lemma Regroup<T>(a: seq<T>, b: seq<T>, c: seq<T>)
    ensures a + (b + c) == a + b + c
  {
  }

  lemma SetLast<T>(done: seq<T>, was: T, last: T)
    ensures (done + [was])[|done + [was]| - 1 := last] == done + [last]
  {
  }

  lemma FromStep(b: seq<Byte>, pos: nat, i: nat, n: nat)
    requires i < n
    ensures var r := Restore(b, pos);
            RestoreFrom(b, pos, i, n) ==
              if !r.Restored? then []
              else if IsBastard(r.cap) then RestoreFrom(b, r.next, i + 1, n)
              else RestoreRest(b, r.next, r.cap, r.splitted, i, n)
  {
    hide Restore, RestoreRest;
  }

  lemma FromEnd(b: seq<Byte>, pos: nat, i: nat, n: nat)
    requires Restore(b, pos) == Null
    ensures RestoreFrom(b, pos, i, n) == []
  {
    hide Restore;
  }

  /** The inner loop: as long as the last capreq is split, its name is completed and the next one is taken. */
  method RestoreSplit(it: TnBufIt, ghost b: seq<Byte>, cap: Capreq, isSplit: bool, from: nat, ghost n: nat)
    returns (caps: seq<Capreq>, i: nat)
    requires it.Ahead(b)
    modifies it, it.bytes
    ensures it.Ahead(b) && i >= from
    ensures caps + RestoreFrom(b, it.pos, i + 1, n) == RestoreRest(b, old(it.pos), cap, isSplit, from, n)
  {
    hide Restore, RestoreParts, RestoreFrom, RestoreRest, TnBufIt.Ahead, IsPart;
    ghost var goal := RestoreRest(b, it.pos, cap, isSplit, from, n);
    var cr, splitted := cap, isSplit;
    ghost var done: seq<Capreq> := [];
    i, caps := from, [cr];
    RestUnsplit(b, it.pos, cr, i, n);
    assert done + goal == goal;
    while splitted
      invariant it.Ahead(b) && caps == done + [cr] && i >= from
      invariant done + RestoreRest(b, it.pos, cr, splitted, i, n) == goal
      decreases |b| - it.pos, splitted
    {
      ghost var here, was := it.pos, cr;
      var name, part;
      name, part, splitted := it.CollectParts(cr.name, b);
      RestSplit(b, here, was, i, n);
      cr := cr.(name := name);
      SetLast(done, was, cr);
      caps := caps[|caps| - 1 := cr];
      if part != None {
        Regroup(done, [cr], RestoreRest(b, it.pos, part.value, splitted, i + 1, n));
        done := caps;
        cr := part.value;
        caps := caps + [cr];
        i := i + 1;
      } else {
        FromEnd(b, it.pos, i + 1, n);
        RestUnsplit(b, it.pos, cr, i, n);
      }
    }
    RestUnsplit(b, it.pos, cr, i, n);
    Regroup(done, [cr], RestoreFrom(b, it.pos, i + 1, n));
  }

  lemma RestUnsplit(b: seq<Byte>, pos: nat, cap: Capreq, i: nat, n: nat)
    ensures RestoreRest(b, pos, cap, false, i, n) == [cap] + RestoreFrom(b, pos, i + 1, n)
  {
    hide RestoreFrom;
  }

  lemma RestSplit(b: seq<Byte>, pos: nat, cap: Capreq, i: nat, n: nat)
    ensures var (name, part) := RestoreParts(b, pos, cap.name);
            var whole := cap.(name := name);
            (part.Restored? ==> pos < part.next <= |b|) &&
            RestoreRest(b, pos, cap, true, i, n) ==
            if part.Restored? then [whole] + RestoreRest(b, part.next, part.cap, part.splitted, i + 1, n) else [whole]
  {
    hide RestoreFrom, RestoreParts;
    PartsAdvance(b, pos, cap.name);
  }
}
