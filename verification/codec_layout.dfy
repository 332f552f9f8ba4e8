/** The bytes of stored capabilities, place by place. */
module CodecLayout {
  import opened Wrappers
  import opened CodecSpec
  import opened CodecTheorems

  /** A number in network byte order is the one in host order backwards. */
  function Backwards(s: seq<Byte>): seq<Byte>
    requires s == [] || |s| == 4
  {
    if s == [] then [] else [s[3], s[2], s[1], s[0]]
  }

  /**
    A versioned record: the number of bytes that follow, the flags, where epoch, version and release begin (from
    the place before the name on; zero for none), a zero, the name, a zero, and the three of them, the epoch in
    network byte order and a zero before the release.
   */
  lemma RecordLayout(c: Capreq, e: Evr, relflags: Byte, name: seq<Byte>)
    requires LaidOut(c, e) && e.Evr? && 6 + |EvrBytes(e)| + |name| <= UINT8_MAX
    ensures Consistent(c) && 6 + EvrSize(c) + |name| <= UINT8_MAX
    ensures var n, tail := |name|, TailOf(e);
            && 7 + n + |e.epoch| + |e.ver| + |tail| <= 255
            && Record(c, relflags, name) ==
               [7 + n + |e.epoch| + |e.ver| + |tail|, relflags, c.flags % 64,
                if e.epoch == [] then 0 else n + 2, n + 2 + |e.epoch|,
                if e.release.Some? then n + 3 + |e.epoch| + |e.ver| else 0, 0]
               + (name + ([0] + Backwards(e.epoch) + e.ver + tail))
  {
    hide *;
    EvrSizeIs(c, e);
    HeaderLayout(c, e, relflags, |name|);
    EvrLayout(c, e);
    RecordIs(c, relflags, name);
  }

  /** A zero and the release, if there is one. */
  function TailOf(e: Evr): seq<Byte>
    requires e.Evr?
  {
    if e.release.Some? then [0] + e.release.value else []
  }

  lemma HeaderLayout(c: Capreq, e: Evr, relflags: Byte, n: nat)
    requires LaidOut(c, e) && e.Evr? && 6 + |EvrBytes(e)| + n <= UINT8_MAX && Consistent(c) && EvrSize(c) == |EvrBytes(e)|
    ensures var tail := TailOf(e);
            && |EvrBytes(e)| == 1 + |e.epoch| + |e.ver| + |tail|
            && Header(c, relflags, n) ==
               [7 + n + |e.epoch| + |e.ver| + |tail|, relflags, c.flags % 64,
                if e.epoch == [] then 0 else n + 2, n + 2 + |e.epoch|,
                if e.release.Some? then n + 3 + |e.epoch| + |e.ver| else 0, 0]
  {
    hide EvrSize, Consistent;
  }

  lemma EvrLayout(c: Capreq, e: Evr)
    requires LaidOut(c, e) && e.Evr? && Consistent(c)
    ensures EvrPart(c) == [0] + Backwards(e.epoch) + e.ver + TailOf(e)
  {
    hide LaidOut, EvrSize, Swap, EvrBytes, Consistent, TailOf, Backwards;
    BuffIs(c, e);
    EvrSizeIs(c, e);
    SwapLayout(e.epoch, e.ver + TailOf(e));
    assert EvrPart(c) == Swap(c.buff, c.epOfs)[..EvrSize(c)];
    hide *;
    assert [0] + Backwards(e.epoch) + (e.ver + TailOf(e)) == [0] + Backwards(e.epoch) + e.ver + TailOf(e);
  }

  lemma BuffIs(c: Capreq, e: Evr)
    requires LaidOut(c, e) && e.Evr?
    ensures var rest := e.ver + TailOf(e);
            && c.buff == [0] + e.epoch + rest + [0] && |EvrBytes(e)| == 1 + |e.epoch| + |rest|
            && (e.epoch == [] || |e.epoch| == 4) && c.epOfs == if e.epoch == [] then 0 else 1
  {
    hide EvrSize;
  }

  lemma SwapLayout(epoch: seq<Byte>, rest: seq<Byte>)
    requires epoch == [] || |epoch| == 4
    ensures Swap([0] + epoch + rest + [0], if epoch == [] then 0 else 1)[..1 + |epoch| + |rest|] ==
            [0] + Backwards(epoch) + rest
  {
    var buff := [0] + epoch + rest + [0];
    if epoch != [] {
      var s := Swap(buff, 1);
      assert buff[1] == epoch[0] && buff[2] == epoch[1] && buff[3] == epoch[2] && buff[4] == epoch[3];
      assert s[0] == 0 && s[1..5] == Backwards(epoch);
      assert s[5..5 + |rest|] == buff[5..5 + |rest|] == rest;
      assert s[..5 + |rest|] == [s[0]] + s[1..5] + s[5..5 + |rest|];
    }
  }

  /** A record without a version ends with the name. */
  lemma PlainRecordLayout(c: Capreq, relflags: Byte, name: seq<Byte>)
    requires LaidOut(c, NoEvr) && 6 + |name| <= UINT8_MAX
    ensures Consistent(c) && EvrSize(c) == 0
    ensures Record(c, relflags, name) == [6 + |name|, relflags, c.flags % 64, 0, 0, 0] + [0] + name
  {
    EvrSizeIs(c, NoEvr);
    assert EvrPart(c) == [];
  }

  /** One record where it fits into 255 bytes after the first; otherwise one marked as split, and its parts. */
  lemma StoreLayout(c: Capreq)
    requires Storable(c)
    ensures 6 + EvrSize(c) + |c.name| <= 255 ==> Store(c) == Record(c, c.relflags % 128, c.name)
    ensures 6 + EvrSize(c) + |c.name| > 255 ==>
              var chunks := Chunks(c.name, 249 - EvrSize(c));
              |chunks| >= 2 && Store(c) == Record(c, c.relflags % 128 + 128, NewName(chunks[0])) + PartRecords(chunks[1..])
  {
    hide EvrSize, Record, PartRecords, Consistent, NewName;
  }

  /** The record of a part has the 64 and no version. */
  lemma PartLayout(chunk: seq<Byte>)
    requires NoZeros(chunk) && |chunk| <= 249
    ensures PartRecord(chunk) ==
            [6 + |NewName(chunk)|, 64, if IsRpmlib(chunk) then 32 else 0, 0, 0, 0] + [0] + NewName(chunk)
  {
    PartIsLaidOut(chunk);
    PlainRecordLayout(PartOf(chunk), PART, NewName(chunk));
  }

  function Concat(chunks: seq<seq<Byte>>): seq<Byte> {
    if chunks == [] then [] else chunks[0] + Concat(chunks[1..])
  }

  /** The chunks are the name cut into pieces. */
  lemma {:induction false} ChunksJoin(name: seq<Byte>, size: nat)
    requires size > 0
    ensures Concat(Chunks(name, size)) == name
    decreases |name|
  {
    if 0 < |name| <= size {
      assert Chunks(name, size)[1..] == [];
    } else if |name| > size {
      ChunksJoin(name[size..], size);
      assert name == name[..size] + name[size..];
      assert Chunks(name, size)[1..] == Chunks(name[size..], size);
    }
  }

  /** All but the last are of full size. */
  lemma {:induction false} ChunksAreFull(name: seq<Byte>, size: nat, k: nat)
    requires size > 0 && k < |Chunks(name, size)|
    ensures if k < |Chunks(name, size)| - 1 then |Chunks(name, size)[k]| == size else 0 < |Chunks(name, size)[k]| <= size
    decreases k
  {
    if |name| > size {
      assert Chunks(name, size)[1..] == Chunks(name[size..], size);
      if k > 0 { ChunksAreFull(name[size..], size, k - 1); }
    }
  }

  /** An array: how many bytes follow, how many entries there are, the records and a newline. */
  lemma ArrayLayout(cs: seq<Capreq>)
    requires |cs| < UINT16_MAX && forall k :: 0 <= k < |cs| ==> Storable(cs[k])
    ensures var records := StoreAll(Kept(cs));
            var size, count := 2 + |records| + 1, |Kept(cs)|;
            && size <= 65535 && count <= 65535
            && ArrayBytes(cs) == [size / 256, size % 256, count / 256, count % 256] + records + [10]
  {
    hide StoreAll, Int16, Storable, KeepCount;
    KeptFits(cs, 2);
    CountFits(cs);
    Int16Bytes(2 + |StoreAll(Kept(cs))| + 1);
    Int16Bytes(|Kept(cs)|);
    hide ArrayBytes;
  }

  lemma CountFits(cs: seq<Capreq>)
    requires forall k :: 0 <= k < |cs| ==> Storable(cs[k])
    ensures |Kept(cs)| <= |cs| && forall k :: 0 <= k < |Kept(cs)| ==> Storable(Kept(cs)[k])
  {
    hide Storable, KeepCount;
  }

  lemma Int16Bytes(x: nat)
    requires x <= UINT16_MAX
    ensures Int16(x) == [x / 256, x % 256]
  {
  }

  // ----- names of rpmlib and buffers that end early

  lemma {:induction false} IndexOfIs(x: seq<Byte>, b: Byte, rest: seq<Byte>)
    requires b !in x
    ensures IndexOf(x + [b] + rest, b) == |x| && IndexOf(x, b) == |x|
    decreases |x|
  {
    if x == [] {
      assert (x + [b] + rest)[0] == b;
    } else {
      assert (x + [b] + rest)[1..] == x[1..] + [b] + rest && (x + [b] + rest)[0] == x[0];
      IndexOfIs(x[1..], b, rest);
    }
  }

  /** Of "rpmlib(x)" the x is kept, of "rpmlib(x" nothing, of any other name all. */
  lemma NewNameExactly(x: seq<Byte>, rest: seq<Byte>)
    requires 41 !in x
    ensures NewName([114, 112, 109, 108, 105, 98, 40] + x + [41] + rest) == x
    ensures NewName([114, 112, 109, 108, 105, 98, 40] + x) == []
    ensures !([114, 112, 109, 108, 105, 98, 40] <= x) ==> NewName(x) == x
  {
    var prefix: seq<Byte> := [114, 112, 109, 108, 105, 98, 40];
    IndexOfIs(x, 41, rest);
    assert (prefix + x + [41] + rest)[7..] == x + [41] + rest && (prefix + x)[7..] == x;
    assert (x + [41] + rest)[..|x|] == x;
  }

  /** Offsets count modulo 256 in both directions, and none stays none. */
  lemma OffsetsWrap(o: Byte, nameLen: nat)
    ensures UnshiftOfs(0, nameLen) == ShiftOfs(0, nameLen) == 0
    ensures o != 0 ==> (UnshiftOfs(o, nameLen) + (nameLen + 1)) % 256 == o
    ensures o != 0 ==> ShiftOfs(o, nameLen) == (o + nameLen + 1) % 256
  {
  }

  /**
    There is nothing to restore when fewer than six bytes are left. A record without a version may end the
    buffer; of one with a version the byte behind it is read as well.
   */
  lemma EndOfBuffer(c: Capreq, e: Evr, relflags: Byte, name: seq<Byte>, b: seq<Byte>, pos: nat)
    requires LaidOut(c, e) && 6 + |EvrBytes(e)| + |name| <= UINT8_MAX && NoZeros(name) && relflags % 128 == c.relflags % 128
    ensures Consistent(c) && 6 + EvrSize(c) + |name| <= UINT8_MAX
    ensures Restore(b, pos) == Null <==> |b| < pos + 6
    ensures Holds(b, pos, Record(c, relflags, name)) && |b| == pos + |Record(c, relflags, name)| ==>
              Restore(b, pos) == if e.Evr? then Bad else Restored(RestoredCap(c, name), relflags >= 128, |b|)
  {
    EvrSizeIs(c, e);
    if Holds(b, pos, Record(c, relflags, name)) && |b| == pos + |Record(c, relflags, name)| {
      FromRecordReturns(c, e, relflags, name);
      BuffReturns(c, e, name);
      RecordIs(c, relflags, name);
      hide *;
      EndsWith(b, pos, Header(c, relflags, |name|), name + EvrPart(c), RestoredCap(c, name));
    }
  }

  lemma EndsWith(b: seq<Byte>, pos: nat, h: seq<Byte>, body: seq<Byte>, cap: Capreq)
    requires |h| == 7 && h[0] == 6 + |body| && FromRecord(h[1..6], body) == Some(cap)
    requires Holds(b, pos, h + body) && pos + 7 + |body| == |b|
    ensures Restore(b, pos) == if StrLen(body) < |body| then Bad else Restored(cap, h[1] >= SPLITTED, |b|)
  {
    hide FromRecord, StrLen;
    HoldsBoth(b, pos, h, body);
    assert b[pos..pos + 7] == h;
    SliceOfSlice(b, pos, pos + 7, 1, 6);
    assert b[pos] == h[0] && b[pos + 1] == h[1];
  }

  /** A bastard capreq is one of the entries counted, but not one of those restored. */
  lemma BastardIsPassedOver(b: seq<Byte>, pos: nat, i: nat, n: nat)
    requires i < n && Restore(b, pos).Restored? && Restore(b, pos).cap.flags >= 128
    ensures RestoreFrom(b, pos, i, n) == RestoreFrom(b, Restore(b, pos).next, i + 1, n)
  {
    hide Restore;
  }
}
