/** Restoring a record without an allocator: name and EVR share the memory behind the structure (capreq.c). */
module CodecPlain {
  import opened Wrappers
  import opened CodecSpec
  import opened CodecTheorems

  /** capreq_versioned: one of the three relation bits. */
  predicate Versioned(relflags: Byte) {
    relflags % 8 != 0
  }

  /** The memory after the fields, from what a record holds behind its zero: the EVR bytes, then the name. */
  function PlainBuff(rest: seq<Byte>, versioned: bool): (r: seq<Byte>)
    requires versioned ==> StrLen(rest) < |rest|
    ensures |r| == |rest| + 2
  {
    if versioned then NUL + rest[StrLen(rest) + 1..] + NUL + rest[..StrLen(rest)] + NUL
    else NUL + rest + NUL
  }

  function PlainNameLen(rest: seq<Byte>, versioned: bool): nat {
    if versioned then StrLen(rest) else |rest|
  }

  /** The capreq; without a terminated name the source aborts. */
  function FromPlain(header: seq<Byte>, rest: seq<Byte>): Option<Capreq>
    requires |header| == 5
  {
    var versioned := Versioned(header[0]);
    if versioned && StrLen(rest) == |rest| then None
    else
      var nameLen := PlainNameLen(rest, versioned);
      var buff := PlainBuff(rest, versioned);
      var epOfs := UnshiftOfs(header[2], nameLen);
      if epOfs != 0 && epOfs + 4 > |buff| then None
      else Some(Capreq(header[0] % 128, header[1], rest[..nameLen], epOfs,
                       UnshiftOfs(header[3], nameLen), UnshiftOfs(header[4], nameLen), Swap(buff, epOfs)))
  }

  /** memcpy into the memory. */
  method Copy(buff: array<Byte>, at: nat, bytes: seq<Byte>)
    requires at + |bytes| <= buff.Length
    modifies buff
    ensures buff[..] == old(buff[..at]) + bytes + old(buff[at + |bytes|..])
  {
    var i := 0;
    while i < |bytes|
      invariant 0 <= i <= |bytes|
      invariant buff[..at + i] == old(buff[..at]) + bytes[..i]
      invariant buff[at + i..] == old(buff[at + i..])
    {
      buff[at + i] := bytes[i];
      i := i + 1;
    }
    assert buff[..] == buff[..at + |bytes|] + buff[at + |bytes|..];
  }

  /** capreq_restore_wo_na's filling of the size + 1 bytes it reserves: every byte is written, and none beyond. */
  method FillPlain(size: Byte, rest: seq<Byte>, versioned: bool) returns (buff: array<Byte>, name: nat, nameLen: nat)
    requires size == |rest| + 1 && (versioned ==> StrLen(rest) < |rest|)
    ensures fresh(buff) && buff.Length == size + 1 && buff[..] == PlainBuff(rest, versioned)
    ensures nameLen == PlainNameLen(rest, versioned) && name + nameLen + 1 == buff.Length
    ensures buff[name..name + nameLen] == rest[..nameLen] && buff[name + nameLen] == 0
  {
    buff := new Byte[size + 1];
    buff[0] := 0;
    assert buff[..1] == NUL;
    if !versioned {
      Copy(buff, 1, rest);
      assert buff[..1 + |rest|] == NUL + rest;
      buff[1 + |rest|] := 0;
      name, nameLen := 1, |rest|;
    } else {
      nameLen := StrLen(rest);
      var evr := rest[nameLen + 1..];
      Copy(buff, 1, evr);
      assert buff[..1 + |evr|] == NUL + evr;
      name := 1 + |evr|;
      buff[name] := 0;
      name := name + 1;
      assert buff[..name] == NUL + evr + NUL;
      Copy(buff, name, rest[..nameLen]);
      assert buff[..name + nameLen] == NUL + evr + NUL + rest[..nameLen];
      buff[name + nameLen] := 0;
    }
  }

  lemma SwapPrefix(s: seq<Byte>, t: seq<Byte>, ofs: nat)
    requires ofs == 0 || ofs + 4 <= |s|
    ensures Swap(s + t, ofs) == Swap(s, ofs) + t
  {
  }

  lemma Regroup(a: seq<Byte>, b: seq<Byte>)
    ensures a + b + NUL == a + (b + NUL)
  {
  }

  /** Both ways put the same bytes first. */
  lemma PlainExtends(rest: seq<Byte>, n: nat)
    requires n == StrLen(rest)
    ensures PlainBuff(rest, n < |rest|) == RestoredBuff(rest, n) + (rest[..n] + NUL)
  {
    if n < |rest| { PlainVersioned(rest, n); } else { PlainBare(rest, n); }
  }

  lemma PlainVersioned(rest: seq<Byte>, n: nat)
    requires n == StrLen(rest) < |rest|
    ensures PlainBuff(rest, true) == RestoredBuff(rest, n) + (rest[..n] + NUL)
  {
    hide StrLen;
    Regroup(NUL + rest[n + 1..] + NUL, rest[..n]);
  }

  lemma PlainBare(rest: seq<Byte>, n: nat)
    requires n == StrLen(rest) == |rest|
    ensures PlainBuff(rest, false) == RestoredBuff(rest, n) + (rest[..n] + NUL)
  {
    hide StrLen;
    assert rest[..n] == rest;
    Regroup(NUL, rest);
  }

  lemma PlainBuffReturns(c: Capreq, e: Evr, name: seq<Byte>)
    requires LaidOut(c, e) && Consistent(c) && NoZeros(name)
    ensures var rest := name + EvrPart(c);
            && StrLen(rest) == |name| && (e.Evr? <==> |name| < |rest|)
            && PlainBuff(rest, e.Evr?) == Swap(c.buff, c.epOfs) + (name + NUL)
  {
    BuffReturns(c, e, name);
    var rest := name + EvrPart(c);
    PlainExtends(rest, |name|);
    hide *;
    assert rest[..|name|] == name;
  }

  /**
   * Either way of restoring gives the name, the flags, the offsets and the EVR bytes of the capreq stored;
   * this one keeps the name behind the EVR bytes.
   */
  lemma PlainRestores(c: Capreq, e: Evr, relflags: Byte, name: seq<Byte>)
    requires LaidOut(c, e) && Consistent(c) && 6 + EvrSize(c) + |name| <= UINT8_MAX
    requires NoZeros(name) && relflags % 128 == c.relflags % 128 && (relflags % 8 != 0 <==> e.Evr?)
    ensures FromPlain(Header(c, relflags, |name|)[1..6], name + EvrPart(c)) ==
            Some(c.(relflags := c.relflags % 128, flags := c.flags % CAPREQ_RT, name := name, buff := c.buff + (name + NUL)))
  {
    assert Versioned(relflags) <==> relflags % 8 != 0;
    hide *;
    PlainBuffReturns(c, e, name);
    EvrSizeIs(c, e);
    OffsetsFit(c, e, |name|);
    HeaderFields(c, relflags, |name|);
    FromPlainIs(c, e, relflags, name, name + EvrPart(c));
  }

  lemma FromPlainIs(c: Capreq, e: Evr, relflags: Byte, name: seq<Byte>, rest: seq<Byte>)
    requires c.epOfs == 0 || c.epOfs + 4 <= |c.buff|
    requires c.epOfs + |name| + 1 <= UINT8_MAX && c.verOfs + |name| + 1 <= UINT8_MAX && c.relOfs + |name| + 1 <= UINT8_MAX
    requires name <= rest && StrLen(rest) == |name| && (e.Evr? <==> |name| < |rest|)
    requires relflags % 128 == c.relflags % 128 && (Versioned(relflags) <==> e.Evr?)
    requires PlainBuff(rest, e.Evr?) == Swap(c.buff, c.epOfs) + (name + NUL)
    ensures FromPlain(HeadFields(c, relflags, |name|), rest) ==
            Some(c.(relflags := c.relflags % 128, flags := c.flags % CAPREQ_RT, name := name, buff := c.buff + (name + NUL)))
  {
    OffsetReturns(c.epOfs, |name|);
    OffsetReturns(c.verOfs, |name|);
    OffsetReturns(c.relOfs, |name|);
    SwapTwice(c.buff, c.epOfs);
    SwapPrefix(Swap(c.buff, c.epOfs), name + NUL, c.epOfs);
    hide StrLen, Swap, ShiftOfs, UnshiftOfs, PlainBuff, Versioned;
    var buff, head := c.buff + (name + NUL), HeadFields(c, relflags, |name|);
    assert PlainNameLen(rest, e.Evr?) == |name| && rest[..|name|] == name;
    assert Swap(PlainBuff(rest, e.Evr?), c.epOfs) == buff;
    assert |PlainBuff(rest, e.Evr?)| == |c.buff| + |name| + 1;
    assert head[0] == relflags && head[1] == c.flags % CAPREQ_RT;
    assert UnshiftOfs(head[2], |name|) == c.epOfs && UnshiftOfs(head[3], |name|) == c.verOfs;
    assert UnshiftOfs(head[4], |name|) == c.relOfs;
  }
}
