/** The binary form of capabilities and requirements (capreq.c). */
module CodecSpec {
  import opened Wrappers

  type Byte = x: int | 0 <= x < 256

  const UINT8_MAX := 255
  const UINT16_MAX := 65535
  const NEWLINE: seq<Byte> := [10]
  const NUL: seq<Byte> := [0]

  /** The bit of __SPLITTED and __NAALLOC, and the bit of __PART, in cr_relflags. */
  const SPLITTED := 128
  const PART := 64
  /** CAPREQ_RPMLIB in cr_flags; the runtime flags are the two bits above it. */
  const RPMLIB := 32
  const CAPREQ_RT := 64

  /**
    A struct capreq field by field: the offsets point into buff, whose first byte is always zero. The epoch
    stands in buff in host byte order.
   */
  datatype Capreq = Capreq(relflags: Byte, flags: Byte, name: seq<Byte>,
                           epOfs: Byte, verOfs: Byte, relOfs: Byte, buff: seq<Byte>)

  /** The strlen of what starts at the beginning of s, or the end of s. */
  function StrLen(s: seq<Byte>): (n: nat)
    ensures n <= |s|
    ensures n < |s| ==> s[n] == 0
    ensures forall i :: 0 <= i < n ==> s[i] != 0
  {
    if s == [] || s[0] == 0 then 0 else 1 + StrLen(s[1..])
  }

  function Max(a: int, b: int): int {
    if a < b then b else a
  }

  function MaxOfs(c: Capreq): int {
    Max(Max(c.epOfs, c.verOfs), c.relOfs)
  }

  /** capreq_bufsize less the final zero: the length of the EVR bytes. */
  function EvrSize(c: Capreq): nat
    requires MaxOfs(c) <= |c.buff|
  {
    if MaxOfs(c) == 0 then 0 else MaxOfs(c) + StrLen(c.buff[MaxOfs(c)..])
  }

  /** The network byte order of a little-endian host. */
  function Swap(buff: seq<Byte>, ofs: nat): (r: seq<Byte>)
    requires ofs == 0 || ofs + 4 <= |buff|
    ensures |r| == |buff|
  {
    if ofs == 0 then buff
    else buff[ofs := buff[ofs + 3]][ofs + 1 := buff[ofs + 2]][ofs + 2 := buff[ofs + 1]][ofs + 3 := buff[ofs]]
  }

  /** What capreq_new builds: a name without zeros and, if versioned, epoch, version and release in that order. */
  datatype Evr = NoEvr | Evr(epoch: seq<Byte>, ver: seq<Byte>, release: Option<seq<Byte>>)

  predicate NoZeros(s: seq<Byte>) {
    forall i :: 0 <= i < |s| ==> s[i] != 0
  }

  predicate ValidEvr(e: Evr) {
    e.Evr? ==> (|e.epoch| == 0 || |e.epoch| == 4) && NoZeros(e.ver) && (e.release.Some? ==> NoZeros(e.release.value))
  }

  function EvrBytes(e: Evr): seq<Byte> {
    match e
    case NoEvr => []
    case Evr(epoch, ver, release) =>
      NUL + epoch + ver + (if release.None? then [] else NUL + release.value)
  }

  function EvrBuff(e: Evr): seq<Byte> {
    if e.NoEvr? then NUL else EvrBytes(e) + NUL
  }

  function EpOfs(e: Evr): nat {
    if e.NoEvr? || e.epoch == [] then 0 else 1
  }

  function VerOfs(e: Evr): nat {
    if e.NoEvr? then 0 else 1 + |e.epoch|
  }

  function RelOfs(e: Evr): nat {
    if e.NoEvr? || e.release.None? then 0 else 1 + |e.epoch| + |e.ver| + 1
  }

  /** The memory layout of a capreq; EVR bytes beyond 253 make capreq_bufsize die. */
  ghost predicate LaidOut(c: Capreq, e: Evr) {
    && ValidEvr(e) && |EvrBytes(e)| <= 253 && NoZeros(c.name) && |c.name| <= UINT16_MAX
    && c.epOfs == EpOfs(e) && c.verOfs == VerOfs(e) && c.relOfs == RelOfs(e)
    && c.buff == EvrBuff(e)
  }

  /** A capreq as capreq_new makes it, other than a part of another one. */
  ghost predicate Valid(c: Capreq) {
    (exists e :: LaidOut(c, e)) && c.relflags % 128 < PART
  }

  // ----- storing

  /** Offsets are relative to the name in a record, and relative to what follows the name in memory. */
  function ShiftOfs(o: Byte, nameLen: nat): Byte {
    if o == 0 then 0 else (o + nameLen + 1) % 256
  }

  function UnshiftOfs(o: Byte, nameLen: nat): Byte {
    if o == 0 then 0 else (o - (nameLen + 1)) % 256
  }

  predicate Consistent(c: Capreq) {
    && MaxOfs(c) <= |c.buff| && (c.epOfs == 0 || c.epOfs + 4 <= |c.buff|)
    && EvrSize(c) <= |c.buff|
  }

  /** The size of the record, the flags, the shifted offsets, and a zero. */
  function Header(c: Capreq, relflags: Byte, nameLen: nat): (r: seq<Byte>)
    requires Consistent(c) && 6 + EvrSize(c) + nameLen <= UINT8_MAX
    ensures |r| == 7 && r[0] == 6 + EvrSize(c) + nameLen
  {
    [6 + EvrSize(c) + nameLen, relflags, c.flags % CAPREQ_RT,
     ShiftOfs(c.epOfs, nameLen), ShiftOfs(c.verOfs, nameLen), ShiftOfs(c.relOfs, nameLen), 0]
  }

  /** The EVR bytes with the epoch in network order. */
  function EvrPart(c: Capreq): (r: seq<Byte>)
    requires Consistent(c)
    ensures |r| == EvrSize(c)
  {
    Swap(c.buff, c.epOfs)[..EvrSize(c)]
  }

  /** A record: the header, a name, and the EVR bytes. */
  function Record(c: Capreq, relflags: Byte, name: seq<Byte>): (r: seq<Byte>)
    requires Consistent(c) && 6 + EvrSize(c) + |name| <= UINT8_MAX
    ensures |r| == 7 + EvrSize(c) + |name|
  {
    Header(c, relflags, |name|) + (name + EvrPart(c))
  }

  predicate NeedsSplit(c: Capreq)
    requires MaxOfs(c) <= |c.buff|
  {
    5 + EvrSize(c) + |c.name| + 1 > UINT8_MAX
  }

  /** The cut position in split_capreq: UINT8_MAX less the store size without the name. */
  function ChunkSize(evrSize: nat): int {
    UINT8_MAX - (5 + evrSize + 1)
  }

  /** The chunks of split_capreq, before capreq_new makes a capreq of each. */
  function Chunks(name: seq<Byte>, size: nat): (r: seq<seq<Byte>>)
    requires size > 0
    ensures forall k :: 0 <= k < |r| ==> 0 < |r[k]| <= size
    ensures r == [] <==> name == []
    ensures |name| > size ==> |r| >= 2
    decreases |name|
  {
    if name == [] then []
    else if |name| <= size then [name]
    else [name[..size]] + Chunks(name[size..], size)
  }

  const RPMLIB_PREFIX: seq<Byte> := [114, 112, 109, 108, 105, 98, 40]

  function IndexOf(s: seq<Byte>, b: Byte): (n: nat)
    ensures n <= |s|
  {
    if s == [] || s[0] == b then 0 else 1 + IndexOf(s[1..], b)
  }

  predicate IsRpmlib(name: seq<Byte>) {
    RPMLIB_PREFIX <= name
  }

  /** The name that capreq_new keeps: of "rpmlib(x)" only x, and nothing without the closing parenthesis. */
  function NewName(name: seq<Byte>): (r: seq<Byte>)
    ensures |r| <= |name|
    ensures IsRpmlib(name) ==> |r| < |name|
  {
    if IsRpmlib(name) then
      var p := name[7..];
      if IndexOf(p, 41) < |p| then p[..IndexOf(p, 41)] else []
    else name
  }

  /** A continuation part. */
  function PartOf(chunk: seq<Byte>): Capreq {
    Capreq(PART, if IsRpmlib(chunk) then RPMLIB else 0, NewName(chunk), 0, 0, 0, NUL)
  }

  /** The record of a part: its EVR is empty, so it is never split again. */
  function PartRecord(chunk: seq<Byte>): (r: seq<Byte>)
    requires |chunk| <= 249
    ensures |r| <= UINT8_MAX + 1
  {
    Record(PartOf(chunk), PART, NewName(chunk))
  }

  function PartRecords(chunks: seq<seq<Byte>>): seq<Byte>
    requires forall k :: 0 <= k < |chunks| ==> |chunks[k]| <= 249
  {
    if chunks == [] then [] else PartRecord(chunks[0]) + PartRecords(chunks[1..])
  }

  /** Storing cannot go wrong: the split loop makes progress exactly when this holds. */
  predicate Storable(c: Capreq) {
    Consistent(c) && EvrSize(c) <= 248
  }

  /** capreq_store. */
  function Store(c: Capreq): (r: seq<Byte>)
    requires Storable(c)
  {
    if NeedsSplit(c) then
      var chunks := Chunks(c.name, ChunkSize(EvrSize(c)));
      Record(c, c.relflags % 128 + SPLITTED, NewName(chunks[0])) + PartRecords(chunks[1..])
    else Record(c, c.relflags % 128, c.name)
  }

  // ----- restoring

  /** A null result, a buffer the source would read beyond, or a capreq with the end of its record. */
  datatype Restored = Null | Bad | Restored(cap: Capreq, splitted: bool, next: nat)

  /** The bytes after the name become the EVR bytes in memory. */
  function RestoredBuff(rest: seq<Byte>, nameLen: nat): (r: seq<Byte>)
    requires nameLen <= |rest|
    ensures r != []
  {
    if nameLen == |rest| then NUL else NUL + rest[nameLen + 1..] + NUL
  }

  /** A capreq from the five header bytes and the bytes from the name on. */
  function FromRecord(header: seq<Byte>, rest: seq<Byte>): Option<Capreq>
    requires |header| == 5
  {
    var nameLen := StrLen(rest);
    var buff := RestoredBuff(rest, nameLen);
    var epOfs := UnshiftOfs(header[2], nameLen);
    if epOfs != 0 && epOfs + 4 > |buff| then None
    else Some(Capreq(header[0] % 128 + SPLITTED, header[1], rest[..nameLen],
                     epOfs, UnshiftOfs(header[3], nameLen), UnshiftOfs(header[4], nameLen), Swap(buff, epOfs)))
  }

  /** capreq_restore_na on an untouched record; one byte after a versioned record is read as well. */
  function Restore(b: seq<Byte>, pos: nat): (r: Restored)
    ensures r.Restored? ==> pos < r.next <= |b|
  {
    if pos + 6 > |b| then Null
    else
      var size := b[pos];
      if size < 6 || pos + 1 + size > |b| then Bad
      else
        var end := pos + 1 + size;
        var rest := b[pos + 7..end];
        var cap := FromRecord(b[pos + 1..pos + 6], rest);
        if cap.None? || (StrLen(rest) < |rest| && end == |b|) then Bad
        else Restored(cap.value, b[pos + 1] >= SPLITTED, end)
  }

  predicate IsPart(c: Capreq) {
    c.relflags % 128 >= PART
  }

  /** restore_parts: the collected name, and the regular capreq after the parts, if there is one. */
  function RestoreParts(b: seq<Byte>, pos: nat, name: seq<Byte>): (seq<Byte>, Restored)
    decreases |b| - pos
  {
    match Restore(b, pos)
    case Null => (name, Null)
    case Bad => (name, Bad)
    case Restored(cap, splitted, next) =>
      if IsPart(cap) then RestoreParts(b, next, name + cap.name) else (name, Restored(cap, splitted, next))
  }

  lemma {:induction false} PartsAdvance(b: seq<Byte>, pos: nat, name: seq<Byte>)
    ensures var r := RestoreParts(b, pos, name).1; r.Restored? ==> pos < r.next <= |b|
    decreases |b| - pos
  {
    var r := Restore(b, pos);
    if r.Restored? && IsPart(r.cap) {
      PartsAdvance(b, r.next, name + r.cap.name);
    }
  }

  /** The outer loop of capreq_arr_restore from the i-th entry on; a bastard capreq is passed over. */
  function RestoreFrom(b: seq<Byte>, pos: nat, i: nat, n: nat): seq<Capreq>
    decreases |b| - pos, 0
  {
    if i >= n then []
    else
      match Restore(b, pos)
      case Null => []
      case Bad => []
      case Restored(cap, splitted, next) =>
        if IsBastard(cap) then RestoreFrom(b, next, i + 1, n) else RestoreRest(b, next, cap, splitted, i, n)
  }

  /** CAPREQ_BASTARD: added by poldek itself, not stored. */
  predicate IsBastard(c: Capreq) {
    c.flags >= 128
  }

  /** The inner loop: as long as the last capreq is split, its parts follow. */
  function RestoreRest(b: seq<Byte>, pos: nat, cap: Capreq, splitted: bool, i: nat, n: nat): seq<Capreq>
    decreases |b| - pos, 1
  {
    if !splitted then [cap] + RestoreFrom(b, pos, i + 1, n)
    else
      var (name, part) := RestoreParts(b, pos, cap.name);
      PartsAdvance(b, pos, cap.name);
      var whole := cap.(name := name);
      if part.Restored? then [whole] + RestoreRest(b, part.next, part.cap, part.splitted, i + 1, n)
      else [whole]
  }

  // ----- arrays

  function Int16(x: nat): (r: seq<Byte>)
    requires x <= UINT16_MAX
    ensures |r| == 2 && r[0] as int * 256 + r[1] == x
  {
    var high: Byte := x / 256;
    var low: Byte := x % 256;
    [high, low]
  }

  function StoreAll(cs: seq<Capreq>): seq<Byte>
    requires forall k :: 0 <= k < |cs| ==> Storable(cs[k])
  {
    if cs == [] then [] else Store(cs[0]) + StoreAll(cs[1..])
  }

  /** How many capabilities are stored before the 64K limit is hit; used counts the bytes after the size field. */
  function KeepCount(cs: seq<Capreq>, used: nat): (k: nat)
    requires forall k :: 0 <= k < |cs| ==> Storable(cs[k])
    ensures k <= |cs|
  {
    if cs == [] || used + |Store(cs[0])| > UINT16_MAX - 1 then 0
    else 1 + KeepCount(cs[1..], used + |Store(cs[0])|)
  }

  /** The capabilities that are stored. */
  function Kept(cs: seq<Capreq>): seq<Capreq>
    requires forall k :: 0 <= k < |cs| ==> Storable(cs[k])
  {
    cs[..KeepCount(cs, 2)]
  }

  /** capreq_arr_restore on the bytes after the size field. */
  function RestoreArray(b: seq<Byte>): seq<Capreq>
    requires |b| >= 2
  {
    RestoreFrom(b, 2, 0, b[0] as int * 256 + b[1])
  }
}
