/** An epoch, version and release as text: printed (capreq.c) and cut up again in place (pkgmisc.c). */
module EvrText {
  import opened Wrappers
  import opened BooldepSpec

  /** What poldek_util_parse_evr gives. */
  datatype Parsed = NoEvr | Parsed(epoch: int, ver: string, release: Option<string>)

  const LONG_MAX := 0x7fff_ffff_ffff_ffff

  predicate IsInt32(x: int) {
    -0x8000_0000 <= x < 0x8000_0000
  }

  /** The int32_t that a long is cut to. */
  function ToInt32(x: int): int {
    if x % 0x1_0000_0000 < 0x8000_0000 then x % 0x1_0000_0000 else x % 0x1_0000_0000 - 0x1_0000_0000
  }

  // ----- printing

  function Digit(d: nat): char
    requires d < 10
  {
    '0' + d as char
  }

  function Digits(n: nat): (r: string)
    ensures r != ""
  {
    if n < 10 then [Digit(n)] else Digits(n / 10) + [Digit(n % 10)]
  }

  /** The %d of printf. */
  function Decimal(n: int): (r: string)
    ensures r != ""
  {
    if n < 0 then "-" + Digits(-n) else Digits(n)
  }

  /** The E:V-R part that do_capreq_snprintf emits; an epoch of zero is none. */
  function Print(epoch: int, ver: string, release: Option<string>): string {
    (if epoch != 0 then Decimal(epoch) + ":" else "") + Tail(ver, release)
  }

  function Tail(ver: string, release: Option<string>): string {
    ver + (if release.Some? then "-" + release.value else "")
  }

  // ----- reading

  function Find(s: string, c: char): (n: nat)
    ensures n <= |s| && (n < |s| ==> s[n] == c)
    ensures forall i :: 0 <= i < n ==> s[i] != c
  {
    if s == "" || s[0] == c then 0 else 1 + Find(s[1..], c)
  }

  predicate IsDigit(c: char) {
    '0' <= c <= '9'
  }

  /** The value of the digits a text begins with. */
  function Value(s: string, acc: nat): nat
    decreases |s|
  {
    if s == "" || !IsDigit(s[0]) then acc else Value(s[1..], acc * 10 + (s[0] - '0') as nat)
  }

  /** strtol; nothing when the number is out of range. */
  function Strtol(s: string): Option<int> {
    var t := SkipWhite(s);
    var x: int := if t != "" && t[0] == '-' then -(Value(t[1..], 0) as int)
             else if t != "" && t[0] == '+' then Value(t[1..], 0)
             else Value(t, 0);
    if -LONG_MAX - 1 <= x <= LONG_MAX then Some(x) else None
  }

  /** The epoch of the text in front of a colon. */
  function ParseEpoch(s: string): Option<int> {
    if s == "" then Some(0)
    else
      match Strtol(s)
      case None => None
      case Some(x) => if ToInt32(x) == 0 && s != "0" then None else Some(ToInt32(x))
  }

  /** The version and release behind it. */
  function ParseTail(epoch: int, s: string): Parsed {
    var n := Find(s, '-');
    if n == |s| then Parsed(epoch, s, None)
    else if n == 0 || n + 1 == |s| then NoEvr
    else Parsed(epoch, s[..n], Some(s[n + 1..]))
  }

  /** poldek_util_parse_evr. */
  function Parse(s: string): Parsed {
    var t := SkipWhite(s);
    var n := Find(t, ':');
    if t == "" then NoEvr
    else if n == |t| then ParseTail(0, t)
    else
      var epoch := ParseEpoch(t[..n]);
      if epoch.None? || n + 1 == |t| then NoEvr else ParseTail(epoch.value, t[n + 1..])
  }

  /** The C string in a buffer from some place on. */
  ghost function CString(buf: seq<char>, at: nat): string
    requires at <= |buf|
  {
    buf[at..at + Find(buf[at..], '\0')]
  }

  ghost predicate Terminated(buf: seq<char>, s: string) {
    buf == s + ['\0'] && '\0' !in s
  }

  /**
   * poldek_util_parse_evr as it is: the text is cut with zeros at the colon and at the dash, and version and
   * release are places in it.
   */
  method ParseInPlace(buf: array<char>, ghost s: string) returns (ok: bool, epoch: int, version: nat, release: Option<nat>)
    requires Terminated(buf[..], s)
    modifies buf
    ensures Shows(buf[..], if ok then Some((epoch, version, release)) else None, Parse(s))
  {
    hide SkipWhite, Find, ParseTail, ParseEpoch, Shows, CString;
    FailShows(buf[..]);
    ghost var t := SkipWhite(s);
    var p := SkipSpaces(buf, s);
    assert buf[p] == buf[p..][0];
    if buf[p] == '\0' { return false, 0, 0, None; }
    var q := FindIn(buf, p, ':', t);
    epoch := 0;
    ghost var rest := t;
    if q < buf.Length - 1 {
      var head := buf[p..q];
      assert head == t[..q - p];
      rest := t[q - p + 1..];
      assert buf[q + 1..] == buf[p..][q - p + 1..] == rest + ['\0'];
      buf[q] := '\0';
      p := q + 1;
      var e := ParseEpoch(head);
      assert buf[p] == buf[p..][0];
      if e.None? || buf[p] == '\0' {
        FailShows(buf[..]);
        return false, 0, 0, None;
      }
      epoch := e.value;
    }
    ok, version, release := CutTail(buf, p, epoch, rest);
  }

  /** The dash is replaced by a zero. */
  method CutTail(buf: array<char>, p: nat, ghost epoch: int, ghost rest: string) returns (ok: bool, version: nat, release: Option<nat>)
    requires p < buf.Length && Terminated(buf[p..], rest)
    modifies buf
    ensures Shows(buf[..], if ok then Some((epoch, version, release)) else None, ParseTail(epoch, rest))
  {
    hide Shows, CString, ParseTail;
    var q := FindIn(buf, p, '-', rest);
    CutShows(buf[..], p, q, epoch, rest);
    if q < buf.Length - 1 {
      buf[q] := '\0';
      if buf[p] == '\0' || buf[q + 1] == '\0' { return false, 0, None; }
      return true, p, Some(q + 1);
    }
    return true, p, None;
  }

  lemma CutShows(buf: seq<char>, p: nat, q: nat, epoch: int, rest: string)
    requires p < |buf| && Terminated(buf[p..], rest) && p <= q < |buf| && q - p == Find(rest, '-')
    ensures q == |buf| - 1 ==> Shows(buf, Some((epoch, p, None)), ParseTail(epoch, rest))
    ensures q < |buf| - 1 ==> var cut := buf[q := '\0'];
              Shows(cut, if cut[p] == '\0' || cut[q + 1] == '\0' then None else Some((epoch, p, Some(q + 1))), ParseTail(epoch, rest))
  {
    hide CString, Find;
    var n := q - p;
    assert buf[p..p + |rest|] == rest && buf[p + |rest|] == buf[p..][|rest|];
    if n < |rest| {
      var cut := buf[q := '\0'];
      assert cut[p..q] == buf[p..p + |rest|][..n] == rest[..n];
      assert cut[q + 1..p + |rest|] == buf[p..p + |rest|][n + 1..] == rest[n + 1..];
      assert n > 0 ==> cut[p] == rest[0];
      assert n + 1 < |rest| ==> cut[q + 1] == rest[n + 1];
      IsCString(cut, p, rest[..n]);
      IsCString(cut, q + 1, rest[n + 1..]);
    } else {
      IsCString(buf, p, rest);
    }
  }

  /** The results are the parsed ones: a failure, or an epoch and the places of the C strings in the buffer. */
  ghost predicate Shows(buf: seq<char>, r: Option<(int, nat, Option<nat>)>, parsed: Parsed) {
    match parsed
    case NoEvr => r.None?
    case Parsed(epoch, ver, release) =>
      && r.Some? && r.value.0 == epoch
      && r.value.1 < |buf| && CString(buf, r.value.1) == ver
      && (r.value.2.Some? <==> release.Some?)
      && (release.Some? ==> r.value.2.value < |buf| && CString(buf, r.value.2.value) == release.value)
  }

  lemma FailShows(buf: seq<char>)
    ensures Shows(buf, None, NoEvr)
  {
  }

  /** The loop over the spaces at the beginning. */
  method SkipSpaces(buf: array<char>, ghost s: string) returns (p: nat)
    requires Terminated(buf[..], s)
    ensures p < buf.Length && Terminated(buf[p..], SkipWhite(s))
  {
    p := 0;
    ghost var t := s;
    assert buf[0..] == buf[..];
    while IsSpace(buf[p])
      invariant p < buf.Length && Terminated(buf[p..], t) && SkipWhite(t) == SkipWhite(s)
      decreases buf.Length - p
    {
      assert buf[p..][0] == buf[p] && t != "" && t[0] == buf[p];
      assert buf[p + 1..] == buf[p..][1..] == t[1..] + ['\0'];
      t := t[1..];
      p := p + 1;
    }
    assert buf[p..][0] == buf[p];
  }

  /** strchr, or the end of the text. */
  method FindIn(buf: array<char>, p: nat, c: char, ghost t: string) returns (q: nat)
    requires p < buf.Length && Terminated(buf[p..], t) && c != '\0'
    ensures p <= q < buf.Length && q - p == Find(t, c)
  {
    q := p;
    while buf[q] != '\0' && buf[q] != c
      invariant p <= q < buf.Length && Find(t, c) == q - p + Find(t[q - p..], c)
      decreases buf.Length - q
    {
      assert buf[q] == buf[p..][q - p];
      assert t[q - p..][0] == buf[q] && t[q - p..][1..] == t[q - p + 1..];
      q := q + 1;
    }
    assert buf[q] == buf[p..][q - p];
    assert q - p < |t| ==> t[q - p..][0] == buf[q];
  }

  lemma IsCString(buf: seq<char>, at: nat, s: string)
    requires at + |s| < |buf| && buf[at..at + |s|] == s && buf[at + |s|] == '\0' && '\0' !in s
    ensures CString(buf, at) == s
  {
    assert buf[at..] == s + ['\0'] + buf[at + |s| + 1..];
    FindFirst(s, '\0', buf[at + |s| + 1..]);
  }

  // ----- round trip

  lemma {:induction false} ValueOver(a: string, c: char, acc: nat)
    requires (forall i :: 0 <= i < |a| ==> IsDigit(a[i])) && IsDigit(c)
    ensures Value(a + [c], acc) == Value(a, acc) * 10 + (c - '0') as nat
    decreases |a|
  {
    if a == "" {
      assert a + [c] == [c] && [c][1..] == "";
    } else {
      assert (a + [c])[1..] == a[1..] + [c];
      ValueOver(a[1..], c, acc * 10 + (a[0] - '0') as nat);
    }
  }

  lemma {:induction false} DigitsReadBack(n: nat)
    ensures forall i :: 0 <= i < |Digits(n)| ==> IsDigit(Digits(n)[i])
    ensures Value(Digits(n), 0) == n
  {
    if n < 10 {
      assert [Digit(n)][1..] == "";
    } else {
      DigitsReadBack(n / 10);
      ValueOver(Digits(n / 10), Digit(n % 10), 0);
    }
  }

  /** A nonzero epoch is read back from its decimal form. */
  lemma EpochReadsBack(e: int)
    requires IsInt32(e) && e != 0
    ensures ParseEpoch(Decimal(e)) == Some(e) && ':' !in Decimal(e) && !IsSpace(Decimal(e)[0])
  {
    DigitsReadBack(if e < 0 then -e else e);
    var d := Digits(if e < 0 then -e else e);
    assert IsDigit(d[0]);
    assert e < 0 ==> Decimal(e)[1..] == d;
    assert Strtol(Decimal(e)) == Some(e);
  }

  lemma {:induction false} FindFirst(a: string, c: char, b: string)
    requires c !in a
    ensures Find(a + [c] + b, c) == |a|
    decreases |a|
  {
    if a == "" {
      assert a + [c] + b == [c] + b;
    } else {
      assert (a + [c] + b)[1..] == a[1..] + [c] + b;
      FindFirst(a[1..], c, b);
    }
  }

  lemma TailReadsBack(epoch: int, ver: string, release: Option<string>)
    ensures ParseTail(epoch, Tail(ver, release)) == Parsed(epoch, ver, release) <==>
            '-' !in ver && (release.Some? ==> ver != "" && release.value != "")
  {
    var s := Tail(ver, release);
    if '-' !in ver {
      if release.Some? {
        assert s == ver + ['-'] + release.value;
        FindFirst(ver, '-', release.value);
      } else {
        assert s == ver;
      }
    } else {
      var i :| 0 <= i < |ver| && ver[i] == '-';
      assert s[i] == '-';
    }
  }

  function Length(p: Parsed): nat
    requires p.Parsed?
  {
    |p.ver| + if p.release.Some? then 1 + |p.release.value| else 0
  }

  lemma {:induction false} SkipWhiteShortens(s: string)
    ensures SkipWhite(s) == s <==> s == "" || !IsSpace(s[0])
    ensures SkipWhite(s) != s ==> |SkipWhite(s)| < |s|
  {
  }

  /**
   * The text is read back to what was printed exactly when version and release can be told apart in it and,
   * without an epoch, nothing in it is taken for one or for blanks in front.
   */
  lemma RoundTrip(epoch: int, ver: string, release: Option<string>)
    requires IsInt32(epoch)
    ensures Parse(Print(epoch, ver, release)) == Parsed(epoch, ver, release) <==>
            && ver != "" && '-' !in ver && (release.Some? ==> release.value != "")
            && (epoch == 0 ==> ':' !in Tail(ver, release) && !IsSpace(ver[0]))
  {
    if epoch != 0 { RoundTripWithEpoch(epoch, ver, release); } else { RoundTripWithout(ver, release); }
  }

  lemma RoundTripWithEpoch(epoch: int, ver: string, release: Option<string>)
    requires IsInt32(epoch) && epoch != 0
    ensures Parse(Print(epoch, ver, release)) == Parsed(epoch, ver, release) <==>
            ver != "" && '-' !in ver && (release.Some? ==> release.value != "")
  {
    hide ParseEpoch, ParseTail, Decimal, Find, SkipWhite;
    var tail, d := Tail(ver, release), Decimal(epoch);
    var s := d + [':'] + tail;
    TailReadsBack(epoch, ver, release);
    EpochReadsBack(epoch);
    SkipWhiteShortens(s);
    FindFirst(d, ':', tail);
    assert Print(epoch, ver, release) == s;
    assert s[..|d|] == d && s[|d| + 1..] == tail;
  }

  lemma RoundTripWithout(ver: string, release: Option<string>)
    ensures Parse(Print(0, ver, release)) == Parsed(0, ver, release) <==>
            && ver != "" && '-' !in ver && (release.Some? ==> release.value != "")
            && ':' !in Tail(ver, release) && !IsSpace(ver[0])
  {
    var tail := Tail(ver, release);
    TailReadsBack(0, ver, release);
    SkipWhiteShortens(tail);
    if Parse(tail).Parsed? { ParsedLength(tail); }
    assert Print(0, ver, release) == tail && |tail| == Length(Parsed(0, ver, release));
    assert ver != "" ==> tail[0] == ver[0];
    hide ParseTail, ParseEpoch, SkipWhite, Find;
    if tail != "" && SkipWhite(tail) == tail && ':' !in tail {
      assert Parse(tail) == ParseTail(0, tail);
    }
  }

  /** A text with an epoch or blanks in front is longer than what it is read as. */
  lemma ParsedLength(s: string)
    requires Parse(s).Parsed?
    ensures Length(Parse(s)) <= |s|
    ensures SkipWhite(s) != s || ':' in s ==> Length(Parse(s)) < |s|
  {
    SkipWhiteShortens(s);
    var t := SkipWhite(s);
    var n := Find(t, ':');
    assert t == s && ':' in s ==> n < |t|;
    hide ParseTail, ParseEpoch, SkipWhite, Find;
    if n == |t| {
      TailLength(0, t);
    } else {
      TailLength(ParseEpoch(t[..n]).value, t[n + 1..]);
    }
  }

  lemma TailLength(epoch: int, s: string)
    ensures ParseTail(epoch, s).Parsed? ==> Length(ParseTail(epoch, s)) == |s|
  {
  }
}
