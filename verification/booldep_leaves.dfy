/** Identifiers whose version requirement can be read as an EVR (booldep_parse.c, capreq.c). */
module BooldepLeaves {
  import opened Wrappers
  import opened Relations
  import opened BooldepSpec
  import opened BooldepGrammar
  import EvrText

  /** A version requirement that is an EVR: maybe blanks and an epoch, a version, and maybe a release. */
  ghost predicate IsEvr(s: string) {
    exists lead: string, epoch: Option<string>, ver: string, release: Option<string> :: EvrOf(s, lead, epoch, ver, release)
  }

  ghost predicate EvrOf(s: string, lead: string, epoch: Option<string>, ver: string, release: Option<string>) {
    && s == lead + ((if epoch.Some? then epoch.value + ":" else "") + EvrText.Tail(ver, release))
    && White(lead) && ver != "" && '-' !in ver && (release.Some? ==> release.value != "")
    && if epoch.Some? then
         ':' !in epoch.value && EvrText.ParseEpoch(epoch.value).Some? && (epoch.value != "" ==> !IsSpace(epoch.value[0]))
       else ':' !in EvrText.Tail(ver, release) && !IsSpace(ver[0])
  }

  /** node_new gives an identifier a capreq: capreq_new_evr does so unless the EVR cannot be read. */
  predicate HasCap(leaf: Node)
    requires leaf.Leaf?
  {
    leaf.evr.None? || EvrText.Parse(leaf.evr.value).Parsed?
  }

  /** Every identifier of the tree has its capreq. */
  predicate Readable(n: Node) {
    match n
    case Leaf(_, _, _) => HasCap(n)
    case Op(_, args) => forall i :: 0 <= i < |args| ==> Readable(args[i])
  }

  /** Every version requirement of the text is an EVR. */
  ghost predicate ReadableTerm(x: Term) {
    match x
    case Word(_, None) => true
    case Word(_, Some(v)) => IsEvr(v.evr)
    case Paren(body) => ReadableBody(body)
  }

  ghost predicate ReadableBody(b: Body) {
    match b
    case Last(_, term, _) => ReadableTerm(term)
    case Chain(_, term, _, _, more) => ReadableTerm(term) && ReadableBody(more)
  }

  ghost predicate AllDigits(d: string) {
    forall i :: 0 <= i < |d| ==> '0' <= d[i] <= '9'
  }

  /** The number that digits stand for. */
  ghost function Number(d: string): nat
    requires AllDigits(d)
  {
    if d == "" then 0 else Number(d[..|d| - 1]) * 10 + (d[|d| - 1] - '0') as nat
  }

  lemma {:induction false} ValueIsNumber(d: string)
    requires AllDigits(d)
    ensures EvrText.Value(d, 0) == Number(d)
    decreases |d|
  {
    if d != "" {
      var init, last := d[..|d| - 1], d[|d| - 1];
      assert d == init + [last];
      ValueIsNumber(init);
      EvrText.ValueOver(init, last, 0);
    }
  }

  lemma {:induction false} ValueStops(d: string, junk: string, acc: nat)
    requires AllDigits(d) && (junk == "" || !EvrText.IsDigit(junk[0]))
    ensures EvrText.Value(d + junk, acc) == EvrText.Value(d, acc)
    decreases |d|
  {
    if d == "" {
      assert d + junk == junk;
    } else {
      assert (d + junk)[1..] == d[1..] + junk;
      ValueStops(d[1..], junk, acc * 10 + (d[0] - '0') as nat);
    }
  }

  /** Blanks, a sign, digits, and something that is not looked at. */
  ghost predicate IsNumeral(text: string, lead: string, sign: string, d: string, junk: string) {
    && text == lead + (sign + (d + junk)) && White(lead) && AllDigits(d)
    && (sign == "" || sign == "+" || sign == "-") && (junk == "" || !('0' <= junk[0] <= '9'))
    && (sign == "" && d == "" && junk != "" ==> !IsSpace(junk[0]) && junk[0] != '+' && junk[0] != '-')
  }

  lemma StrtolIsNumber(text: string, lead: string, sign: string, d: string, junk: string)
    requires IsNumeral(text, lead, sign, d, junk)
    ensures var x := if sign == "-" then -(Number(d) as int) else Number(d);
            EvrText.Strtol(text) == if -0x8000_0000_0000_0000 <= x < 0x8000_0000_0000_0000 then Some(x) else None
  {
    var t := sign + (d + junk);
    SkipLead(lead, t);
    ValueIsNumber(d);
    ValueStops(d, junk, 0);
    if sign == "" {
      assert t == d + junk;
      assert t != "" ==> t[0] != '+' && t[0] != '-' by {
        if d != "" { assert t[0] == d[0]; } else if junk != "" { assert t[0] == junk[0]; }
      }
    } else {
      assert t[0] == sign[0] && t[1..] == d + junk;
    }
  }

  /** What is cut to 32 bits is the one signed number of so many bits that differs by a multiple of 2 to the 32. */
  lemma CutTo32(x: int)
    ensures var r := EvrText.ToInt32(x); -0x8000_0000 <= r < 0x8000_0000 && (r - x) % 0x1_0000_0000 == 0
  {
  }

  /**
    The epoch in front of a colon: none written is zero, a number out of the range of a long is refused, any other
    is cut to 32 bits; a zero has to be written as "0".
   */
  lemma EpochIsRead(text: string, lead: string, sign: string, d: string, junk: string)
    requires IsNumeral(text, lead, sign, d, junk) && text != ""
    ensures var x := if sign == "-" then -(Number(d) as int) else Number(d);
            var r := EvrText.ToInt32(x);
            var refused := x < -0x8000_0000_0000_0000 || 0x8000_0000_0000_0000 <= x || (r == 0 && text != "0");
            EvrText.ParseEpoch(text) == (if refused then None else Some(r)) && EvrText.ParseEpoch("") == Some(0)
  {
    hide EvrText.Strtol, EvrText.ToInt32, IsNumeral;
    StrtolIsNumber(text, lead, sign, d, junk);
  }

  lemma {:induction false} FindNone(s: string, c: char)
    ensures EvrText.Find(s, c) == |s| <==> c !in s
    decreases |s|
  {
    if s != "" && s[0] != c {
      FindNone(s[1..], c);
      assert s == [s[0]] + s[1..];
    }
  }

  /** The text behind an epoch is a version and maybe a release. */
  lemma TailParses(epoch: int, s: string)
    ensures s != "" && EvrText.ParseTail(epoch, s).Parsed? <==>
            exists ver: string, release: Option<string> ::
              s == EvrText.Tail(ver, release) && ver != "" && '-' !in ver && (release.Some? ==> release.value != "")
  {
    if s != "" && EvrText.ParseTail(epoch, s).Parsed? {
      var n := EvrText.Find(s, '-');
      if n == |s| {
        FindNone(s, '-');
        assert s == EvrText.Tail(s, None);
      } else {
        assert s == EvrText.Tail(s[..n], Some(s[n + 1..]));
      }
    }
    if ver: string, release: Option<string> :|
      s == EvrText.Tail(ver, release) && ver != "" && '-' !in ver && (release.Some? ==> release.value != "")
    {
      EvrText.TailReadsBack(epoch, ver, release);
    }
  }

  /** What poldek_util_parse_evr accepts, said without it. */
  lemma EvrIsExact(s: string)
    ensures EvrText.Parse(s).Parsed? <==> IsEvr(s)
  {
    if EvrText.Parse(s).Parsed? {
      ParsedIsEvr(s);
    }
    if lead: string, epoch: Option<string>, ver: string, release: Option<string> :| EvrOf(s, lead, epoch, ver, release) {
      EvrIsParsed(s, lead, epoch, ver, release);
    }
  }

  lemma ParsedIsEvr(s: string)
    requires EvrText.Parse(s).Parsed?
    ensures IsEvr(s)
  {
    var lead := LeadOf(s);
    var t := SkipWhite(s);
    var n := EvrText.Find(t, ':');
    hide SkipWhite, EvrText.ParseTail, EvrText.ParseEpoch, EvrText.Find;
    FindNone(t, ':');
    if n == |t| {
      TailParses(0, t);
      var ver: string, release: Option<string> :|
        t == EvrText.Tail(ver, release) && ver != "" && '-' !in ver && (release.Some? ==> release.value != "");
      assert ver[0] == t[0];
      assert EvrOf(s, lead, None, ver, release) by { assert "" + t == t; }
    } else {
      var head, rest := t[..n], t[n + 1..];
      TailParses(EvrText.ParseEpoch(head).value, rest);
      var ver: string, release: Option<string> :|
        rest == EvrText.Tail(ver, release) && ver != "" && '-' !in ver && (release.Some? ==> release.value != "");
      assert t == head + ":" + rest && (head != "" ==> head[0] == t[0]);
      assert EvrOf(s, lead, Some(head), ver, release);
    }
  }

  lemma EvrIsParsed(s: string, lead: string, epoch: Option<string>, ver: string, release: Option<string>)
    requires EvrOf(s, lead, epoch, ver, release)
    ensures EvrText.Parse(s).Parsed?
  {
    var tail := EvrText.Tail(ver, release);
    var t := (if epoch.Some? then epoch.value + ":" else "") + tail;
    assert ver[0] == tail[0];
    assert t != "" && !IsSpace(t[0]);
    SkipLead(lead, t);
    FindNone(t, ':');
    EvrText.TailReadsBack(0, ver, release);
    hide SkipWhite, EvrText.ParseTail, EvrText.ParseEpoch, EvrText.Tail, EvrText.Find;
    if epoch.Some? {
      var e := epoch.value;
      assert t == e + [':'] + tail;
      EvrText.FindFirst(e, ':', tail);
      assert t[..|e|] == e && t[|e| + 1..] == tail;
      EvrText.TailReadsBack(EvrText.ParseEpoch(e).value, ver, release);
    } else {
      assert t == tail;
    }
  }

  lemma {:induction false} ReadableTerms(x: Term)
    ensures Readable(TreeOfTerm(x)) <==> ReadableTerm(x)
    decreases x
  {
    match x
    case Word(_, None) =>
    case Word(_, Some(v)) => EvrIsExact(v.evr);
    case Paren(body) => ReadableBodies(body);
  }

  lemma {:induction false} ReadableBodies(b: Body)
    ensures Readable(TreeOf(b)) <==> ReadableBody(b)
    decreases b
  {
    ReadableTerms(b.term);
    if b.Chain? {
      var more := b.more;
      if more.Chain? && more.op == Else {
        ReadableTerms(more.term);
        ReadableBodies(more.more);
        ReadableArgs(Op(b.op, [TreeOfTerm(b.term), TreeOfTerm(more.term), TreeOf(more.more)]));
      } else {
        ReadableBodies(more);
        ReadableArgs(Op(b.op, [TreeOfTerm(b.term), TreeOf(more)]));
      }
    }
  }

  lemma ReadableArgs(n: Node)
    requires n.Op? && 2 <= |n.args| <= 3
    ensures Readable(n) <==> Readable(n.args[0]) && Readable(n.args[1]) && (|n.args| == 3 ==> Readable(n.args[2]))
  {
  }

  /** The accepted texts that leave no identifier without a capreq: those whose version requirements are EVRs. */
  lemma ReadableExactly(expr: string, node: Node, rest: string)
    ensures Parse(expr) == Item(node, rest) && Readable(node) <==>
            exists body :: Reads(expr, body, node, rest) && ReadableBody(body)
  {
    hide Parse, Readable, ReadableBody, TreeOf, ValidBody, RenderBody;
    ParserIsExact(expr, node, rest);
    forall body | Reads(expr, body, node, rest) ensures Readable(node) <==> ReadableBody(body) {
      ReadableBodies(body);
    }
  }

  /** A text that is accepted although one of its identifiers gets none. */
  lemma UnreadableAccepted()
    ensures var node := Leaf("a", Rel(false, true, false), Some(":"));
            Parse("(a = :)") == Item(node, "") && !Readable(node)
  {
    var node := Leaf("a", Rel(false, true, false), Some(":"));
    ExampleText();
    hide Parse, ValidBody, RenderBody, TreeOf, EvrText.Parse;
    ParserIsExact("(a = :)", node, "");
    ColonIsNoEvr();
  }

  lemma ExampleText()
    ensures var body := Last("", Word("a", Some(Version(" ", "=", " ", ":"))), "");
            Reads("(a = :)", body, Leaf("a", Rel(false, true, false), Some(":")), "")
  {
    var body := Last("", Word("a", Some(Version(" ", "=", " ", ":"))), "");
    Single("a");
    Single(":");
    assert RenderTerm(body.term) == "a = :" && RenderBody(body) == "a = :)" && RenderBody(body) + "" == "a = :)";
    hide Unbroken, Surplus;
    assert ValidBody(body, None);
    assert TreeOf(body) == Leaf("a", RelOf("="), Some(":"));
  }

  lemma ColonIsNoEvr()
    ensures EvrText.Parse(":") == EvrText.NoEvr
  {
    assert SkipWhite(":") == ":" && EvrText.Find(":", ':') == 0;
  }

  lemma Single(n: string)
    requires |n| == 1 && n[0] != ' ' && n[0] != ',' && n[0] != '(' && n[0] != ')'
    ensures Unbroken(n, 0) && Surplus(n) == 0
  {
    assert n[1..] == "" && Surplus(n) == 0;
    forall k | 0 <= k <= 1 ensures Surplus(n[..k]) >= 0 {
      if k == 0 { assert n[..0] == ""; } else { assert n[..1] == n; }
    }
  }
}
