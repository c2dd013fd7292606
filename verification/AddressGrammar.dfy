/** The parser accepts exactly the texts of the grammar, with their denotation. */
module AddressGrammar {
  import opened Integers
  import opened Wrappers
  import opened AddressText
  import opened Sequences

  // ----- Numerals -----

  lemma {:induction false} ValueOfPrefix(s: string, t: string, radix: Radix)
    requires IsNumeral(s + t, radix)
    ensures IsNumeral(s, radix) && Value(s, radix) <= Value(s + t, radix)
  {
    assert forall i | 0 <= i < |s| :: s[i] == (s + t)[i];
    if t == [] {
      assert s + t == s;
    } else {
      var u := t[..|t| - 1];
      assert (s + t)[..|s + t| - 1] == s + u;
      ValueOfPrefix(s, u, radix);
    }
  }

  lemma {:induction false} NumeralValue(n: nat, radix: Radix)
    ensures Numeral(n, radix) != [] && IsNumeral(Numeral(n, radix), radix)
    ensures Value(Numeral(n, radix), radix) == n
  {
    if n < radix {
      assert Value([], radix) == 0;
      assert [DigitChar(n)][..0] == [];
    } else {
      var q, d := if radix == 10 then n / 10 else n / 16, if radix == 10 then n % 10 else n % 16;
      NumeralValue(q, radix);
      var s := Numeral(q, radix);
      assert (s + [DigitChar(d)])[..|s|] == s;
    }
  }

  const LOWER := "0123456789abcdef"
  const UPPER := "0123456789ABCDEF"

  /** A character is the digit d exactly if it stands at place d of one of the two tables of
      the parser; the printer prints the one of the lower table. */
  lemma {:induction false} DigitsAre(c: char, d: nat)
    requires d < 16
    ensures DigitOf(c) == d <==> c == LOWER[d] || c == UPPER[d]
    ensures DigitChar(d) == LOWER[d]
  {
    if d < 10 {
      assert LOWER[d] == UPPER[d] == "0123456789"[d] == ('0' as int + d) as char;
    } else {
      assert LOWER[d] == "abcdef"[d - 10] == ('a' as int + d - 10) as char;
      assert UPPER[d] == "ABCDEF"[d - 10] == ('A' as int + d - 10) as char;
    }
  }

  /** No other character is a digit, and the decimal ones are the first ten. */
  lemma {:induction false} DigitsAreThese(c: char)
    ensures IsDigit(c, 16) <==> c in LOWER || c in UPPER
    ensures IsDigit(c, 10) <==> c in "0123456789"
  {
    if IsDigit(c, 16) {
      DigitsAre(c, DigitOf(c));
    }
    if c in LOWER || c in UPPER {
      var d :| 0 <= d < 16 && (c == LOWER[d] || c == UPPER[d]);
      DigitsAre(c, d);
    }
    if IsDigit(c, 10) {
      assert "0123456789"[DigitOf(c)] == LOWER[DigitOf(c)] == UPPER[DigitOf(c)];
    }
    if c in "0123456789" {
      var d :| 0 <= d < 10 && c == "0123456789"[d];
      assert LOWER[d] == "0123456789"[d];
      DigitsAre(c, d);
    }
  }

  /** A digit behind a numeral counts the numeral as many times as the radix says. */
  lemma {:induction false} ValueIsPositional(s: string, d: nat, radix: Radix)
    requires d < radix && IsNumeral(s, radix)
    ensures Value(s + [LOWER[d]], radix) == Value(s + [UPPER[d]], radix) == radix * Value(s, radix) + d
    ensures Value("", radix) == 0
  {
    DigitsAre(LOWER[d], d);
    DigitsAre(UPPER[d], d);
    assert (s + [LOWER[d]])[..|s|] == s && (s + [UPPER[d]])[..|s|] == s;
  }

  /** Numbers are printed in lower-case digits, and with no zero in front except for zero
      itself. */
  lemma {:induction false} NumeralIsShort(n: nat, radix: Radix)
    ensures Numeral(n, radix) != [] && (n > 0 ==> Numeral(n, radix)[0] != '0') && (n == 0 ==> Numeral(n, radix) == "0")
    ensures forall i | 0 <= i < |Numeral(n, radix)| :: Numeral(n, radix)[i] in LOWER
  {
    if n < radix {
      DigitsAre(LOWER[n], n);
    } else {
      var q, d := if radix == 10 then n / 10 else n / 16, if radix == 10 then n % 10 else n % 16;
      NumeralIsShort(q, radix);
      DigitsAre(LOWER[d], d);
    }
  }

  // ----- The dotted quad -----

  lemma {:induction false} ScanQuadDigits(g: string, rest: string, done: seq<byte>, cur: string)
    requires |done| <= 3 && IsNumeral(cur + g, 10) && Value(cur + g, 10) <= 255
    requires IsNumeral(cur, 10) && Value(cur, 10) <= 255
    ensures ScanQuad(g + rest, done, cur) == ScanQuad(rest, done, cur + g)
  {
    if g == [] {
      assert g + rest == rest && cur + g == cur;
    } else {
      var next := cur + [g[0]];
      assert (cur + g)[|cur|] == g[0];
      assert next + g[1..] == cur + g;
      ValueOfPrefix(next, g[1..], 10);
      assert (g + rest)[1..] == g[1..] + rest;
      ScanQuadDigits(g[1..], rest, done, next);
    }
  }

  lemma {:induction false} ScanQuadAccepts(q: Quad, done: seq<byte>)
    requires |q| + |done| == 4 && q != [] && ValidOctets(q)
    ensures ScanQuad(QuadText(q), done, []) == Some(done + QuadBytes(q))
  {
    var g := q[0];
    assert [] + g == g;
    if |q| == 1 {
      ScanQuadDigits(g, "", done, []);
      assert g + "" == g == QuadText(q);
      assert QuadBytes(q) == [Octet(Value(g, 10))];
    } else {
      var rest := "." + QuadText(q[1..]);
      AppendAssociates(g, ".", QuadText(q[1..]));
      ScanQuadDigits(g, rest, done, []);
      assert rest[1..] == QuadText(q[1..]);
      ScanQuadAccepts(q[1..], done + [Octet(Value(g, 10))]);
      AppendAssociates(done, [Octet(Value(g, 10))], QuadBytes(q[1..]));
    }
  }

  lemma {:induction false} ScanQuadSound(text: string, done: seq<byte>, cur: string) returns (q: Quad)
    requires |done| <= 3 && IsNumeral(cur, 10) && Value(cur, 10) <= 255
    requires ScanQuad(text, done, cur).Some?
    ensures q != [] && |q| + |done| == 4 && ValidOctets(q)
    ensures cur + text == QuadText(q)
    ensures ScanQuad(text, done, cur).value == done + QuadBytes(q)
    decreases |text|
  {
    if text == [] {
      q := [cur];
    } else if IsDigit(text[0], 10) {
      q := ScanQuadSound(text[1..], done, cur + [text[0]]);
      AppendHead(cur, text);
    } else {
      var r := ScanQuadSound(text[1..], done + [Octet(Value(cur, 10))], []);
      q := ConsOctet(cur, text, r);
      AppendAssociates(done, [Octet(Value(cur, 10))], QuadBytes(r));
    }
  }

  lemma {:induction false} ConsOctet(cur: string, text: string, r: Quad) returns (q: Quad)
    requires IsOctet(cur) && r != [] && ValidOctets(r)
    requires text != [] && text[0] == '.' && [] + text[1..] == QuadText(r)
    ensures q == [cur] + r && ValidOctets(q) && cur + text == QuadText(q)
    ensures QuadBytes(q) == [Octet(Value(cur, 10))] + QuadBytes(r)
  {
    q := [cur] + r;
    assert q[1..] == r;
    assert text == "." + text[1..];
  }

  /** A dotted quad is accepted exactly when it is four decimal strings of value at
      most 255 (leading zeros allowed) joined by dots, and its value is theirs. */
  lemma {:induction false} QuadGrammar(text: string, b: seq<byte>)
    ensures ParseQuad(text) == Some(b) <==>
            exists q :: |q| == 4 && ValidOctets(q) && text == QuadText(q) && b == QuadBytes(q)
  {
    if ParseQuad(text).Some? {
      var q := ScanQuadSound(text, [], []);
      assert "" + text == text;
      assert [] + QuadBytes(q) == QuadBytes(q);
    }
    forall q | |q| == 4 && ValidOctets(q) && text == QuadText(q)
      ensures ParseQuad(text) == Some(QuadBytes(q))
    {
      ScanQuadAccepts(q, []);
      assert [] + QuadBytes(q) == QuadBytes(q);
    }
  }

  // ----- IPv6: every text of the grammar is accepted -----

  lemma {:induction false} ScanDigits(g: string, rest: string, out: seq<byte>, colon: Option<nat>, tok: string)
    requires IsNumeral(tok + g, 16) && Value(tok + g, 16) <= 0xffff
    requires IsNumeral(tok, 16) && Value(tok, 16) <= 0xffff
    ensures Scan(g + rest, out, colon, tok) == Scan(rest, out, colon, tok + g)
  {
    if g == [] {
      assert g + rest == rest && tok + g == tok;
    } else {
      var next := tok + [g[0]];
      assert (tok + g)[|tok|] == g[0];
      assert next + g[1..] == tok + g;
      ValueOfPrefix(next, g[1..], 16);
      assert (g + rest)[1..] == g[1..] + rest;
      ScanDigits(g[1..], rest, out, colon, next);
    }
  }

  /** A complete group and the colon behind it. */
  lemma {:induction false} ScanGroup(g: string, rest: string, out: seq<byte>, colon: Option<nat>)
    requires IsGroup(g) && |out| + 2 <= 16
    ensures Scan(g + (":" + rest), out, colon, []) == Scan(rest, out + WordBytes(Value(g, 16)), colon, [])
  {
    assert [] + g == g;
    ScanDigits(g, ":" + rest, out, colon, []);
    assert (":" + rest)[1..] == rest;
  }

  lemma {:induction false} ScanGroups(gs: seq<string>, rest: string, out: seq<byte>, colon: Option<nat>)
    requires ValidGroups(gs) && |out| + 2 * |gs| <= 16
    ensures Scan(GroupsText(gs) + rest, out, colon, []) == Scan(rest, out + GroupsBytes(gs), colon, [])
  {
    if gs == [] {
      assert GroupsText(gs) + rest == rest && out + GroupsBytes(gs) == out;
    } else {
      var w, more := WordBytes(Value(gs[0], 16)), GroupsText(gs[1..]);
      ScanGroup(gs[0], more + rest, out, colon);
      ScanGroups(gs[1..], rest, out + w, colon);
      AppendAssociates(out, w, GroupsBytes(gs[1..]));
      AppendAssociates(gs[0] + ":", more, rest);
      AppendAssociates(gs[0], ":", more + rest);
    }
  }

  lemma {:induction false} ScanDotted(q: Quad, out: seq<byte>, colon: Option<nat>)
    requires |q| == 4 && ValidOctets(q) && |out| + 4 <= 16
    ensures Scan(QuadText(q), out, colon, []) == Some(Scanned(out + QuadBytes(q), colon))
  {
    var g, rest := q[0], "." + QuadText(q[1..]);
    assert ParseQuad(g + rest) == Some(QuadBytes(q)) by {
      ScanQuadAccepts(q, []);
      AppendAssociates(g, ".", QuadText(q[1..]));
      assert [] + QuadBytes(q) == QuadBytes(q);
    }
    OctetIsGroup(g);
    assert [] + g == g;
    ScanDigits(g, rest, out, colon, []);
    AppendAssociates(g, ".", QuadText(q[1..]));
  }

  lemma {:induction false} ScanTail(t: Tail, out: seq<byte>, colon: Option<nat>)
    requires ValidBody(Body([], t)) && |out| + |TailBytes(t)| <= 16
    ensures Scan(TailText(t), out, colon, []) == Some(Scanned(out + TailBytes(t), colon))
  {
    match t
    case Empty => assert out + [] == out;
    case Group(g) =>
      assert [] + g == g && g + "" == g;
      ScanDigits(g, "", out, colon, []);
    case Dotted(q) => ScanDotted(q, out, colon);
  }

  /** The digits of an octet, read as hexadecimal, still fit a group. */
  lemma {:induction false} OctetIsGroup(s: string)
    requires IsNumeral(s, 10) && Value(s, 10) <= 999
    ensures IsNumeral(s, 16) && Value(s, 16) <= 0x999
    ensures Value(s, 10) <= 99 ==> Value(s, 16) <= 0x99
    ensures Value(s, 10) <= 9 ==> Value(s, 16) <= 9
    ensures Value(s, 10) == 0 ==> Value(s, 16) == 0
  {
    if s != [] {
      OctetIsGroup(s[..|s| - 1]);
    }
  }

  lemma {:induction false} ScanBody(b: Body, out: seq<byte>, colon: Option<nat>)
    requires ValidBody(b) && |out| + |BodyBytes(b)| <= 16
    ensures Scan(BodyText(b), out, colon, []) == Some(Scanned(out + BodyBytes(b), colon))
  {
    ScanGroups(b.groups, TailText(b.tail), out, colon);
    ScanTail(b.tail, out + GroupsBytes(b.groups), colon);
    assert out + GroupsBytes(b.groups) + TailBytes(b.tail) == out + BodyBytes(b);
  }

  /** No text of groups starts with a colon, unless it is empty. */
  lemma {:induction false} BodyStart(b: Body)
    requires ValidBody(b) && BodyText(b) != []
    ensures BodyText(b)[0] != ':'
  {
    if b.groups != [] {
      assert IsDigit(b.groups[0][0], 16);
      assert BodyText(b)[0] == b.groups[0][0];
    } else if b.tail.Group? {
      assert IsDigit(b.tail.digits[0], 16);
    } else {
      assert IsDigit(b.tail.quad[0][0], 16);
      assert BodyText(b)[0] == b.tail.quad[0][0];
    }
  }

  lemma {:induction false} PlainAccepted(b: Body)
    requires ValidBody(b) && |BodyBytes(b)| == 16
    ensures ParseText(BodyText(b)) == Some(BodyBytes(b))
  {
    if BodyText(b) != [] {
      BodyStart(b);
    }
    ScanBody(b, [], None);
    assert [] + BodyBytes(b) == BodyBytes(b);
  }

  lemma {:induction false} GapAccepted(left: seq<string>, right: Body)
    requires ValidGroups(left) && ValidBody(right) && Fits(Gap(left, right))
    ensures ParseText(Render(Gap(left, right))) == Some(Denotation(Gap(left, right)))
  {
    var l, r := GroupsBytes(left), BodyBytes(right);
    var rest := ":" + BodyText(right);
    var text := GroupsText(left) + rest;
    GapStart(left, right);
    assert Scan(text, [], None, []) == Scan(rest, l, None, []) by {
      ScanGroups(left, rest, [], None);
      assert [] + l == l;
    }
    assert Scan(rest, l, None, []) == Some(Scanned(l + r, Some(|l|))) by {
      assert rest[1..] == BodyText(right);
      ScanBody(right, l, Some(|l|));
    }
    ExpandGap(l, r);
  }

  lemma {:induction false} ExpandGap(l: seq<byte>, r: seq<byte>)
    requires |l| + |r| <= 16
    ensures Expand(Scanned(l + r, Some(|l|)))
            == Some(if |l| + |r| == 16 then l + Zeros(|r|) else l + Zeros(16 - |l| - |r|) + r)
  {
    assert (l + r)[..|l|] == l && (l + r)[|l|..] == r;
  }

  /** A text with `::` that starts with a colon starts with two. */
  lemma {:induction false} GapStart(left: seq<string>, right: Body)
    requires ValidGroups(left)
    ensures var src, text := Render(Gap(left, right)), GroupsText(left) + (":" + BodyText(right));
            if left == [] then src[0] == ':' && |src| >= 2 && src[1] == ':' && src[1..] == text
            else src == text && src[0] != ':'
  {
    if left == [] {
      assert Render(Gap(left, right)) == "::" + BodyText(right);
    } else {
      assert IsDigit(left[0][0], 16);
    }
  }

  lemma {:induction false} TextAccepted(t: Text)
    requires ValidText(t) && Fits(t)
    ensures ParseText(Render(t)) == Some(Denotation(t))
  {
    match t
    case Plain(b) => PlainAccepted(b);
    case Gap(left, right) => GapAccepted(left, right);
  }

  // ----- IPv6: every accepted text is a text of the grammar -----

  /** The rest of a text in which `::` was already seen is a body. */
  lemma {:induction false} BodyOfScan(text: string, out: seq<byte>, colon: Option<nat>, tok: string) returns (b: Body)
    requires |out| <= 16 && IsNumeral(tok, 16) && Value(tok, 16) <= 0xffff
    requires colon.Some? && colon.value <= |out|
    requires Scan(text, out, colon, tok).Some?
    ensures ValidBody(b) && tok + text == BodyText(b)
    ensures Scan(text, out, colon, tok).value == Scanned(out + BodyBytes(b), colon)
    decreases |text|
  {
    if text == [] {
      b := Body([], if tok == [] then Empty else Group(tok));
    } else if IsDigit(text[0], 16) {
      b := BodyOfScan(text[1..], out, colon, tok + [text[0]]);
      AppendHead(tok, text);
    } else if text[0] == ':' {
      var w := WordBytes(Value(tok, 16));
      var r := BodyOfScan(text[1..], out + w, colon, []);
      b := ConsGroup(tok, text, r);
      AppendAssociates(out, w, BodyBytes(r));
    } else {
      b := DottedBody(tok + text);
      assert out + BodyBytes(b) == out + ParseQuad(tok + text).value;
    }
  }

  lemma {:induction false} ConsGroup(tok: string, text: string, r: Body) returns (b: Body)
    requires IsGroup(tok) && ValidBody(r)
    requires text != [] && text[0] == ':' && [] + text[1..] == BodyText(r)
    ensures ValidBody(b) && tok + text == BodyText(b)
    ensures b == Body([tok] + r.groups, r.tail)
    ensures BodyBytes(b) == WordBytes(Value(tok, 16)) + BodyBytes(r)
  {
    b := Body([tok] + r.groups, r.tail);
    ConsLeft(tok, text, r.groups, TailText(r.tail));
  }

  lemma {:induction false} ConsLeft(tok: string, text: string, left: seq<string>, rest: string)
    requires IsGroup(tok) && ValidGroups(left)
    requires text != [] && text[0] == ':' && [] + text[1..] == GroupsText(left) + rest
    ensures ValidGroups([tok] + left) && tok + text == GroupsText([tok] + left) + rest
    ensures GroupsBytes([tok] + left) == WordBytes(Value(tok, 16)) + GroupsBytes(left)
  {
    assert ([tok] + left)[1..] == left;
    var more := GroupsText(left) + rest;
    assert tok + text == tok + ":" + more;
    assert GroupsText([tok] + left) + rest == tok + ":" + more;
  }

  lemma {:induction false} DottedBody(text: string) returns (b: Body)
    requires ParseQuad(text).Some?
    ensures ValidBody(b) && text == BodyText(b) && BodyBytes(b) == ParseQuad(text).value
  {
    var q := ScanQuadSound(text, [], []);
    b := Body([], Dotted(q));
    assert "" + text == text && "" + QuadText(q) == QuadText(q);
  }

  /** `rest` is the text of `t` but for a first colon of a leading `::`, and `s` is
      what the scan stores for it behind the bytes `out`. */
  ghost predicate Describes(t: Text, rest: string, out: seq<byte>, s: Scanned) {
    && ValidText(t)
    && match t
       case Plain(b) => rest == BodyText(b) && s == Scanned(out + BodyBytes(b), None)
       case Gap(left, right) =>
         && rest == GroupsText(left) + (":" + BodyText(right))
         && s == Scanned(out + GroupsBytes(left) + BodyBytes(right), Some(|out + GroupsBytes(left)|))
  }

  /** The rest of a text in which `::` was not seen yet. */
  lemma {:induction false} TextOfScan(text: string, out: seq<byte>, tok: string) returns (t: Text)
    requires |out| <= 16 && IsNumeral(tok, 16) && Value(tok, 16) <= 0xffff
    requires Scan(text, out, None, tok).Some?
    ensures Describes(t, tok + text, out, Scan(text, out, None, tok).value)
    decreases |text|
  {
    if text == [] {
      t := Plain(Body([], if tok == [] then Empty else Group(tok)));
    } else if IsDigit(text[0], 16) {
      t := TextOfScan(text[1..], out, tok + [text[0]]);
      AppendHead(tok, text);
    } else if text[0] == ':' && tok == [] {
      var r := BodyOfScan(text[1..], out, Some(|out|), []);
      t := Gap([], r);
      LeadingGap(text, out, r);
    } else if text[0] == ':' {
      var r := TextOfScan(text[1..], out + WordBytes(Value(tok, 16)), []);
      t := ConsText(tok, text, out, r, Scan(text, out, None, tok).value);
    } else {
      var b := DottedBody(tok + text);
      t := Plain(b);
    }
  }

  lemma {:induction false} LeadingGap(text: string, out: seq<byte>, r: Body)
    requires text != [] && text[0] == ':' && [] + text[1..] == BodyText(r)
    ensures [] + text == GroupsText([]) + (":" + BodyText(r)) && out + GroupsBytes([]) == out
  {
  }

  lemma {:induction false} ConsText(tok: string, text: string, out: seq<byte>, r: Text, s: Scanned) returns (t: Text)
    requires IsGroup(tok) && text != [] && text[0] == ':'
    requires Describes(r, [] + text[1..], out + WordBytes(Value(tok, 16)), s)
    ensures Describes(t, tok + text, out, s)
  {
    var w := WordBytes(Value(tok, 16));
    match r
    case Plain(body) =>
      var b := ConsGroup(tok, text, body);
      t := Plain(b);
      AppendAssociates(out, w, BodyBytes(body));
    case Gap(left, right) =>
      var left' := [tok] + left;
      t := Gap(left', right);
      ConsLeft(tok, text, left, ":" + BodyText(right));
      AppendAssociates(out, w, GroupsBytes(left));
  }

  lemma {:induction false} AcceptedText(src: string) returns (t: Text)
    requires ParseText(src).Some?
    ensures ValidText(t) && Fits(t) && src == Render(t)
  {
    var skip := src != [] && src[0] == ':';
    var text := if skip then src[1..] else src;
    t := TextOfScan(text, [], []);
    assert "" + text == text;
    match t
    case Plain(b) =>
      assert [] + BodyBytes(b) == BodyBytes(b);
      if text != [] {
        BodyStart(b);
      }
    case Gap(left, right) =>
      assert |[] + GroupsBytes(left) + BodyBytes(right)| <= 16;
      GapStart(left, right);
      if left != [] {
        assert IsDigit(left[0][0], 16);
        assert text[0] == left[0][0];
      } else {
        assert src == ":" + text;
        assert Render(t) == ":" + text;
      }
  }

  /** The parser accepts exactly the texts of the grammar that fit 16 bytes, and
      stores what they denote. */
  lemma {:induction false} TextGrammar(src: string, a: seq<byte>)
    ensures ParseText(src) == Some(a) <==>
            exists t :: ValidText(t) && Fits(t) && src == Render(t) && a == Denotation(t)
  {
    if ParseText(src).Some? {
      var t := AcceptedText(src);
      TextAccepted(t);
    }
    forall t | ValidText(t) && Fits(t) && src == Render(t)
      ensures ParseText(src) == Some(Denotation(t))
    {
      TextAccepted(t);
    }
  }

  /** The comment at libfree/inet_pton.c:134 says that `::` in a full address is
      ignored. That is so exactly when the bytes to its right are all zero. */
  lemma {:induction false} FullGapIsIgnored(left: seq<string>, right: Body)
    requires ValidText(Gap(left, right)) && |GroupsBytes(left)| + |BodyBytes(right)| == 16
    ensures ParseText(Render(Gap(left, right))) == Some(GroupsBytes(left) + BodyBytes(right))
            <==> (forall i | 0 <= i < |BodyBytes(right)| :: BodyBytes(right)[i] == 0)
  {
    var l, r := GroupsBytes(left), BodyBytes(right);
    TextAccepted(Gap(left, right));
    if forall i | 0 <= i < |r| :: r[i] == 0 {
      assert r == Zeros(|r|);
    }
    if l + Zeros(|r|) == l + r {
      assert (l + Zeros(|r|))[|l|..] == Zeros(|r|);
      assert (l + r)[|l|..] == r;
    }
  }

  lemma {:induction false} ZeroGroups(gs: seq<string>)
    requires forall i | 0 <= i < |gs| :: gs[i] == "0"
    ensures GroupsBytes(gs) == Zeros(2 * |gs|)
  {
    if gs != [] {
      ZeroGroups(gs[1..]);
      NumeralValue(0, 16);
    }
  }

  lemma {:induction false} ZeroIsGroup()
    ensures IsGroup("0") && IsGroup("1")
  {
    NumeralValue(0, 16);
    NumeralValue(1, 16);
  }

  /** It is not so in general: 0:0:0:0:0:0:0::1 loses its last group. */
  lemma {:induction false} FullGapWipesTheTail()
    ensures ParseText(Render(Gap(seq(7, _ => "0"), Body([], Group("1"))))) == Some(Zeros(16))
  {
    var left := seq(7, _ => "0");
    ZeroIsGroup();
    ZeroGroups(left);
    TextAccepted(Gap(left, Body([], Group("1"))));
    assert Zeros(14) + Zeros(2) == Zeros(16);
  }
}
