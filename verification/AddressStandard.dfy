/** Which of the texts that libfree/inet_pton.c accepts are texts of section 2.2 of RFC
    4291, and how to tell from their characters. */
module AddressStandard {
  import opened Sequences
  import opened AddressText
  import opened AddressGrammar

  // ----- The standard -----

  predicate ShortGroups(gs: seq<string>) {
    forall i | 0 <= i < |gs| :: |gs[i]| <= 4
  }

  predicate ShortBody(b: Body) {
    ShortGroups(b.groups) && (b.tail.Group? ==> |b.tail.digits| <= 4)
  }

  function TailPieces(t: Tail): nat {
    match t case Empty => 0 case Group(g) => 1 case Dotted(q) => 2
  }

  /** The 16-bit pieces of a body; a dotted quad stands for two. */
  function Pieces(b: Body): nat {
    |b.groups| + TailPieces(b.tail)
  }

  /** A text of section 2.2: groups of one to four digits, eight pieces or `::` for one or
      more of them, and a colon at the end only as part of `::`. The section sets no limit
      to the digits of a decimal value. */
  predicate Standard(t: Text) {
    && ValidText(t)
    && match t
       case Plain(b) => ShortBody(b) && !b.tail.Empty? && Pieces(b) == 8
       case Gap(left, right) =>
         && ShortGroups(left) && ShortBody(right) && (right.tail.Empty? ==> right.groups == [])
         && |left| + Pieces(right) <= 7
  }

  // ----- What a caller can see -----

  /** How many runs of digits begin in a text, behind a digit or not. */
  function Numerals(s: string, inside: bool): nat {
    if s == [] then 0
    else (if IsDigit(s[0], 16) && !inside then 1 else 0) + Numerals(s[1..], IsDigit(s[0], 16))
  }

  /** A run of more than four digits that touches no dot, behind `n` digits of a run that
      begins at a dot or not. */
  predicate LongNumeral(s: string, n: nat, dotted: bool) {
    if s == [] then n > 4 && !dotted
    else if IsDigit(s[0], 16) then LongNumeral(s[1..], n + 1, dotted)
    else (n > 4 && !dotted && s[0] != '.') || LongNumeral(s[1..], 0, s[0] == '.')
  }

  predicate HasGap(s: string) {
    |s| >= 2 && ((s[0] == ':' && s[1] == ':') || HasGap(s[1..]))
  }

  /** A colon at the end that is not part of `::`. */
  predicate EndsInColon(s: string) {
    s != [] && s[|s| - 1] == ':' && !(|s| >= 2 && s[|s| - 2] == ':')
  }

  /** `::` among eight pieces, which leave it none to stand for. */
  predicate FullGap(s: string) {
    HasGap(s) && Numerals(s, false) == if '.' in s then 10 else 8
  }

  // ----- Digits and groups in front of a text -----

  lemma {:induction false} DigitsInRun(g: string, rest: string, n: nat, dotted: bool)
    requires IsNumeral(g, 16)
    ensures LongNumeral(g + rest, n, dotted) == LongNumeral(rest, n + |g|, dotted)
  {
    if g == [] {
      assert g + rest == rest;
    } else {
      assert (g + rest)[1..] == g[1..] + rest;
      DigitsInRun(g[1..], rest, n + 1, dotted);
    }
  }

  lemma {:induction false} DigitsAreOne(g: string, rest: string, inside: bool)
    requires IsNumeral(g, 16)
    ensures Numerals(g + rest, inside)
            == (if g != [] && !inside then 1 else 0) + Numerals(rest, g != [] || inside)
  {
    if g == [] {
      assert g + rest == rest;
    } else {
      assert (g + rest)[1..] == g[1..] + rest;
      DigitsAreOne(g[1..], rest, true);
    }
  }

  lemma {:induction false} DigitsHaveNoGap(g: string, rest: string)
    requires IsNumeral(g, 16)
    ensures HasGap(g + rest) == HasGap(rest)
  {
    if g == [] {
      assert g + rest == rest;
    } else {
      assert (g + rest)[0] == g[0] && (g + rest)[1..] == g[1..] + rest;
      DigitsHaveNoGap(g[1..], rest);
    }
  }

  lemma {:induction false} DigitsHaveNoDot(g: string, rest: string)
    requires IsNumeral(g, 16)
    ensures '.' in g + rest <==> '.' in rest
  {
    assert forall i | 0 <= i < |g| :: g[i] != '.';
  }

  /** One group and its colon. */
  lemma {:induction false} GroupInFront(g: string, rest: string)
    requires IsGroup(g)
    ensures var s := g + (":" + rest);
            && Numerals(s, false) == 1 + Numerals(rest, false)
            && (LongNumeral(s, 0, false) <==> |g| > 4 || LongNumeral(rest, 0, false))
            && (HasGap(s) <==> (rest != [] && rest[0] == ':') || HasGap(rest))
            && ('.' in s <==> '.' in rest)
  {
    DigitsAreOne(g, ":" + rest, false);
    DigitsInRun(g, ":" + rest, 0, false);
    DigitsHaveNoGap(g, ":" + rest);
    DigitsHaveNoDot(g, ":" + rest);
    assert (":" + rest)[1..] == rest;
  }

  lemma {:induction false} GroupsInFront(gs: seq<string>, rest: string)
    requires ValidGroups(gs)
    ensures var s := GroupsText(gs) + rest;
            && Numerals(s, false) == |gs| + Numerals(rest, false)
            && (LongNumeral(s, 0, false) <==> !ShortGroups(gs) || LongNumeral(rest, 0, false))
            && (HasGap(s) <==> (gs != [] && rest != [] && rest[0] == ':') || HasGap(rest))
            && ('.' in s <==> '.' in rest)
  {
    if gs == [] {
      assert GroupsText(gs) + rest == rest;
    } else {
      var more := GroupsText(gs[1..]);
      GroupsInFront(gs[1..], rest);
      GroupInFront(gs[0], more + rest);
      AppendAssociates(gs[0] + ":", more, rest);
      AppendAssociates(gs[0], ":", more + rest);
      GroupsBegin(gs[1..], rest);
      ShortFirst(gs);
    }
  }

  lemma {:induction false} ShortFirst(gs: seq<string>)
    requires gs != []
    ensures ShortGroups(gs) <==> |gs[0]| <= 4 && ShortGroups(gs[1..])
  {
    assert gs == [gs[0]] + gs[1..];
  }

  lemma {:induction false} GroupsBegin(gs: seq<string>, rest: string)
    requires ValidGroups(gs)
    ensures gs != [] ==> GroupsText(gs) + rest != [] && (GroupsText(gs) + rest)[0] != ':'
    ensures gs == [] ==> GroupsText(gs) + rest == rest
  {
    if gs != [] {
      assert IsDigit(gs[0][0], 16);
    }
  }

  // ----- The tail -----

  /** The octets behind a dot, or in front of one: as many numerals, and none that counts
      as long. */
  lemma {:induction false} QuadSeen(q: Quad, dotted: bool)
    requires ValidOctets(q) && q != [] && (dotted || |q| > 1)
    ensures Numerals(QuadText(q), false) == |q| && !LongNumeral(QuadText(q), 0, dotted)
    ensures !HasGap(QuadText(q)) && (|q| > 1 ==> '.' in QuadText(q))
  {
    var g := q[0];
    OctetIsGroup(g);
    if |q| == 1 {
      assert g + "" == g;
      DigitsAreOne(g, "", false);
      DigitsInRun(g, "", 0, dotted);
      DigitsHaveNoGap(g, "");
    } else {
      var more := QuadText(q[1..]);
      QuadSeen(q[1..], true);
      AppendAssociates(g, ".", more);
      assert ("." + more)[1..] == more;
      DigitsAreOne(g, "." + more, false);
      DigitsInRun(g, "." + more, 0, dotted);
      DigitsHaveNoGap(g, "." + more);
      DigitsHaveNoDot(g, "." + more);
    }
  }

  lemma {:induction false} TailSeen(t: Tail)
    requires ValidBody(Body([], t))
    ensures var s := TailText(t);
            && Numerals(s, false) == TailPieces(t) + (if t.Dotted? then 2 else 0)
            && (LongNumeral(s, 0, false) <==> !ShortBody(Body([], t)))
            && !HasGap(s) && ('.' in s <==> t.Dotted?)
  {
    match t
    case Empty =>
    case Group(g) =>
      assert g + "" == g;
      DigitsAreOne(g, "", false);
      DigitsInRun(g, "", 0, false);
      DigitsHaveNoGap(g, "");
      DigitsHaveNoDot(g, "");
    case Dotted(q) =>
      QuadSeen(q, false);
  }

  lemma {:induction false} BodySeen(b: Body)
    requires ValidBody(b)
    ensures var s := BodyText(b);
            && Numerals(s, false) == Pieces(b) + (if b.tail.Dotted? then 2 else 0)
            && (LongNumeral(s, 0, false) <==> !ShortBody(b))
            && !HasGap(s) && ('.' in s <==> b.tail.Dotted?)
  {
    TailSeen(b.tail);
    GroupsInFront(b.groups, TailText(b.tail));
    if TailText(b.tail) != [] {
      BodyStart(Body([], b.tail));
      assert BodyText(Body([], b.tail)) == TailText(b.tail);
    }
  }

  // ----- The end -----

  lemma {:induction false} EndBehind(a: string, b: string)
    ensures |b| >= 2 ==> EndsInColon(a + b) == EndsInColon(b)
    ensures b != [] && b[|b| - 1] != ':' ==> !EndsInColon(a + b)
  {
  }

  lemma {:induction false} GroupsEnd(gs: seq<string>)
    requires ValidGroups(gs) && gs != []
    ensures |GroupsText(gs)| >= 2 && EndsInColon(GroupsText(gs))
  {
    var g := gs[0];
    assert IsDigit(g[|g| - 1], 16);
    if |gs| == 1 {
      assert GroupsText(gs) == g + ":";
    } else {
      GroupsEnd(gs[1..]);
      EndBehind(g + ":", GroupsText(gs[1..]));
    }
  }

  lemma {:induction false} QuadEnd(q: Quad)
    requires ValidOctets(q) && q != []
    ensures QuadText(q) != [] && QuadText(q)[|QuadText(q)| - 1] != ':'
  {
    if |q| == 1 {
      assert IsDigit(q[0][|q[0]| - 1], 10);
    } else {
      QuadEnd(q[1..]);
    }
  }

  lemma {:induction false} TailEnd(t: Tail)
    requires ValidBody(Body([], t)) && !t.Empty?
    ensures TailText(t) != [] && TailText(t)[|TailText(t)| - 1] != ':'
  {
    match t
    case Group(g) => assert IsDigit(g[|g| - 1], 16);
    case Dotted(q) => QuadEnd(q);
  }

  /** A body behind any text ends in a single colon exactly if its tail is missing. */
  lemma {:induction false} BodyEnd(a: string, b: Body)
    requires ValidBody(b) && BodyText(b) != []
    ensures EndsInColon(a + BodyText(b)) <==> b.tail.Empty?
  {
    if b.tail.Empty? {
      assert BodyText(b) == GroupsText(b.groups);
      GroupsEnd(b.groups);
      EndBehind(a, BodyText(b));
    } else {
      TailEnd(b.tail);
      AppendAssociates(a, GroupsText(b.groups), TailText(b.tail));
      EndBehind(a + GroupsText(b.groups), TailText(b.tail));
    }
  }

  // ----- Whole texts -----

  lemma {:induction false} BodySize(b: Body)
    requires ValidBody(b)
    ensures |BodyBytes(b)| == 2 * Pieces(b)
  {
  }

  lemma {:induction false} PlainSeen(b: Body)
    requires ValidBody(b) && Pieces(b) == 8
    ensures var s := Render(Plain(b));
            && (LongNumeral(s, 0, false) <==> !ShortBody(b)) && (EndsInColon(s) <==> b.tail.Empty?) && !FullGap(s)
  {
    BodySeen(b);
    TextIsThere(b);
    BodyEnd("", b);
    assert "" + BodyText(b) == BodyText(b);
  }

  lemma {:induction false} TextIsThere(b: Body)
    requires ValidBody(b)
    ensures BodyText(b) == [] <==> b.groups == [] && b.tail.Empty?
  {
    if !b.tail.Empty? {
      TailEnd(b.tail);
    }
  }

  lemma {:induction false} ColonInFront(s: string)
    ensures Numerals(":" + s, false) == Numerals(s, false)
    ensures LongNumeral(":" + s, 0, false) == LongNumeral(s, 0, false)
    ensures '.' in ":" + s <==> '.' in s
    ensures HasGap(":" + s) <==> (s != [] && s[0] == ':') || HasGap(s)
  {
    assert (":" + s)[1..] == s;
  }

  lemma {:induction false} GapRestSeen(right: Body) returns (r: string)
    requires ValidBody(right)
    ensures r == ":" + BodyText(right) && r[0] == ':' && ('.' in r <==> right.tail.Dotted?)
    ensures Numerals(r, false) == Pieces(right) + (if right.tail.Dotted? then 2 else 0)
    ensures LongNumeral(r, 0, false) <==> !ShortBody(right)
  {
    r := ":" + BodyText(right);
    BodySeen(right);
    ColonInFront(BodyText(right));
  }

  lemma {:induction false} PrefixSeen(left: seq<string>, r: string) returns (s: string)
    requires ValidGroups(left) && r != [] && r[0] == ':'
    ensures s == GapPrefix(left) + r && HasGap(s) && ('.' in s <==> '.' in r)
    ensures Numerals(s, false) == |left| + Numerals(r, false)
    ensures LongNumeral(s, 0, false) <==> !ShortGroups(left) || LongNumeral(r, 0, false)
  {
    s := GapPrefix(left) + r;
    if left == [] {
      ColonInFront(r);
    } else {
      GroupsInFront(left, r);
    }
  }

  lemma {:induction false} GapNumerals(left: seq<string>, right: Body)
    requires ValidGroups(left) && ValidBody(right)
    ensures var s := Render(Gap(left, right));
            && Numerals(s, false) == |left| + Pieces(right) + (if right.tail.Dotted? then 2 else 0)
            && (LongNumeral(s, 0, false) <==> !(ShortGroups(left) && ShortBody(right)))
            && HasGap(s) && ('.' in s <==> right.tail.Dotted?)
  {
    var r := GapRestSeen(right);
    var s := PrefixSeen(left, r);
    AppendAssociates(GapPrefix(left), ":", BodyText(right));
  }

  lemma {:induction false} GapEnd(left: seq<string>, right: Body)
    requires ValidGroups(left) && ValidBody(right)
    ensures EndsInColon(Render(Gap(left, right))) <==> right.tail.Empty? && right.groups != []
  {
    TextIsThere(right);
    if BodyText(right) == [] {
      if left != [] {
        GroupsEnd(left);
      }
    } else {
      BodyEnd(GapPrefix(left) + ":", right);
    }
  }

  lemma {:induction false} TextSeen(t: Text)
    requires ValidText(t) && Fits(t)
    ensures var s := Render(t); Standard(t) <==> !LongNumeral(s, 0, false) && !EndsInColon(s) && !FullGap(s)
  {
    match t
    case Plain(b) =>
      BodySize(b);
      PlainSeen(b);
    case Gap(left, right) =>
      BodySize(right);
      GapNumerals(left, right);
      GapEnd(left, right);
  }

  lemma {:induction false} StandardFits(t: Text)
    requires Standard(t)
    ensures Fits(t)
  {
    BodySize(if t.Plain? then t.body else t.right);
  }

  /** A text is one of section 2.2 exactly if the parser accepts it and it has no group
      of more than four digits, no single colon at the end and no `::` among eight
      pieces. */
  lemma {:induction false} StandardTexts(src: string)
    ensures (exists t :: Standard(t) && src == Render(t))
            <==> ParseText(src).Some? && !LongNumeral(src, 0, false) && !EndsInColon(src) && !FullGap(src)
  {
    forall t | Standard(t) && src == Render(t)
      ensures ParseText(src).Some? && !LongNumeral(src, 0, false) && !EndsInColon(src) && !FullGap(src)
    {
      StandardFits(t);
      TextSeen(t);
      TextAccepted(t);
    }
    if ParseText(src).Some? && !LongNumeral(src, 0, false) && !EndsInColon(src) && !FullGap(src) {
      var t := AcceptedText(src);
      TextSeen(t);
    }
  }

  // ----- A text is derived once -----

  /** The octets of a text, with `cur` in front of it. */
  function ReadQuad(s: string, cur: string): Quad {
    if s == [] then [cur]
    else if s[0] == '.' then [cur] + ReadQuad(s[1..], [])
    else ReadQuad(s[1..], cur + [s[0]])
  }

  function ReadBody(s: string, cur: string): Body {
    if s == [] then Body([], if cur == [] then Empty else Group(cur))
    else if s[0] == ':' then
      var b := ReadBody(s[1..], []);
      Body([cur] + b.groups, b.tail)
    else if s[0] == '.' then Body([], Dotted(ReadQuad(s, cur)))
    else ReadBody(s[1..], cur + [s[0]])
  }

  /** A text but for the first colon of a leading `::`. */
  function ReadRest(s: string, cur: string): Text {
    if s == [] || s[0] == '.' then Plain(ReadBody(s, cur))
    else if s[0] == ':' && cur == [] then Gap([], ReadBody(s[1..], []))
    else if s[0] == ':' then
      match ReadRest(s[1..], [])
      case Plain(b) => Plain(Body([cur] + b.groups, b.tail))
      case Gap(left, right) => Gap([cur] + left, right)
    else ReadRest(s[1..], cur + [s[0]])
  }

  function Read(s: string): Text {
    ReadRest(if s != [] && s[0] == ':' then s[1..] else s, [])
  }

  lemma {:induction false} DigitsAreRead(g: string, rest: string, cur: string)
    requires IsNumeral(g, 16)
    ensures ReadQuad(g + rest, cur) == ReadQuad(rest, cur + g)
    ensures ReadBody(g + rest, cur) == ReadBody(rest, cur + g)
    ensures ReadRest(g + rest, cur) == ReadRest(rest, cur + g)
  {
    if g == [] {
      assert g + rest == rest && cur + g == cur;
    } else {
      assert (g + rest)[0] == g[0] && (g + rest)[1..] == g[1..] + rest && cur + [g[0]] + g[1..] == cur + g;
      DigitsAreRead(g[1..], rest, cur + [g[0]]);
    }
  }

  lemma {:induction false} QuadIsRead(q: Quad)
    requires ValidOctets(q) && q != []
    ensures ReadQuad(QuadText(q), []) == q
  {
    var g := q[0];
    OctetIsGroup(g);
    assert [] + g == g;
    if |q| == 1 {
      assert g + "" == g;
      DigitsAreRead(g, "", []);
    } else {
      var more := QuadText(q[1..]);
      QuadIsRead(q[1..]);
      AppendAssociates(g, ".", more);
      assert ("." + more)[1..] == more;
      DigitsAreRead(g, "." + more, []);
    }
  }

  lemma {:induction false} TailIsRead(t: Tail)
    requires ValidBody(Body([], t))
    ensures ReadBody(TailText(t), []) == Body([], t) && ReadRest(TailText(t), []) == Plain(Body([], t))
  {
    match t
    case Empty =>
    case Group(g) =>
      assert [] + g == g && g + "" == g;
      DigitsAreRead(g, "", []);
    case Dotted(q) =>
      var g, rest := q[0], "." + QuadText(q[1..]);
      QuadIsRead(q);
      OctetIsGroup(g);
      assert [] + g == g;
      AppendAssociates(g, ".", QuadText(q[1..]));
      DigitsAreRead(g, rest, []);
  }

  lemma {:induction false} GroupIsRead(g: string, rest: string)
    requires IsGroup(g)
    ensures var b := ReadBody(rest, []); ReadBody(g + (":" + rest), []) == Body([g] + b.groups, b.tail)
    ensures ReadRest(g + (":" + rest), [])
            == match ReadRest(rest, [])
               case Plain(b) => Plain(Body([g] + b.groups, b.tail))
               case Gap(left, right) => Gap([g] + left, right)
  {
    assert [] + g == g && (":" + rest)[1..] == rest;
    DigitsAreRead(g, ":" + rest, []);
  }

  lemma {:induction false} BodyIsRead(b: Body)
    requires ValidBody(b)
    ensures ReadBody(BodyText(b), []) == b && ReadRest(BodyText(b), []) == Plain(b)
    decreases |b.groups|
  {
    if b.groups == [] {
      TailIsRead(b.tail);
      assert BodyText(b) == TailText(b.tail);
    } else {
      var init := Body(b.groups[1..], b.tail);
      BodyIsRead(init);
      GroupIsRead(b.groups[0], BodyText(init));
      AppendAssociates(b.groups[0] + ":", GroupsText(init.groups), TailText(b.tail));
      AppendAssociates(b.groups[0], ":", BodyText(init));
      assert b.groups == [b.groups[0]] + init.groups;
    }
  }

  lemma {:induction false} GapIsRead(left: seq<string>, right: Body)
    requires ValidGroups(left) && ValidBody(right)
    ensures ReadRest(GroupsText(left) + (":" + BodyText(right)), []) == Gap(left, right)
  {
    var rest := ":" + BodyText(right);
    if left == [] {
      BodyIsRead(right);
      assert rest[1..] == BodyText(right) && GroupsText(left) + rest == rest;
    } else {
      var more := GroupsText(left[1..]);
      GapIsRead(left[1..], right);
      GroupIsRead(left[0], more + rest);
      AppendAssociates(left[0] + ":", more, rest);
      AppendAssociates(left[0], ":", more + rest);
      assert left == [left[0]] + left[1..];
    }
  }

  /** The text that derives a string can be read off it. */
  lemma {:induction false} TextIsRead(t: Text)
    requires ValidText(t)
    ensures Read(Render(t)) == t
  {
    match t
    case Plain(b) =>
      BodyIsRead(b);
      if BodyText(b) != [] {
        BodyStart(b);
      }
    case Gap(left, right) =>
      GapStart(left, right);
      GapIsRead(left, right);
  }

  /** No string is derived by two texts. */
  lemma {:induction false} RenderIsInjective(t: Text, u: Text)
    requires ValidText(t) && ValidText(u) && Render(t) == Render(u)
    ensures t == u
  {
    TextIsRead(t);
    TextIsRead(u);
  }

  /** For an accepted string the conditions say what its one text is. */
  lemma {:induction false} AcceptedIsStandard(src: string)
    requires ParseText(src).Some?
    ensures ValidText(Read(src)) && Fits(Read(src)) && Render(Read(src)) == src
    ensures Standard(Read(src)) <==> !LongNumeral(src, 0, false) && !EndsInColon(src) && !FullGap(src)
  {
    var t := AcceptedText(src);
    TextIsRead(t);
    TextSeen(t);
  }

  // ----- Accepted all the same -----

  /** Nothing of the standard derives an accepted string whose text is another. */
  lemma {:induction false} NotStandard(t: Text)
    requires ValidText(t) && Fits(t) && !Standard(t)
    ensures ParseText(Render(t)).Some? && forall u :: Standard(u) ==> Render(u) != Render(t)
  {
    TextAccepted(t);
    forall u | Standard(u) ensures Render(u) != Render(t) {
      if Render(u) == Render(t) {
        RenderIsInjective(u, t);
      }
    }
  }

  /** 0:0:0:0:0:0:0:0: */
  lemma {:induction false} ColonIsAccepted()
    ensures var src := Render(Plain(Body(seq(8, _ => "0"), Empty)));
            ParseText(src).Some? && forall u :: Standard(u) ==> Render(u) != src
  {
    ZeroIsGroup();
    NotStandard(Plain(Body(seq(8, _ => "0"), Empty)));
  }

  lemma {:induction false} LeadingZero(s: string)
    requires IsGroup(s)
    ensures IsGroup("0" + s) && Value("0" + s, 16) == Value(s, 16)
  {
    var init := s[..|s| - 1];
    assert ("0" + s)[..|s|] == "0" + init;
    if init != [] {
      LeadingZero(init);
    }
  }

  /** 00001:: */
  lemma {:induction false} FiveDigitsAreAccepted()
    ensures var src := Render(Gap(["0000" + "1"], Body([], Empty)));
            ParseText(src).Some? && forall u :: Standard(u) ==> Render(u) != src
  {
    var g := "0000" + "1";
    ZeroIsGroup();
    LeadingZero("1");
    LeadingZero("0" + "1");
    LeadingZero("0" + ("0" + "1"));
    LeadingZero("0" + ("0" + ("0" + "1")));
    assert g == "0" + ("0" + ("0" + ("0" + "1")));
    var t := Gap([g], Body([], Empty));
    assert t.left[0] == g && !ShortGroups(t.left);
    NotStandard(t);
  }

  /** 0:0:0:0:0:0:0::1 */
  lemma {:induction false} FullGapIsAccepted()
    ensures var src := Render(Gap(seq(7, _ => "0"), Body([], Group("1"))));
            ParseText(src).Some? && forall u :: Standard(u) ==> Render(u) != src
  {
    ZeroIsGroup();
    NotStandard(Gap(seq(7, _ => "0"), Body([], Group("1"))));
  }
}
