/** What a text means for the bytes of its address, group by group, and which addresses are
    printed with a dotted quad. */
module AddressMeaning {
  import opened Integers
  import opened Wrappers
  import opened AddressText
  import opened AddressGrammar
  import opened AddressPrinting
  import AddressStandard

  // ----- The place of every group -----

  /** The k-th 16-bit number of some bytes, the more significant byte first. */
  function WordOf(b: seq<byte>, k: nat): nat
    requires 2 * k + 1 < |b|
  {
    256 * b[2 * k] as nat + b[2 * k + 1] as nat
  }

  lemma {:induction false} WordIsWhole(v: nat)
    requires v <= 0xffff
    ensures WordOf(WordBytes(v), 0) == v
  {
  }

  lemma {:induction false} GroupsAt(gs: seq<string>, k: nat)
    requires ValidGroups(gs) && k < |gs|
    ensures WordOf(GroupsBytes(gs), k) == Value(gs[k], 16)
  {
    WordIsWhole(Value(gs[0], 16));
    if k > 0 {
      GroupsAt(gs[1..], k - 1);
    }
  }

  lemma {:induction false} OctetsAt(q: Quad, k: nat)
    requires ValidOctets(q) && k < |q|
    ensures QuadBytes(q)[k] as nat == Value(q[k], 10)
  {
    if k > 0 {
      OctetsAt(q[1..], k - 1);
    }
  }

  /** The groups of a body stand at the end of the address, in order, and behind them what
      closes it: a group, or the four octets of a dotted quad. */
  ghost predicate EndsWith(a: seq<byte>, b: Body)
    requires |a| == 16
  {
    var o := 8 - AddressStandard.Pieces(b);
    && o >= 0
    && (forall k | 0 <= k < |b.groups| :: o + k < 8 && WordOf(a, o + k) == Value(b.groups[k], 16))
    && match b.tail
       case Empty => true
       case Group(g) => WordOf(a, 7) == Value(g, 16)
       case Dotted(q) => |q| == 4 && forall k | 0 <= k < 4 :: a[12 + k] as nat == Value(q[k], 10)
  }

  lemma {:induction false} BodyGroup(b: Body, k: nat)
    requires ValidBody(b) && k < |b.groups|
    ensures WordOf(BodyBytes(b), k) == Value(b.groups[k], 16)
  {
    GroupsAt(b.groups, k);
    assert BodyBytes(b)[2 * k] == GroupsBytes(b.groups)[2 * k];
    assert BodyBytes(b)[2 * k + 1] == GroupsBytes(b.groups)[2 * k + 1];
  }

  lemma {:induction false} BodyTail(b: Body)
    requires ValidBody(b)
    ensures |BodyBytes(b)| == 2 * AddressStandard.Pieces(b)
    ensures b.tail.Group? ==> WordOf(BodyBytes(b), |b.groups|) == Value(b.tail.digits, 16)
    ensures b.tail.Dotted? ==> forall k | 0 <= k < 4 ::
              BodyBytes(b)[2 * |b.groups| + k] as nat == Value(b.tail.quad[k], 10)
  {
    match b.tail
    case Empty =>
    case Group(g) => WordIsWhole(Value(g, 16));
    case Dotted(q) =>
      forall k | 0 <= k < 4 ensures QuadBytes(q)[k] as nat == Value(q[k], 10) {
        OctetsAt(q, k);
      }
  }

  lemma {:induction false} WordBehind(front: seq<byte>, b: seq<byte>, o: nat, k: nat)
    requires |front| == 2 * o && 2 * k + 1 < |b|
    ensures WordOf(front + b, o + k) == WordOf(b, k)
  {
    assert (front + b)[2 * (o + k)] == b[2 * k] && (front + b)[2 * (o + k) + 1] == b[2 * k + 1];
  }

  lemma {:induction false} BodyAtTheEnd(front: seq<byte>, b: Body)
    requires ValidBody(b) && |front + BodyBytes(b)| == 16
    ensures EndsWith(front + BodyBytes(b), b)
  {
    BodyTail(b);
    var bytes, o := BodyBytes(b), 8 - AddressStandard.Pieces(b);
    forall k | 0 <= k < |b.groups| ensures WordOf(front + bytes, o + k) == Value(b.groups[k], 16) {
      BodyGroup(b, k);
      WordBehind(front, bytes, o, k);
    }
    if b.tail.Group? {
      WordBehind(front, bytes, o, |b.groups|);
    }
  }

  lemma {:induction false} GapPlaces(left: seq<string>, right: Body) returns (a: seq<byte>)
    requires ValidText(Gap(left, right)) && Fits(Gap(left, right))
    requires |BodyBytes(right)| == 2 * AddressStandard.Pieces(right)
    ensures a == Denotation(Gap(left, right))
    ensures var n := 8 - AddressStandard.Pieces(right);
            && (forall k | 0 <= k < |left| :: WordOf(a, k) == Value(left[k], 16))
            && (forall k | |left| <= k < n :: WordOf(a, k) == 0)
            && if |left| < n then EndsWith(a, right) else forall k | n <= k < 8 :: WordOf(a, k) == 0
  {
    var l, r := GroupsBytes(left), BodyBytes(right);
    a := Denotation(Gap(left, right));
    forall k | 0 <= k < |left| ensures WordOf(a, k) == Value(left[k], 16) {
      GroupsAt(left, k);
      assert a[2 * k] == l[2 * k] && a[2 * k + 1] == l[2 * k + 1];
    }
    if |l| + |r| < 16 {
      BodyAtTheEnd(l + Zeros(16 - |l| - |r|), right);
    }
  }

  /** Where the groups of a text go: those in front of `::` to the beginning, those behind it
      to the end, and zeros in between; without `::` they fill the address. Behind a `::` that
      stands for nothing there are only zeros. */
  lemma {:induction false} PlacesOfGroups(t: Text) returns (a: seq<byte>)
    requires ValidText(t) && Fits(t)
    ensures ParseText(Render(t)) == Some(a) && |a| == 16
    ensures t.Plain? ==> AddressStandard.Pieces(t.body) == 8 && EndsWith(a, t.body)
    ensures t.Gap? ==>
              var n := 8 - AddressStandard.Pieces(t.right);
              && |t.left| <= n <= 8
              && (forall k | 0 <= k < |t.left| :: WordOf(a, k) == Value(t.left[k], 16))
              && (forall k | |t.left| <= k < n :: WordOf(a, k) == 0)
              && if |t.left| < n then EndsWith(a, t.right) else forall k | n <= k < 8 :: WordOf(a, k) == 0
  {
    a := Denotation(t);
    TextAccepted(t);
    match t
    case Plain(b) =>
      BodyTail(b);
      assert a == [] + BodyBytes(b);
      BodyAtTheEnd([], b);
    case Gap(left, right) =>
      BodyTail(right);
      a := GapPlaces(left, right);
  }

  // ----- An example of section 2.2 of RFC 4291 -----

  lemma {:induction false} FourDigits(s: string, a: nat, b: nat, c: nat, d: nat)
    requires a < 16 && b < 16 && c < 16 && d < 16
    requires s == [UPPER[a]] + [UPPER[b]] + [UPPER[c]] + [UPPER[d]]
    ensures IsGroup(s) && Value(s, 16) == ((a * 16 + b) * 16 + c) * 16 + d
  {
    DigitsAre(UPPER[a], a);
    DigitsAre(UPPER[b], b);
    DigitsAre(UPPER[c], c);
    DigitsAre(UPPER[d], d);
    ValueIsPositional([], a, 16);
    ValueIsPositional([UPPER[a]], b, 16);
    ValueIsPositional([UPPER[a]] + [UPPER[b]], c, 16);
    ValueIsPositional([UPPER[a]] + [UPPER[b]] + [UPPER[c]], d, 16);
    assert [] + [UPPER[a]] == [UPPER[a]];
  }

  const MULTICAST: seq<byte> := [0xff, 0x01, 0, 0, 0, 0, 0, 0, 0, 0, 0, 0, 0, 0, 0x01, 0x01]

  lemma {:induction false} MulticastDenotes(t: Text)
    requires t == Gap(["FF01"], Body([], Group("0101"))) && Value("FF01", 16) == 0xff01 && Value("0101", 16) == 0x0101
    ensures Fits(t) && Denotation(t) == MULTICAST
  {
    assert GroupsBytes(["FF01"]) == [0xff, 0x01];
    assert Denotation(t) == [0xff, 0x01] + Zeros(12) + [0x01, 0x01];
  }

  /** FF01::101 with its last group in full. */
  lemma {:induction false} MulticastExample()
    ensures ParseText("FF01::0101") == Some(MULTICAST)
  {
    FourDigits("FF01", 15, 15, 0, 1);
    FourDigits("0101", 0, 1, 0, 1);
    var t := Gap(["FF01"], Body([], Group("0101")));
    MulticastDenotes(t);
    TextAccepted(t);
    assert Render(t) == "FF01::0101";
  }

  // ----- Dotted quads -----

  predicate ZeroUpTo(a: seq<byte>, n: nat)
    requires n <= |a|
  {
    forall k | 0 <= k < n :: a[k] == 0
  }

  /** ::a.b.c.d, where a and b are not both 0. */
  predicate Compatible(a: seq<byte>)
    requires |a| == 16
  {
    ZeroUpTo(a, 12) && (a[12] != 0 || a[13] != 0)
  }

  /** ::ffff:a.b.c.d */
  predicate Mapped(a: seq<byte>)
    requires |a| == 16
  {
    ZeroUpTo(a, 10) && a[10] == 0xff && a[11] == 0xff
  }

  lemma {:induction false} ZeroRun(a: seq<byte>, n: nat)
    requires |a| == 16 && n <= 8 && ZeroUpTo(a, 2 * n)
    ensures IsRun(Words(a), 0, n)
  {
    forall k | 0 <= k < n ensures Words(a)[k] == 0 {
      assert a[2 * k] == 0 && a[2 * k + 1] == 0;
    }
  }

  /** Zeros in front, more than half of all, and then something else. */
  lemma {:induction false} FrontIsBest(w: seq<nat>, n: nat)
    requires |w| == 8 && 5 <= n < 8 && IsRun(w, 0, n) && w[n] != 0
    ensures Best(w) == Run(0, n)
  {
    forall lo, hi | IsRun(w, lo, hi) ensures hi - lo <= n {
      assert hi <= n || lo > n;
    }
    assert IsRun(w, 0, 0 + n);
    assert IsBest(w, Run(0, n));
    BestIsBest(w);
  }

  lemma {:induction false} MappedWords(a: seq<byte>)
    requires |a| == 16
    ensures var r := Best(Words(a));
            && (IsMapped(Words(a), r) <==> Compatible(a) || Mapped(a))
            && (Compatible(a) ==> r == Run(0, 6)) && (Mapped(a) ==> r == Run(0, 5))
  {
    var w := Words(a);
    if Compatible(a) {
      ZeroRun(a, 6);
      FrontIsBest(w, 6);
    }
    if Mapped(a) {
      ZeroRun(a, 5);
      FrontIsBest(w, 5);
    }
    var r := Best(w);
    BestIsBest(w);
    if IsMapped(w, r) {
      assert IsRun(w, 0, r.len) && !IsRun(w, 0, r.len + 1);
      ZeroBytes(a, r.len);
    }
  }

  lemma {:induction false} ZeroBytes(a: seq<byte>, n: nat)
    requires |a| == 16 && n <= 8 && IsRun(Words(a), 0, n)
    ensures ZeroUpTo(a, 2 * n)
  {
    forall k | 0 <= k < 2 * n ensures a[k] == 0 {
      assert Words(a)[k / 2] == 0 && (k == 2 * (k / 2) || k == 2 * (k / 2) + 1);
    }
  }

  lemma {:induction false} GroupsHaveNoDot(w: seq<nat>)
    ensures '.' !in GroupsText(HexGroups(w))
  {
    if w != [] {
      NumeralIsShort(w[0], 16);
      GroupsHaveNoDot(w[1..]);
      assert HexGroups(w)[1..] == HexGroups(w[1..]);
    }
  }

  lemma {:induction false} WordsHaveNoDot(w: seq<nat>)
    ensures '.' !in BodyText(WordsBody(w))
  {
    if w != [] {
      GroupsHaveNoDot(w[..|w| - 1]);
      NumeralIsShort(w[|w| - 1], 16);
      var front, last := GroupsText(HexGroups(w[..|w| - 1])), Numeral(w[|w| - 1], 16);
      assert BodyText(WordsBody(w)) == front + last;
    }
  }

  /** Which addresses are printed with a dotted quad, and how: those whose first twelve bytes
      are zeros and the next two are not, and those whose first ten are zeros and the next
      two 0xff. */
  lemma {:induction false} DottedExactly(a: seq<byte>)
    requires |a| == 16
    ensures '.' in Print(a) <==> Compatible(a) || Mapped(a)
    ensures Compatible(a) ==> Print(a) == "::" + PrintQuad(a[12..])
    ensures Mapped(a) ==> Print(a) == "::ffff:" + PrintQuad(a[12..])
  {
    var w, r := Words(a), Best(Words(a));
    BestIsBest(w);
    MappedWords(a);
    if IsMapped(w, r) {
      MappedText(a, r);
    } else if r.Run? {
      GroupsHaveNoDot(w[..r.base]);
      WordsHaveNoDot(w[r.base + r.len..]);
    } else {
      WordsHaveNoDot(w);
    }
  }

  lemma {:induction false} DottedText(gs: seq<string>, q: Quad)
    requires |q| == 4
    ensures Render(Gap([], Body(gs, Dotted(q)))) == "::" + GroupsText(gs) + QuadText(q)
    ensures '.' in Render(Gap([], Body(gs, Dotted(q))))
  {
    assert QuadText(q) == q[0] + "." + QuadText(q[1..]);
    assert "::" + (GroupsText(gs) + QuadText(q)) == "::" + GroupsText(gs) + QuadText(q);
  }

  lemma {:induction false} MappedText(a: seq<byte>, r: Run)
    requires |a| == 16 && IsMapped(Words(a), r)
    ensures Render(TextOf(a, r)) == (if r.len == 6 then "::" else "::ffff:") + PrintQuad(a[12..])
    ensures '.' in Render(TextOf(a, r))
  {
    var gs := HexGroups(Words(a)[r.len..6]);
    DottedText(gs, DecOctets(a[12..]));
    if r.len == 6 {
      assert "::" + GroupsText(gs) == "::";
    } else {
      assert Words(a)[5..6] == [0xffff];
      AllOnes();
      assert "::" + GroupsText(gs) == "::ffff:";
    }
  }

  lemma {:induction false} AllOnes()
    ensures GroupsText(HexGroups([0xffff])) == "ffff:"
  {
    assert Numeral(0xf, 16) == "f" && Numeral(0xff, 16) == "ff" && Numeral(0xfff, 16) == "fff";
    assert Numeral(0xffff, 16) == "ffff";
    assert HexGroups([0xffff]) == ["ffff"] + HexGroups([]);
  }

  // ----- All other addresses -----

  /** Hexadecimal numbers with colons between them. */
  function Joined(w: seq<nat>): string {
    if w == [] then "" else if |w| == 1 then Numeral(w[0], 16) else Numeral(w[0], 16) + ":" + Joined(w[1..])
  }

  lemma {:induction false} JoinedGroups(w: seq<nat>)
    requires w != []
    ensures GroupsText(HexGroups(w)) == Joined(w) + ":"
  {
    assert HexGroups(w)[1..] == HexGroups(w[1..]);
    if |w| == 1 {
      assert HexGroups(w[1..]) == [];
    } else {
      JoinedGroups(w[1..]);
    }
  }

  lemma {:induction false} JoinedPush(w: seq<nat>, v: nat)
    requires w != []
    ensures Joined(w + [v]) == Joined(w) + ":" + Numeral(v, 16)
  {
    assert (w + [v])[0] == w[0] && (w + [v])[1..] == w[1..] + [v];
    if |w| == 1 {
      assert w[1..] + [v] == [v];
    } else {
      JoinedPush(w[1..], v);
    }
  }

  lemma {:induction false} JoinedBody(w: seq<nat>)
    ensures BodyText(WordsBody(w)) == Joined(w)
  {
    if |w| == 1 {
      assert HexGroups(w[..0]) == [];
    } else if |w| > 1 {
      var init, last := w[..|w| - 1], w[|w| - 1];
      assert init + [last] == w;
      JoinedGroups(init);
      JoinedPush(init, last);
    }
  }

  lemma {:induction false} JoinedGap(w: seq<nat>, b: nat, n: nat)
    requires b + n <= |w|
    ensures Render(Gap(HexGroups(w[..b]), WordsBody(w[b + n..]))) == Joined(w[..b]) + "::" + Joined(w[b + n..])
  {
    var rest := Joined(w[b + n..]);
    JoinedBody(w[b + n..]);
    if b == 0 {
      assert ":" + ":" + rest == "" + "::" + rest;
    } else {
      JoinedGroups(w[..b]);
      assert Joined(w[..b]) + ":" + ":" + rest == Joined(w[..b]) + "::" + rest;
    }
  }

  /** All other addresses are printed as hexadecimal numbers with colons between them, and
      `::` for the leftmost longest run of zeros, if there is a run of two or more. */
  lemma {:induction false} PrintedForm(a: seq<byte>, r: Run)
    requires |a| == 16 && !Compatible(a) && !Mapped(a) && IsBest(Words(a), r)
    ensures var w := Words(a);
            Print(a) == match r
                        case NoRun => Joined(w)
                        case Run(b, n) => Joined(w[..b]) + "::" + Joined(w[b + n..])
  {
    var w := Words(a);
    BestIsBest(w);
    MappedWords(a);
    match r
    case NoRun => JoinedBody(w);
    case Run(b, n) => JoinedGap(w, b, n);
  }

  lemma {:induction false} DecOctetsAt(b: seq<byte>, k: nat)
    requires k < |b|
    ensures DecOctets(b)[k] == Numeral(b[k], 10)
  {
    if k > 0 {
      DecOctetsAt(b[1..], k - 1);
    }
  }

  lemma {:induction false} FourOctets(q: Quad)
    requires |q| == 4
    ensures QuadText(q) == q[0] + "." + (q[1] + "." + (q[2] + "." + q[3]))
  {
    assert QuadText(q[1..]) == q[1] + "." + QuadText(q[1..][1..]);
    assert QuadText(q[1..][1..]) == q[2] + "." + QuadText(q[1..][1..][1..]);
    assert QuadText(q[1..][1..][1..]) == q[3];
  }

  /** Dotted quads are four decimal numbers with dots between them. */
  lemma {:induction false} QuadForm(b: seq<byte>)
    requires |b| == 4
    ensures PrintQuad(b)
            == Numeral(b[0], 10) + "." + (Numeral(b[1], 10) + "." + (Numeral(b[2], 10) + "." + Numeral(b[3], 10)))
  {
    FourOctets(DecOctets(b));
    DecOctetsAt(b, 0);
    DecOctetsAt(b, 1);
    DecOctetsAt(b, 2);
    DecOctetsAt(b, 3);
  }
}
