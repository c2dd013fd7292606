/** The text that libfree/inet_ntop.c prints for an address, as a text of the grammar:
    which run of zeros it compresses, and which tail it writes as a dotted quad. */
module AddressPrinting {
  import opened Integers
  import opened AddressText
  import AddressGrammar
  import Sequences

  // ----- Words and runs of zeros -----

  function Words(a: seq<byte>): (w: seq<nat>)
    requires |a| == 16
    ensures |w| == 8 && forall k | 0 <= k < 8 :: w[k] == a[2 * k] as nat * 256 + a[2 * k + 1] as nat <= 0xffff
  {
    seq(8, k requires 0 <= k < 8 => a[2 * k] as nat * 256 + a[2 * k + 1] as nat)
  }

  /** A run of zero words; NoRun where the source has base -1. */
  datatype Run = NoRun | Run(base: nat, len: nat)

  predicate IsRun(w: seq<nat>, lo: int, hi: int) {
    0 <= lo <= hi <= |w| && forall k | lo <= k < hi :: w[k] == 0
  }

  /** What `::` stands for: the leftmost longest run of zero words, of at least two
      (sections 4.2.2 and 4.2.3 of RFC 5952), if there is one. */
  ghost predicate IsBest(w: seq<nat>, r: Run) {
    match r
    case NoRun => forall lo, hi | IsRun(w, lo, hi) :: hi - lo < 2
    case Run(base, len) =>
      && len >= 2 && IsRun(w, base, base + len)
      && forall lo, hi | IsRun(w, lo, hi) :: hi - lo <= len && (hi - lo == len ==> base <= lo)
  }

  lemma {:induction false} BestIsUnique(w: seq<nat>, r: Run, s: Run)
    requires IsBest(w, r) && IsBest(w, s)
    ensures r == s
  {
    if r.Run? {
      assert IsRun(w, r.base, r.base + r.len);
    }
    if s.Run? {
      assert IsRun(w, s.base, s.base + s.len);
    }
  }

  /** How many zero words stand at `lo` and behind it. */
  function ZerosAt(w: seq<nat>, lo: nat): (n: nat)
    requires lo <= |w|
    ensures IsRun(w, lo, lo + n)
    ensures forall hi | IsRun(w, lo, hi) :: hi <= lo + n
    decreases |w| - lo
  {
    assert forall hi | IsRun(w, lo, hi) && lo < hi :: IsRun(w, lo + 1, hi);
    if lo < |w| && w[lo] == 0 then 1 + ZerosAt(w, lo + 1) else 0
  }

  /** The best of `r` and the runs that start at `lo` or behind it. */
  function BestFrom(w: seq<nat>, lo: nat, r: Run): Run
    requires lo <= |w|
    decreases |w| - lo
  {
    var n := ZerosAt(w, lo);
    if lo == |w| then r
    else BestFrom(w, lo + 1, if n > (if r.NoRun? then 1 else r.len) then Run(lo, n) else r)
  }

  function Best(w: seq<nat>): Run {
    BestFrom(w, 0, NoRun)
  }

  lemma {:induction false} BestFromIsBest(w: seq<nat>, lo: nat, r: Run)
    requires lo <= |w|
    requires r.NoRun? ==> forall i, j | IsRun(w, i, j) && i < lo :: j - i < 2
    requires r.Run? ==> r.len >= 2 && IsRun(w, r.base, r.base + r.len) && r.base < lo
    requires r.Run? ==> forall i, j | IsRun(w, i, j) && i < lo :: j - i <= r.len && (j - i == r.len ==> r.base <= i)
    ensures IsBest(w, BestFrom(w, lo, r))
    decreases |w| - lo
  {
    if lo < |w| {
      var n := ZerosAt(w, lo);
      BestFromIsBest(w, lo + 1, if n > (if r.NoRun? then 1 else r.len) then Run(lo, n) else r);
    }
  }

  /** The printer compresses the leftmost longest run, and only one of two words or more. */
  lemma {:induction false} BestIsBest(w: seq<nat>)
    ensures IsBest(w, Best(w))
    ensures forall r :: IsBest(w, r) ==> r == Best(w)
  {
    BestFromIsBest(w, 0, NoRun);
    forall r | IsBest(w, r) ensures r == Best(w) {
      BestIsUnique(w, r, Best(w));
    }
  }

  // ----- The printed text as a text of the grammar -----

  function HexGroups(w: seq<nat>): (gs: seq<string>)
    ensures |gs| == |w|
  {
    if w == [] then [] else [Numeral(w[0], 16)] + HexGroups(w[1..])
  }

  function DecOctets(b: seq<byte>): (q: Quad)
    ensures |q| == |b|
  {
    if b == [] then [] else [Numeral(b[0], 10)] + DecOctets(b[1..])
  }

  function PrintQuad(b: seq<byte>): string {
    QuadText(DecOctets(b))
  }

  /** ::a.b.c.d and ::ffff:a.b.c.d */
  predicate IsMapped(w: seq<nat>, r: Run)
    requires |w| == 8
  {
    r.Run? && r.base == 0 && (r.len == 6 || (r.len == 5 && w[5] == 0xffff))
  }

  /** Words without a colon behind the last. */
  function WordsBody(w: seq<nat>): Body {
    if w == [] then Body([], Empty) else Body(HexGroups(w[..|w| - 1]), Group(Numeral(w[|w| - 1], 16)))
  }

  /** The text of an address that puts `::` for the run `r`. */
  function TextOf(a: seq<byte>, r: Run): Text
    requires |a| == 16 && (r.Run? ==> r.base + r.len <= 8)
  {
    var w := Words(a);
    match r
    case NoRun => Plain(WordsBody(w))
    case Run(base, len) =>
      var right := w[base + len..];
      if IsMapped(w, r) then Gap([], Body(HexGroups(w[len..6]), Dotted(DecOctets(a[12..]))))
      else Gap(HexGroups(w[..base]), WordsBody(right))
  }

  function Print(a: seq<byte>): string
    requires |a| == 16
  {
    var r := Best(Words(a));
    BestIsBest(Words(a));
    Render(TextOf(a, r))
  }

  // ----- It denotes the address -----

  /** The bytes of words. */
  function WordsBytes(w: seq<nat>): (b: seq<byte>)
    ensures |b| == 2 * |w|
  {
    if w == [] then [] else WordBytes(w[0]) + WordsBytes(w[1..])
  }

  lemma {:induction false} HexGroupsDenote(w: seq<nat>)
    requires forall k | 0 <= k < |w| :: w[k] <= 0xffff
    ensures ValidGroups(HexGroups(w)) && GroupsBytes(HexGroups(w)) == WordsBytes(w)
  {
    if w != [] {
      HexGroupsDenote(w[1..]);
      AddressGrammar.NumeralValue(w[0], 16);
      assert HexGroups(w)[1..] == HexGroups(w[1..]);
    }
  }

  lemma {:induction false} DecOctetsDenote(b: seq<byte>)
    ensures ValidOctets(DecOctets(b)) && QuadBytes(DecOctets(b)) == b
  {
    if b != [] {
      DecOctetsDenote(b[1..]);
      AddressGrammar.NumeralValue(b[0], 10);
      assert DecOctets(b)[1..] == DecOctets(b[1..]);
    }
  }

  lemma {:induction false} WordsBytesAppend(w: seq<nat>, v: seq<nat>)
    ensures WordsBytes(w + v) == WordsBytes(w) + WordsBytes(v)
  {
    if w == [] {
      assert w + v == v;
    } else {
      assert (w + v)[1..] == w[1..] + v;
      WordsBytesAppend(w[1..], v);
      Sequences.AppendAssociates(WordBytes(w[0]), WordsBytes(w[1..]), WordsBytes(v));
    }
  }

  lemma {:induction false} WordsBodyDenotes(w: seq<nat>)
    requires forall k | 0 <= k < |w| :: w[k] <= 0xffff
    ensures ValidBody(WordsBody(w)) && BodyBytes(WordsBody(w)) == WordsBytes(w)
  {
    if w != [] {
      var init, last := w[..|w| - 1], w[|w| - 1];
      HexGroupsDenote(init);
      AddressGrammar.NumeralValue(last, 16);
      assert init + [last] == w;
      WordsBytesAppend(init, [last]);
      assert WordsBytes([last]) == WordBytes(last) + [];
    }
  }

  lemma {:induction false} ZeroWords(w: seq<nat>)
    requires forall k | 0 <= k < |w| :: w[k] == 0
    ensures WordsBytes(w) == Zeros(2 * |w|)
  {
    if w != [] {
      ZeroWords(w[1..]);
    }
  }

  /** The words of an address have its bytes, from any even place on. */
  lemma {:induction false} WordsOfAddress(a: seq<byte>, k: nat)
    requires |a| == 16 && k <= 8
    ensures WordsBytes(Words(a)[k..]) == a[2 * k..]
    decreases 8 - k
  {
    var w := Words(a);
    if k < 8 {
      WordsOfAddress(a, k + 1);
      assert w[k..][1..] == w[k + 1..];
      assert WordBytes(w[k]) == [a[2 * k], a[2 * k + 1]];
      SliceTwo(a, 2 * k);
    }
  }

  lemma {:induction false} SliceTwo(a: seq<byte>, i: nat)
    requires i + 2 <= |a|
    ensures a[i..] == [a[i], a[i + 1]] + a[i + 2..]
  {
  }

  lemma {:induction false} SplitWords(w: seq<nat>, i: nat, j: nat)
    requires i <= j <= |w|
    ensures WordsBytes(w[i..]) == WordsBytes(w[i..j]) + WordsBytes(w[j..])
  {
    WordsBytesAppend(w[i..j], w[j..]);
    assert w[i..j] + w[j..] == w[i..];
  }

  /** Leaving out a run of zeros and putting zeros back. */
  lemma {:induction false} SplitRun(w: seq<nat>, base: nat, len: nat)
    requires IsRun(w, base, base + len)
    ensures WordsBytes(w) == WordsBytes(w[..base]) + Zeros(2 * len) + WordsBytes(w[base + len..])
  {
    ZeroWords(w[base..base + len]);
    SplitWords(w, 0, base);
    SplitWords(w, base, base + len);
    assert w[0..] == w && w[0..base] == w[..base];
    Sequences.AppendAssociates(WordsBytes(w[..base]), Zeros(2 * len), WordsBytes(w[base + len..]));
  }

  lemma {:induction false} MappedBody(a: seq<byte>, len: nat)
    requires |a| == 16 && len <= 6
    ensures var b := Body(HexGroups(Words(a)[len..6]), Dotted(DecOctets(a[12..])));
            ValidBody(b) && BodyBytes(b) == WordsBytes(Words(a)[len..])
  {
    HexGroupsDenote(Words(a)[len..6]);
    DecOctetsDenote(a[12..]);
    WordsOfAddress(a, 6);
    SplitWords(Words(a), len, 6);
  }

  lemma {:induction false} GapDenotes(left: seq<string>, right: Body, w: seq<nat>, base: nat, len: nat)
    requires |w| == 8 && len >= 1 && IsRun(w, base, base + len)
    requires ValidGroups(left) && GroupsBytes(left) == WordsBytes(w[..base])
    requires ValidBody(right) && BodyBytes(right) == WordsBytes(w[base + len..])
    ensures ValidText(Gap(left, right)) && Fits(Gap(left, right))
    ensures Denotation(Gap(left, right)) == WordsBytes(w)
  {
    SplitRun(w, base, len);
  }

  /** Whichever run of zeros is compressed, the text denotes the address. */
  lemma {:induction false} TextOfDenotes(a: seq<byte>, r: Run)
    requires |a| == 16
    requires r.Run? ==> r.len >= 1 && IsRun(Words(a), r.base, r.base + r.len)
    ensures ValidText(TextOf(a, r)) && Fits(TextOf(a, r)) && Denotation(TextOf(a, r)) == WordsBytes(Words(a))
  {
    var w := Words(a);
    match r
    case NoRun => WordsBodyDenotes(w);
    case Run(base, len) =>
      if IsMapped(w, r) {
        MappedBody(a, len);
        GapDenotes([], Body(HexGroups(w[len..6]), Dotted(DecOctets(a[12..]))), w, 0, len);
      } else {
        HexGroupsDenote(w[..base]);
        WordsBodyDenotes(w[base + len..]);
        GapDenotes(HexGroups(w[..base]), WordsBody(w[base + len..]), w, base, len);
      }
  }

  /** Parsing a printed address gives the address back. */
  lemma {:induction false} RoundTrip(a: seq<byte>)
    requires |a| == 16
    ensures ParseText(Print(a)).Some? && ParseText(Print(a)).value == a
  {
    var r := Best(Words(a));
    BestIsBest(Words(a));
    TextOfDenotes(a, r);
    WordsOfAddress(a, 0);
    assert Words(a)[0..] == Words(a) && a[0..] == a;
    AddressGrammar.TextAccepted(TextOf(a, r));
  }

  lemma {:induction false} QuadRoundTrip(b: seq<byte>)
    requires |b| == 4
    ensures ParseQuad(PrintQuad(b)).Some? && ParseQuad(PrintQuad(b)).value == b
  {
    DecOctetsDenote(b);
    AddressGrammar.QuadGrammar(PrintQuad(b), b);
  }

  /** Printing what was parsed gives a normal form: two texts of one address print alike. */
  lemma {:induction false} NormalForm(s: string, t: string)
    requires ParseText(s).Some? && ParseText(t).Some?
    ensures ParseText(s) == ParseText(t) <==> Print(ParseText(s).value) == Print(ParseText(t).value)
  {
    RoundTrip(ParseText(s).value);
    RoundTrip(ParseText(t).value);
  }
}
