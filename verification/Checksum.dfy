/** The Internet checksum of libfree/in_cksum.c against section 1 of RFC 1071. */
module Checksum {
  import opened Integers
  import opened Wire

  // ----- Words of a buffer -----

  /** The 16-bit number a host reads from two bytes. */
  function Half(h: Host, first: byte, second: byte): (w: nat)
    ensures w <= 0xffff
  {
    if h == Big then first as nat * 256 + second as nat else second as nat * 256 + first as nat
  }

  /** The words of a buffer; an odd byte is padded with a zero behind it. */
  function Words(h: Host, b: seq<byte>): (ws: seq<nat>)
    ensures |ws| == (|b| + 1) / 2 && AllWords(ws)
  {
    if b == [] then []
    else if |b| == 1 then [Half(h, b[0], 0)]
    else [Half(h, b[0], b[1])] + Words(h, b[2..])
  }

  predicate AllWords(ws: seq<nat>) {
    forall i | 0 <= i < |ws| :: ws[i] <= 0xffff
  }

  function Total(ws: seq<nat>): nat {
    if ws == [] then 0 else ws[0] + Total(ws[1..])
  }

  // ----- The ones' complement sum -----

  /** Addition with the carry brought around. */
  function OnesAdd(a: nat, b: nat): nat {
    if a + b >= 0x1_0000 then a + b - 0xffff else a + b
  }

  function OnesSum(ws: seq<nat>): nat {
    if ws == [] then 0 else OnesAdd(ws[0], OnesSum(ws[1..]))
  }

  /** A sum reduced to 16 bits: 0 stays 0, and everything else becomes the number from
      1 to 65535 that leaves the same remainder by 65535. */
  function Reduced(s: nat): (r: nat)
    ensures r <= 0xffff && (r == 0 <==> s == 0)
  {
    if s == 0 then 0 else (s - 1) % 0xffff + 1
  }

  lemma {:induction false} ReducedIs(s: nat, k: nat, r: nat)
    requires s == 0xffff * k + r && 1 <= r <= 0xffff
    ensures Reduced(s) == r
  {
  }

  lemma {:induction false} ReducedQuotient(s: nat) returns (k: nat)
    requires s > 0
    ensures s == 0xffff * k + Reduced(s)
  {
    k := (s - 1) / 0xffff;
  }

  lemma {:induction false} AddReduced(w: nat, s: nat)
    requires w <= 0xffff
    ensures OnesAdd(w, Reduced(s)) == Reduced(w + s)
  {
    if s > 0 {
      var k := ReducedQuotient(s);
      var r := Reduced(s);
      if w + r >= 0x1_0000 {
        ReducedIs(w + s, k + 1, w + r - 0xffff);
      } else {
        ReducedIs(w + s, k, w + r);
      }
    }
  }

  /** Bringing the carry around at every step gives the plain sum, reduced at the end. */
  lemma {:induction false} OnesSumIsReduced(ws: seq<nat>)
    requires AllWords(ws)
    ensures OnesSum(ws) == Reduced(Total(ws))
  {
    if ws != [] {
      OnesSumIsReduced(ws[1..]);
      AddReduced(ws[0], Total(ws[1..]));
    }
  }

  /** Every word is made of two bytes in a row, in the byte order of the host, and the last
      one of an odd number of bytes has a zero for its second. */
  lemma {:induction false} WordsAt(h: Host, b: seq<byte>, i: nat)
    requires i < (|b| + 1) / 2
    ensures var first, second := b[2 * i] as nat, if 2 * i + 1 < |b| then b[2 * i + 1] as nat else 0;
            Words(h, b)[i] == match h case Big => 256 * first + second case Little => first + 256 * second
  {
    if i > 0 {
      WordsAt(h, b[2..], i - 1);
    }
  }

  /** The example of section 3 of RFC 1071, on hosts of either byte order. */
  lemma {:induction false} SumExample()
    ensures var b: seq<byte> := [0x00, 0x01, 0xf2, 0x03, 0xf4, 0xf5, 0xf6, 0xf7];
            OnesSum(Words(Big, b)) == 0xddf2 && OnesSum(Words(Little, b)) == 0xf2dd
  {
    var b: seq<byte> := [0x00, 0x01, 0xf2, 0x03, 0xf4, 0xf5, 0xf6, 0xf7];
    forall i | 0 <= i < 4 ensures Words(Big, b)[i] == [0x0001, 0xf203, 0xf4f5, 0xf6f7][i] {
      WordsAt(Big, b, i);
    }
    forall i | 0 <= i < 4 ensures Words(Little, b)[i] == [0x0100, 0x03f2, 0xf5f4, 0xf7f6][i] {
      WordsAt(Little, b, i);
    }
    assert Words(Big, b) == [0x0001, 0xf203, 0xf4f5, 0xf6f7];
    assert Words(Little, b) == [0x0100, 0x03f2, 0xf5f4, 0xf7f6];
    assert OnesSum([0xf4f5, 0xf6f7]) == 0xebed && OnesSum([0xf5f4, 0xf7f6]) == 0xedeb;
  }

  // ----- The procedure -----

  /** The two folds of a 32-bit sum, truncated to 16 bits. */
  function Folded(sum: nat): nat {
    var once := sum / 0x1_0000 + sum % 0x1_0000;
    (once + once / 0x1_0000) % 0x1_0000
  }

  lemma {:induction false} TwoFoldsReduce(sum: nat)
    requires sum < 0x1_0000_0000
    ensures Folded(sum) == Reduced(sum)
  {
    var a, b := sum / 0x1_0000, sum % 0x1_0000;
    if a + b >= 0x1_0000 {
      ReducedIs(sum, a + 1, a + b - 0xffff);
    } else if a + b > 0 {
      ReducedIs(sum, a, a + b);
    }
  }

  /** What in_cksum returns for words that add up to `total`: the sum is kept in 32 bits. */
  function Answer(total: nat): nat {
    0xffff - Reduced(total % 0x1_0000_0000)
  }

  method InCksum(h: Host, b: seq<byte>) returns (answer: nat)
    ensures answer == Answer(Total(Words(h, b)))
    ensures |b| <= 2 * 65537 ==> answer == 0xffff - OnesSum(Words(h, b))
  {
    var sum := AddWords(h, b);
    TwoFoldsReduce(sum);
    sum := sum / 0x1_0000 + sum % 0x1_0000;
    sum := sum + sum / 0x1_0000;
    answer := 0xffff - sum % 0x1_0000;
    if |b| <= 2 * 65537 {
      ShortBuffer(h, b);
    }
  }

  /** The loop over the words, and the odd byte. */
  method AddWords(h: Host, b: seq<byte>) returns (sum: nat)
    ensures sum == Total(Words(h, b)) % 0x1_0000_0000
  {
    var nleft, w := |b|, 0;
    sum := 0;
    ghost var rest, read: nat := b, 0;
    ghost var total := Total(Words(h, b));
    while nleft > 1
      invariant 0 <= nleft <= |b| && w == |b| - nleft && rest == b[w..]
      invariant read + Total(Words(h, rest)) == total && sum == read % 0x1_0000_0000
    {
      var word := Half(h, b[w], b[w + 1]);
      assert Words(h, rest) == [word] + Words(h, rest[2..]);
      WrapStep(read, word);
      sum := (sum + word) % 0x1_0000_0000;
      read, rest := read + word, rest[2..];
      w := w + 2;
      nleft := nleft - 2;
    }
    if nleft == 1 {
      var word := Half(h, b[w], 0);
      assert Words(h, rest) == [word];
      WrapStep(read, word);
      sum := (sum + word) % 0x1_0000_0000;
      read := read + word;
    }
  }

  lemma {:induction false} WrapStep(read: nat, word: nat)
    ensures (read % 0x1_0000_0000 + word) % 0x1_0000_0000 == (read + word) % 0x1_0000_0000
  {
  }

  /** Buffers of at most 65537 words get the complement of their ones' complement sum. */
  lemma {:induction false} ShortBuffer(h: Host, b: seq<byte>)
    requires |b| <= 2 * 65537
    ensures Answer(Total(Words(h, b))) == 0xffff - OnesSum(Words(h, b))
  {
    NeverWraps(Words(h, b));
    OnesSumIsReduced(Words(h, b));
  }

  lemma {:induction false} TotalBound(ws: seq<nat>)
    requires AllWords(ws)
    ensures Total(ws) <= 0xffff * |ws|
  {
    if ws != [] {
      TotalBound(ws[1..]);
    }
  }

  /** 65537 words are the most whose sum always fits: 65537 * 65535 is 2^32 - 1. */
  lemma {:induction false} NeverWraps(ws: seq<nat>)
    requires AllWords(ws) && |ws| <= 65537
    ensures Total(ws) < 0x1_0000_0000
  {
    TotalBound(ws);
  }

  /** For longer buffers the answer is right exactly if the sum did not wrap, or wrapped
      a multiple of 65535 times without ending at 0. */
  lemma {:induction false} WrapIsHarmless(ws: seq<nat>)
    requires AllWords(ws)
    ensures Answer(Total(ws)) == 0xffff - OnesSum(ws)
            <==> var t := Total(ws); t < 0x1_0000_0000 || ((t / 0x1_0000_0000) % 0xffff == 0 && t % 0x1_0000_0000 != 0)
  {
    OnesSumIsReduced(ws);
    WrapReduced(Total(ws));
  }

  lemma {:induction false} TotalOfEqual(n: nat)
    ensures AllWords(seq(n, _ => 0xffff)) && Total(seq(n, _ => 0xffff)) == 0xffff * n
  {
    if n > 0 {
      TotalOfEqual(n - 1);
      assert seq(n, _ => 0xffff)[1..] == seq(n - 1, _ => 0xffff);
    }
  }

  /** One word more than the limit is enough to get it wrong. */
  lemma {:induction false} WrapLosesCarry()
    ensures var ws: seq<nat> := seq(65538, _ => 0xffff); Answer(Total(ws)) != 0xffff - OnesSum(ws)
  {
    TotalOfEqual(65538);
    WrapIsHarmless(seq(65538, _ => 0xffff));
  }

  lemma {:induction false} WrapReduced(t: nat)
    ensures Reduced(t % 0x1_0000_0000) == Reduced(t)
            <==> t < 0x1_0000_0000 || ((t / 0x1_0000_0000) % 0xffff == 0 && t % 0x1_0000_0000 != 0)
  {
    var q, r := t / 0x1_0000_0000, t % 0x1_0000_0000;
    if t >= 0x1_0000_0000 && r != 0 {
      var k := ReducedQuotient(r);
      var j := ReducedQuotient(t);
      assert t == 0xffff * (65537 * q + k) + (q + Reduced(r));
      if q % 0xffff == 0 {
        ReducedIs(t, 65537 * q + k + q / 0xffff, Reduced(r));
      }
      if Reduced(r) == Reduced(t) {
        assert q == 0xffff * (j - 65537 * q - k);
      }
    }
  }

  // ----- Verifying a checksum -----

  /** The two bytes of a 16-bit number in the memory of a host. */
  function OfHalf(h: Host, v: nat): (b: seq<byte>)
    requires v <= 0xffff
    ensures |b| == 2 && Half(h, b[0], b[1]) == v
  {
    if h == Big then [v / 256, v % 256] else [v % 256, v / 256]
  }

  /** The buffer with a number stored at its k-th aligned word. */
  function Stored(h: Host, b: seq<byte>, k: nat, v: nat): (r: seq<byte>)
    requires 2 * k + 2 <= |b| && v <= 0xffff
    ensures |r| == |b|
  {
    b[..2 * k] + OfHalf(h, v) + b[2 * k + 2..]
  }

  lemma {:induction false} StoredFirst(h: Host, b: seq<byte>, v: nat)
    requires 2 <= |b| && v <= 0xffff
    ensures var r := Stored(h, b, 0, v); Half(h, r[0], r[1]) == v && r[2..] == b[2..]
  {
  }

  lemma {:induction false} StoredBehind(h: Host, b: seq<byte>, k: nat, v: nat)
    requires 0 < k && 2 * k + 2 <= |b| && v <= 0xffff
    ensures var r := Stored(h, b, k, v); r[0] == b[0] && r[1] == b[1] && r[2..] == Stored(h, b[2..], k - 1, v)
  {
  }

  lemma {:induction false} StoredTotal(h: Host, b: seq<byte>, k: nat, v: nat)
    requires 2 * k + 2 <= |b| && v <= 0xffff && b[2 * k] == 0 && b[2 * k + 1] == 0
    ensures Total(Words(h, Stored(h, b, k, v))) == Total(Words(h, b)) + v
    decreases k
  {
    if k == 0 {
      StoredFirst(h, b, v);
    } else {
      StoredTotal(h, b[2..], k - 1, v);
      StoredBehind(h, b, k, v);
    }
  }

  lemma {:induction false} AnswerFillsUp(t: nat)
    requires t + Answer(t) < 0x1_0000_0000
    ensures Answer(t) <= 0xffff && Answer(t + Answer(t)) == 0
  {
    FillUp(t);
  }

  /** A buffer whose zeroed, aligned checksum word is filled with the checksum of the
      buffer has checksum 0. */
  lemma {:induction false} ChecksumVerifies(h: Host, b: seq<byte>, k: nat)
    requires 2 * k + 2 <= |b| <= 2 * 65537 && b[2 * k] == 0 && b[2 * k + 1] == 0
    ensures var answer := Answer(Total(Words(h, b)));
            answer <= 0xffff && Answer(Total(Words(h, Stored(h, b, k, answer)))) == 0
  {
    var t := Total(Words(h, b));
    NeverWraps(Words(h, Stored(h, b, k, Answer(t))));
    StoredTotal(h, b, k, Answer(t));
    AnswerFillsUp(t);
  }

  lemma {:induction false} FillUp(t: nat)
    ensures Reduced(t + (0xffff - Reduced(t))) == 0xffff
  {
    if t > 0 {
      var q := ReducedQuotient(t);
      ReducedIs(t + (0xffff - Reduced(t)), q, 0xffff);
    }
  }

  // ----- Byte order -----

  function Swapped(w: nat): nat {
    w % 256 * 256 + w / 256 % 256
  }

  function SwapAll(ws: seq<nat>): (r: seq<nat>)
    ensures |r| == |ws|
  {
    if ws == [] then [] else [Swapped(ws[0])] + SwapAll(ws[1..])
  }

  /** Swapping the bytes multiplies by 256, modulo 65535. */
  lemma {:induction false} SwappedTotal(ws: seq<nat>) returns (k: nat)
    requires AllWords(ws)
    ensures AllWords(SwapAll(ws)) && Total(SwapAll(ws)) + 0xffff * k == 256 * Total(ws)
    ensures Total(ws) == 0 <==> Total(SwapAll(ws)) == 0
  {
    if ws == [] {
      k := 0;
    } else {
      k := SwappedTotal(ws[1..]);
      var w := ws[0];
      assert Swapped(w) + 0xffff * (w / 256) == 256 * w;
      k := k + w / 256;
    }
  }

  /** Swapping the bytes of every word swaps the bytes of the sum (section 2(B) of RFC
      1071). */
  lemma {:induction false} SwappedSum(ws: seq<nat>)
    requires AllWords(ws)
    ensures OnesSum(SwapAll(ws)) == Swapped(OnesSum(ws))
  {
    var k := SwappedTotal(ws);
    OnesSumIsReduced(ws);
    OnesSumIsReduced(SwapAll(ws));
    if Total(ws) > 0 {
      SwapReduced(Total(ws), Total(SwapAll(ws)), k);
    }
  }

  lemma {:induction false} SwapNumber(r: nat)
    requires r <= 0xffff
    ensures Swapped(r) + 0xffff * (r / 256) == 256 * r && Swapped(r) <= 0xffff
    ensures r > 0 ==> Swapped(r) > 0
  {
  }

  lemma {:induction false} SwapReduced(t: nat, u: nat, k: nat)
    requires t > 0 && u > 0 && u + 0xffff * k == 256 * t
    ensures Reduced(u) == Swapped(Reduced(t))
  {
    var j := ReducedQuotient(t);
    var r := Reduced(t);
    SwapNumber(r);
    SwappedQuotient(u, k, 256 * j + r / 256, Swapped(r));
  }

  lemma {:induction false} SwappedQuotient(u: nat, k: nat, m: nat, r: nat)
    requires u > 0 && u + 0xffff * k == 0xffff * m + r && 1 <= r <= 0xffff
    ensures Reduced(u) == r
  {
    assert m >= k;
    ReducedIs(u, m - k, r);
  }

  lemma {:induction false} SwapHalf(first: byte, second: byte)
    ensures Half(Little, first, second) == Swapped(Half(Big, first, second))
  {
  }

  lemma {:induction false} HostsSwap(b: seq<byte>)
    ensures Words(Little, b) == SwapAll(Words(Big, b))
  {
    if |b| > 1 {
      HostsSwap(b[2..]);
      SwapHalf(b[0], b[1]);
    } else if |b| == 1 {
      SwapHalf(b[0], 0);
    }
  }

  lemma {:induction false} TwoBytes(a: nat, b: nat)
    requires a < 256 && b < 256
    ensures Swapped(a * 256 + b) == b * 256 + a
  {
  }

  lemma {:induction false} ComplementSwap(s: nat)
    requires s <= 0xffff
    ensures 0xffff - Swapped(s) == Swapped(0xffff - s)
  {
    var a, b := s / 256, s % 256;
    TwoBytes(a, b);
    TwoBytes(255 - a, 255 - b);
  }

  lemma {:induction false} SwapInMemory(v: nat)
    requires v <= 0xffff
    ensures Swapped(v) <= 0xffff && OfHalf(Little, Swapped(v)) == OfHalf(Big, v)
  {
  }

  /** Hosts of either byte order leave the same two bytes in the packet. */
  lemma {:induction false} ByteOrderDoesNotMatter(b: seq<byte>)
    requires |b| <= 2 * 65537
    ensures OfHalf(Little, Answer(Total(Words(Little, b)))) == OfHalf(Big, Answer(Total(Words(Big, b))))
  {
    var ws := Words(Big, b);
    HostsSwap(b);
    SwappedSum(ws);
    ShortBuffer(Big, b);
    ShortBuffer(Little, b);
    ComplementSwap(OnesSum(ws));
    SwapInMemory(0xffff - OnesSum(ws));
  }
}
