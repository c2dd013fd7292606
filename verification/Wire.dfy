/** Messages: their layout in the memory of a host, and on the wire. */
module Wire {
  import opened Integers
  import opened Wrappers
  import Sequences

  // ----- Integers in memory -----

  /** The byte order of a host. */
  datatype Host = Little | Big

  function OfWord(h: Host, w: word): (b: seq<byte>)
    ensures |b| == 4
  {
    var q1 := w / 256;
    var q2 := q1 / 256;
    var b0, b1, b2, b3 := q2 / 256, q2 % 256, q1 % 256, w % 256;
    if h == Big then [b0, b1, b2, b3] else [b3, b2, b1, b0]
  }

  function ToWord(h: Host, b: seq<byte>): word
    requires |b| == 4
  {
    var v := if h == Big then b else [b[3], b[2], b[1], b[0]];
    ((v[0] as nat * 256 + v[1] as nat) * 256 + v[2] as nat) * 256 + v[3] as nat
  }

  lemma {:induction false} WordRoundTrip(h: Host, w: word)
    ensures ToWord(h, OfWord(h, w)) == w
  {
    var q1 := w / 256;
    var q2 := q1 / 256;
    assert q2 == q2 / 256 * 256 + q2 % 256;
    assert q1 == q2 * 256 + q1 % 256;
  }

  /** What htonl and ntohl do to the bytes of an int. */
  function Flip(h: Host, b: seq<byte>): (r: seq<byte>)
    requires |b| == 4
    ensures |r| == 4
  {
    if h == Big then b else [b[3], b[2], b[1], b[0]]
  }

  lemma {:induction false} FlipWord(h: Host, w: word)
    ensures Flip(h, OfWord(h, w)) == OfWord(Big, w) && Flip(h, OfWord(Big, w)) == OfWord(h, w)
  {
  }

  function OfWords(h: Host, ws: seq<word>): (b: seq<byte>)
    ensures |b| == 4 * |ws|
  {
    if ws == [] then [] else OfWord(h, ws[0]) + OfWords(h, ws[1..])
  }

  /** The first n ints of a block flipped. */
  function FlipWords(h: Host, b: seq<byte>, n: nat): (r: seq<byte>)
    requires 4 * n <= |b|
    ensures |r| == |b|
    decreases n
  {
    if n == 0 then b else Flip(h, b[..4]) + FlipWords(h, b[4..], n - 1)
  }

  /** Flipping turns the ints of a host into network order, and back into those of any
      other host. */
  lemma {:induction false} FlipLayout(h: Host, ws: seq<word>, raw: seq<byte>)
    ensures FlipWords(h, OfWords(h, ws) + raw, |ws|) == OfWords(Big, ws) + raw
    ensures FlipWords(h, OfWords(Big, ws) + raw, |ws|) == OfWords(h, ws) + raw
  {
    if ws == [] {
      assert OfWords(h, ws) + raw == raw == OfWords(Big, ws) + raw;
    } else {
      FlipLayout(h, ws[1..], raw);
      FlipWord(h, ws[0]);
      FirstWord(h, ws, raw);
      FirstWord(Big, ws, raw);
      Sequences.AppendAssociates(OfWord(Big, ws[0]), OfWords(Big, ws[1..]), raw);
      Sequences.AppendAssociates(OfWord(h, ws[0]), OfWords(h, ws[1..]), raw);
    }
  }

  lemma {:induction false} FirstWord(h: Host, ws: seq<word>, raw: seq<byte>)
    requires ws != []
    ensures (OfWords(h, ws) + raw)[..4] == OfWord(h, ws[0])
    ensures (OfWords(h, ws) + raw)[4..] == OfWords(h, ws[1..]) + raw
  {
  }

  lemma {:induction false} OfWordsAppend(h: Host, ws: seq<word>, vs: seq<word>)
    ensures OfWords(h, ws + vs) == OfWords(h, ws) + OfWords(h, vs)
  {
    if ws == [] {
      assert ws + vs == vs;
    } else {
      assert (ws + vs)[1..] == ws[1..] + vs;
      OfWordsAppend(h, ws[1..], vs);
      Sequences.AppendAssociates(OfWord(h, ws[0]), OfWords(h, ws[1..]), OfWords(h, vs));
    }
  }

  lemma {:induction false} SliceBehind(b: seq<byte>, i: nat)
    requires 4 <= i && i + 4 <= |b|
    ensures b[i..i + 4] == b[4..][i - 4..i]
  {
    var s, t := b[i..i + 4], b[4..][i - 4..i];
    assert s[0] == t[0] && s[1] == t[1] && s[2] == t[2] && s[3] == t[3];
    assert s == t;
  }

  /** The k-th int of a block. */
  lemma {:induction false} WordAt(h: Host, ws: seq<word>, raw: seq<byte>, k: nat)
    requires k < |ws|
    ensures (OfWords(h, ws) + raw)[4 * k..4 * k + 4] == OfWord(h, ws[k])
  {
    FirstWord(h, ws, raw);
    if k > 0 {
      WordAt(h, ws[1..], raw, k - 1);
      SliceBehind(OfWords(h, ws) + raw, 4 * k);
    }
  }

  // ----- The length in the code word -----

  /** Bitwise or. */
  function Or(a: nat, b: nat): nat
    decreases a + b
  {
    if a == 0 && b == 0 then 0
    else (if a % 2 == 1 || b % 2 == 1 then 1 else 0) + 2 * Or(a / 2, b / 2)
  }

  lemma {:induction false} OrOfNothingNew(b: nat)
    ensures Or(0, b) == b && Or(b, b) == b
  {
    if b > 0 {
      OrOfNothingNew(b / 2);
    }
  }

  function GetLen(code: word): nat {
    code / 0x1_0000
  }

  function GetCode(code: word): word {
    code % 0x1_0000
  }

  /** code |= len << 16, in an int of 32 bits. */
  function SetLen(code: word, len: nat): word {
    SetHigh(code, len % 0x1_0000)
  }

  function SetHigh(code: word, l: nat): word {
    (Or(GetLen(code), l) * 0x1_0000 + GetCode(code)) % 0x1_0000_0000
  }

  /** code + (len << 16), in an int of 32 bits. */
  function AddLen(code: word, len: nat): word {
    AddHigh(code, len % 0x1_0000)
  }

  function AddHigh(code: word, l: nat): word {
    (code + l * 0x1_0000) % 0x1_0000_0000
  }

  lemma {:induction false} Fits(n: nat)
    requires n < 0x1_0000_0000
    ensures n % 0x1_0000_0000 == n
  {
  }

  lemma {:induction false} PackedHigh(code: word, l: nat)
    requires code < 0x1_0000 && l < 0x1_0000
    ensures SetHigh(code, l) == SetHigh(AddHigh(code, l), l) == l * 0x1_0000 + code
  {
    OrOfNothingNew(l);
    Halves(0, code);
    Halves(l, code);
    Fits(l * 0x1_0000 + code);
  }

  /** The client ors the length in; the server adds it and ors it in again. Both leave
      the low 16 bits of the length above the code. */
  lemma {:induction false} PackedLength(code: word, len: nat)
    requires code < 0x1_0000
    ensures SetLen(code, len) == SetLen(AddLen(code, len), len)
    ensures GetLen(SetLen(code, len)) == len % 0x1_0000 && GetCode(SetLen(code, len)) == code
  {
    PackedHigh(code, len % 0x1_0000);
    Halves(len % 0x1_0000, code);
  }

  /** A length below 2^16 can be read back. */
  lemma {:induction false} PackedShort(code: word, len: nat)
    requires code < 0x1_0000 && len < 0x1_0000
    ensures GetLen(SetLen(code, len)) == len && GetCode(SetLen(code, len)) == code
  {
    Halves(0, len);
    PackedLength(code, len);
  }

  lemma {:induction false} Halves(l: nat, c: nat)
    requires l < 0x1_0000 && c < 0x1_0000
    ensures l * 0x1_0000 + c < 0x1_0000_0000
    ensures (l * 0x1_0000 + c) / 0x1_0000 == l && (l * 0x1_0000 + c) % 0x1_0000 == c
  {
  }

  // ----- Messages -----

  const HEADER_SIZE := 64

  /** A message as its ints and the bytes behind them that are not ints. */
  datatype Message = Message(words: seq<word>, raw: seq<byte>)

  function Size(m: Message): nat {
    4 * |m.words| + |m.raw|
  }

  /** The block a host keeps it in. */
  function Layout(h: Host, m: Message): (b: seq<byte>)
    ensures |b| == Size(m)
  {
    OfWords(h, m.words) + m.raw
  }

  /** How many ints of a request are converted: those of the names and passwords are
      not. None for a code that is no request. */
  function RequestWords(code: nat, len: nat): Option<nat> {
    if code == 0x1 || code == 0x2 then Some(8)
    else if 0x3 <= code <= 0x8 then Some(len / 4)
    else None
  }

  function ReplyWords(code: nat, len: nat): Option<nat> {
    if code in {0xA01, 0xA02, 0xA03, 0xA04} then Some(8)
    else if code in {0xF01, 0xF02, 0xF03, 0xF04, 0xF05, 0xF06, 0xF07, 0xF08, 0xF09, 0xA07} then Some(8)
    else if code in {0xA05, 0xA06, 0xA08} then Some(len / 4)
    else None
  }

  datatype Direction = Request | Reply

  function CodeWords(d: Direction, code: nat, len: nat): (n: Option<nat>)
    ensures n.Some? ==> code < 0x1_0000
    ensures n.Some? && len >= 32 ==> 1 <= n.value && 4 * n.value <= len
  {
    if d == Request then RequestWords(code, len) else ReplyWords(code, len)
  }

  /** A message whose ints are those that are converted for its code. */
  predicate Formed(d: Direction, m: Message) {
    m.words != [] && HEADER_SIZE <= Size(m) && CodeWords(d, m.words[0], Size(m)) == Some(|m.words|)
  }

  /** One whose length fits, too. */
  predicate WellFormed(d: Direction, m: Message) {
    Formed(d, m) && Size(m) < 0x1_0000
  }

  /** The requests that can be sent and received: for registering and joining, eight ints
      in front of names and passwords; for the six others, nothing but ints, and up to three
      bytes that make no int. The codes are those of server/data_format.h. */
  lemma {:induction false} KnownRequests(m: Message)
    ensures WellFormed(Request, m) <==>
              && m.words != [] && 64 <= Size(m) < 0x1_0000
              && ((m.words[0] in {1, 2} && |m.words| == 8) || (m.words[0] in {3, 4, 5, 6, 7, 8} && |m.raw| < 4))
  {
  }

  /** The same for the replies: room figures and errors, and the three that are all ints. */
  lemma {:induction false} KnownReplies(m: Message)
    ensures WellFormed(Reply, m) <==>
              && m.words != [] && 64 <= Size(m) < 0x1_0000
              && ((m.words[0] in {0xA01, 0xA02, 0xA03, 0xA04, 0xA07, 0xF01, 0xF02, 0xF03, 0xF04, 0xF05, 0xF06, 0xF07,
                                  0xF08, 0xF09} && |m.words| == 8)
                  || (m.words[0] in {0xA05, 0xA06, 0xA08} && |m.raw| < 4))
  {
  }

  /** So eight ints with names behind them can be asked under the first two codes, any
      number of ints from 16 on under the others, and nothing under any other code. */
  lemma {:induction false} RequestsOfEachCode(m: Message)
    requires m.words != [] && Size(m) < 0x1_0000
    ensures m.words[0] in {1, 2} && |m.words| == 8 && |m.raw| >= 32 ==> WellFormed(Request, m)
    ensures m.words[0] in {3, 4, 5, 6, 7, 8} && |m.words| >= 16 && m.raw == [] ==> WellFormed(Request, m)
    ensures m.words[0] == 0 || m.words[0] > 8 ==> !WellFormed(Request, m)
  {
    KnownRequests(m);
  }

  /** The bytes sent: big-endian ints, the length above the code. */
  function OnWire(m: Message): (b: seq<byte>)
    ensures |b| == Size(m)
  {
    OfWords(Big, WithLength(m)) + m.raw
  }

  function WithLength(m: Message): (ws: seq<word>)
    ensures |ws| == |m.words|
  {
    if m.words == [] then [] else [SetLen(m.words[0], Size(m))] + m.words[1..]
  }
}
