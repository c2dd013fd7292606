/** The framing of server/server_comm.c and of its peer in client/cliaction.c. */
module Framing {
  import opened Integers
  import opened Wrappers
  import opened Sequences
  import opened Streams
  import opened Wire

  // ----- What is sent and received -----

  /** The bytes sent for a block of memory, None for a code that is not to be sent. */
  function Encode(h: Host, d: Direction, block: seq<byte>): (b: Option<seq<byte>>)
    requires |block| >= HEADER_SIZE
    ensures b.Some? ==> |b.value| == |block|
  {
    var code := ToWord(h, block[..4]);
    match CodeWords(d, code, |block|)
    case None => None
    case Some(n) => Some(FlipWords(h, OfWord(h, SetLen(code, |block|)) + block[4..], n))
  }

  /** A block, or why there is none: the bytes end early or reading fails, the length
      is less than that of a header, or the code is unknown. */
  datatype Received = Got(block: seq<byte>) | Lost | ShortLength | UnknownCode

  /** The length cleared from the code word. */
  function ClearLen(h: Host, block: seq<byte>): (r: seq<byte>)
    requires |block| >= 4
    ensures |r| == |block|
  {
    OfWord(h, GetCode(ToWord(h, block[..4]))) + block[4..]
  }

  /** Header and rest are there: convert them. */
  function Decode(g: Host, d: Direction, block: seq<byte>): (r: Received)
    requires |block| >= HEADER_SIZE
    ensures r.Got? ==> |r.block| == |block|
  {
    match CodeWords(d, GetCode(ToWord(Big, block[..4])), |block|)
    case None => UnknownCode
    case Some(n) => Got(ClearLen(g, FlipWords(g, block, n)))
  }

  /** The block that comes first in what is pending, as it was sent, and what is left
      behind it. */
  function Block(items: seq<Item>): (r: (Received, seq<Item>))
    ensures r.0.Got? ==> |r.0.block| >= HEADER_SIZE
    ensures |r.1| <= |items| && (r.0.Got? ==> |r.1| < |items|)
  {
    var t := Take(items, HEADER_SIZE, []);
    if t.count != HEADER_SIZE then (Lost, t.rest)
    else
      var len := GetLen(ToWord(Big, t.bytes[..4]));
      if len < HEADER_SIZE then (ShortLength, t.rest)
      else
        var u := Take(t.rest, len - HEADER_SIZE, []);
        if u.count + HEADER_SIZE != len then (Lost, u.rest) else (Got(t.bytes + u.bytes), u.rest)
  }

  /** The first message of what is pending, and what is left behind it. */
  function Receive(g: Host, d: Direction, items: seq<Item>): (r: (Received, seq<Item>))
    ensures r.0.Got? ==> |r.0.block| >= HEADER_SIZE
    ensures |r.1| <= |items| && (r.0.Got? ==> |r.1| < |items|)
  {
    var (r, rest) := Block(items);
    (if r.Got? then Decode(g, d, r.block) else r, rest)
  }

  // ----- A length that is less than that of the header -----

  predicate AllBytes(items: seq<Item>, n: nat) {
    |items| >= n && forall k | 0 <= k < n :: items[k].Byte?
  }

  lemma {:induction false} TakeAll(items: seq<Item>, n: nat, got: seq<byte>)
    ensures var t := Take(items, n, got);
            && (t.count == |got| + n <==> AllBytes(items, n))
            && got <= t.bytes
            && (AllBytes(items, n) ==> forall k | 0 <= k < n :: t.bytes[|got| + k] == items[k].b)
  {
    if n > 0 && items != [] && items[0].Byte? {
      var next := got + [items[0].b];
      TakeAll(items[1..], n - 1, next);
      AllBytesNext(items, n);
      if AllBytes(items, n) {
        var t := Take(items, n, got);
        assert t.bytes[|got|] == next[|got|] == items[0].b;
        forall k | 0 < k < n ensures t.bytes[|got| + k] == items[k].b {
          assert t.bytes[|next| + (k - 1)] == items[1..][k - 1].b;
        }
      }
    }
  }

  lemma {:induction false} AllBytesNext(items: seq<Item>, n: nat)
    requires n > 0 && items != []
    ensures AllBytes(items, n) <==> items[0].Byte? && AllBytes(items[1..], n - 1)
  {
    assert items == [items[0]] + items[1..];
  }

  lemma {:induction false} LengthBytes(b: seq<byte>)
    requires |b| == 4
    ensures GetLen(ToWord(Big, b)) == b[0] as nat * 256 + b[1] as nat
  {
    Halves(b[0] as nat * 256 + b[1] as nat, b[2] as nat * 256 + b[3] as nat);
  }

  /** The length is too short exactly if a whole header comes, with 0 in its first byte
      and less than 64 in its second. */
  lemma {:induction false} ShortLengthIs(g: Host, d: Direction, items: seq<Item>)
    ensures Receive(g, d, items).0.ShortLength?
            <==> AllBytes(items, HEADER_SIZE) && items[0].b == 0 && items[1].b < HEADER_SIZE
  {
    var t := Take(items, HEADER_SIZE, []);
    TakeAll(items, HEADER_SIZE, []);
    if t.count == HEADER_SIZE {
      LengthBytes(t.bytes[..4]);
    }
  }

  /** A header of zeros is one. */
  lemma {:induction false} ZeroHeader(g: Host, d: Direction)
    ensures Receive(g, d, Items(seq(HEADER_SIZE, _ => 0))).0.ShortLength?
  {
    ShortLengthIs(g, d, Items(seq(HEADER_SIZE, _ => 0)));
  }

  // ----- The codes that are known -----

  lemma {:induction false} CodeBytes(b: seq<byte>)
    requires |b| == 4
    ensures GetCode(ToWord(Big, b)) == b[2] as nat * 256 + b[3] as nat
  {
    Halves(b[0] as nat * 256 + b[1] as nat, b[2] as nat * 256 + b[3] as nat);
  }

  lemma {:induction false} CodeIsKnown(high: byte, low: byte, len: nat)
    ensures CodeWords(Request, high * 256 + low, len).Some? <==> high == 0 && 1 <= low <= 8
    ensures CodeWords(Reply, high * 256 + low, len).Some?
            <==> (high == 0x0A && 1 <= low <= 8) || (high == 0x0F && 1 <= low <= 9)
  {
  }

  /** The code stands in the third and fourth byte; the server knows the codes 1 to 8, and
      the client the eight successes and nine failures of server/data_format.h. */
  lemma {:induction false} KnownCodes(g: Host, block: seq<byte>)
    requires |block| >= HEADER_SIZE
    ensures Decode(g, Request, block).Got? <==> block[2] == 0 && 1 <= block[3] <= 8
    ensures Decode(g, Reply, block).Got?
            <==> (block[2] == 0x0A && 1 <= block[3] <= 8) || (block[2] == 0x0F && 1 <= block[3] <= 9)
    ensures forall d :: Decode(g, d, block).Got? || Decode(g, d, block).UnknownCode?
  {
    CodeBytes(block[..4]);
    CodeIsKnown(block[2], block[3], |block|);
  }

  // ----- A message sent by one host arrives at another -----

  lemma {:induction false} EncodeLayout(h: Host, d: Direction, m: Message)
    requires Formed(d, m)
    ensures Encode(h, d, Layout(h, m)) == Some(OnWire(m))
  {
    var code, ws := m.words[0], WithLength(m);
    FirstWord(h, m.words, m.raw);
    WordRoundTrip(h, code);
    FirstWord(h, ws, m.raw);
    assert Layout(h, m)[4..] == OfWords(h, m.words[1..]) + m.raw;
    assert OfWord(h, ws[0]) + Layout(h, m)[4..] == OfWords(h, ws) + m.raw by {
      assert ws[1..] == m.words[1..];
      AppendAssociates(OfWord(h, ws[0]), OfWords(h, ws[1..]), m.raw);
    }
    FlipLayout(h, ws, m.raw);
  }

  lemma {:induction false} WireLength(m: Message)
    requires m.words != [] && m.words[0] < 0x1_0000 && Size(m) < 0x1_0000
    ensures |OnWire(m)| >= 4 && GetLen(ToWord(Big, OnWire(m)[..4])) == Size(m)
    ensures GetCode(ToWord(Big, OnWire(m)[..4])) == m.words[0]
  {
    var packed := SetLen(m.words[0], Size(m));
    FirstWord(Big, WithLength(m), m.raw);
    assert OnWire(m)[..4] == OfWord(Big, packed);
    WordRoundTrip(Big, packed);
    PackedShort(m.words[0], Size(m));
  }

  lemma {:induction false} ClearLayout(g: Host, m: Message)
    requires m.words != [] && m.words[0] < 0x1_0000 && Size(m) < 0x1_0000
    ensures ClearLen(g, OfWords(g, WithLength(m)) + m.raw) == Layout(g, m)
  {
    var ws := WithLength(m);
    PackedLength(m.words[0], Size(m));
    FirstWord(g, ws, m.raw);
    WordRoundTrip(g, ws[0]);
    assert ws[1..] == m.words[1..];
    AppendAssociates(OfWord(g, m.words[0]), OfWords(g, m.words[1..]), m.raw);
  }

  lemma {:induction false} DecodeWire(g: Host, d: Direction, m: Message)
    requires WellFormed(d, m)
    ensures Decode(g, d, OnWire(m)) == Got(Layout(g, m))
  {
    WireLength(m);
    FlipLayout(g, WithLength(m), m.raw);
    ClearLayout(g, m);
  }

  /** A well-formed message is received whole, in the byte order of the receiver, and
      nothing behind it is touched. */
  lemma {:induction false} ReceiveOne(g: Host, d: Direction, m: Message, rest: seq<Item>)
    requires WellFormed(d, m)
    ensures Receive(g, d, Items(OnWire(m)) + rest) == (Got(Layout(g, m)), rest)
  {
    var b := OnWire(m);
    var head, tail := b[..HEADER_SIZE], b[HEADER_SIZE..];
    DecodeWire(g, d, m);
    WireLength(m);
    assert head[..4] == b[..4] && head + tail == b;
    assert Items(b) == Items(head) + Items(tail);
    AppendAssociates(Items(head), Items(tail), rest);
    TakePlain(head, Items(tail) + rest);
    TakePlain(tail, rest);
  }

  // ----- A message that is too long -----

  lemma {:induction false} ReceiveShort(g: Host, d: Direction, b: seq<byte>, rest: seq<Item>)
    requires |b| >= HEADER_SIZE && GetLen(ToWord(Big, b[..4])) < HEADER_SIZE
    ensures Receive(g, d, Items(b) + rest).0.ShortLength?
  {
    var head, tail := b[..HEADER_SIZE], b[HEADER_SIZE..];
    assert head[..4] == b[..4] && head + tail == b;
    ItemsAppend(head, tail);
    AppendAssociates(Items(head), Items(tail), rest);
    TakePlain(head, Items(tail) + rest);
  }

  /** The length announced is the length modulo 2^16. */
  lemma {:induction false} LongLength(m: Message)
    requires m.words != [] && m.words[0] < 0x1_0000
    ensures |OnWire(m)| >= 4 && GetLen(ToWord(Big, OnWire(m)[..4])) == Size(m) % 0x1_0000
  {
    var packed := SetLen(m.words[0], Size(m));
    FirstWord(Big, WithLength(m), m.raw);
    assert OnWire(m)[..4] == OfWord(Big, packed);
    WordRoundTrip(Big, packed);
    PackedLength(m.words[0], Size(m));
  }

  /** Its front looks like a message of that length, followed by the other ints. */
  lemma {:induction false} CutOnWire(m: Message, k: nat)
    requires m.raw == [] && 0 < k <= |m.words| && Size(m) % 0x1_0000 == 4 * k < 0x1_0000
    ensures OnWire(m) == OnWire(Message(m.words[..k], [])) + OfWords(Big, m.words[k..])
  {
    var front, behind := m.words[..k], m.words[k..];
    var ws := [SetLen(m.words[0], Size(m))] + front[1..];
    Halves(0, 4 * k);
    assert WithLength(m) == ws + behind;
    OfWordsAppend(Big, ws, behind);
    assert WithLength(Message(front, [])) == ws;
    assert OfWords(Big, ws) + [] == OfWords(Big, ws);
    assert OfWords(Big, ws + behind) + [] == OfWords(Big, ws + behind);
  }

  /** A message of 2^16 bytes or more is cut to its length modulo 2^16, and the bytes
      behind are left for the next message. */
  lemma {:induction false} ReceiveCut(g: Host, d: Direction, m: Message, k: nat, rest: seq<Item>)
    requires m.raw == [] && 0 < k <= |m.words| && Size(m) % 0x1_0000 == 4 * k < 0x1_0000
    requires WellFormed(d, Message(m.words[..k], []))
    ensures Receive(g, d, Items(OnWire(m)) + rest)
            == (Got(Layout(g, Message(m.words[..k], []))), Items(OfWords(Big, m.words[k..])) + rest)
  {
    var front, behind := Message(m.words[..k], []), OfWords(Big, m.words[k..]);
    CutOnWire(m, k);
    ItemsAppend(OnWire(front), behind);
    AppendAssociates(Items(OnWire(front)), Items(behind), rest);
    ReceiveOne(g, d, front, Items(behind) + rest);
  }

  /** All messages up to the first that fails, why that one fails, and what is left. */
  function ReceiveAll(g: Host, d: Direction, items: seq<Item>): (seq<seq<byte>>, Received, seq<Item>)
    decreases |items|
  {
    var (r, rest) := Receive(g, d, items);
    if !r.Got? then ([], r, rest)
    else
      var (blocks, last, left) := ReceiveAll(g, d, rest);
      ([r.block] + blocks, last, left)
  }

  function OnWireAll(ms: seq<Message>): seq<byte> {
    if ms == [] then [] else OnWire(ms[0]) + OnWireAll(ms[1..])
  }

  function Layouts(g: Host, ms: seq<Message>): seq<seq<byte>> {
    if ms == [] then [] else [Layout(g, ms[0])] + Layouts(g, ms[1..])
  }

  lemma {:induction false} ItemsAppend(a: seq<byte>, b: seq<byte>)
    ensures Items(a + b) == Items(a) + Items(b)
  {
  }

  lemma {:induction false} ReceiveNothing(g: Host, d: Direction)
    ensures ReceiveAll(g, d, []) == ([], Lost, [])
  {
    assert Take([], HEADER_SIZE, []).count == 0;
  }

  lemma {:induction false} ReceiveNext(g: Host, d: Direction, items: seq<Item>, block: seq<byte>, rest: seq<Item>,
                                       blocks: seq<seq<byte>>)
    requires Receive(g, d, items) == (Got(block), rest) && ReceiveAll(g, d, rest) == (blocks, Lost, [])
    ensures ReceiveAll(g, d, items) == ([block] + blocks, Lost, [])
  {
  }

  /** A list of messages sent one behind the other arrives as that list, in order, and
      every byte is used. */
  lemma {:induction false} ReceiveList(g: Host, d: Direction, ms: seq<Message>)
    requires forall i | 0 <= i < |ms| :: WellFormed(d, ms[i])
    ensures ReceiveAll(g, d, Items(OnWireAll(ms))) == (Layouts(g, ms), Lost, [])
  {
    if ms == [] {
      ReceiveNothing(g, d);
    } else {
      var b, more := OnWire(ms[0]), OnWireAll(ms[1..]);
      ItemsAppend(b, more);
      ReceiveOne(g, d, ms[0], Items(more));
      ReceiveList(g, d, ms[1..]);
      ReceiveNext(g, d, Items(b + more), Layout(g, ms[0]), Items(more), Layouts(g, ms[1..]));
    }
  }

  // ----- The procedures -----

  method FlipInt(data: array<byte>, p: nat, h: Host, ghost front: seq<byte>, ghost rest: seq<byte>)
    requires |rest| >= 4 && data[..] == front + rest && p == |front|
    modifies data
    ensures data[..] == front + Flip(h, rest[..4]) + rest[4..]
  {
    SplitAt(front, rest);
    assert data.Length == |front + rest|;
    if h == Little {
      data[p], data[p + 1], data[p + 2], data[p + 3] := data[p + 3], data[p + 2], data[p + 1], data[p];
    } else {
      assert rest == rest[..4] + rest[4..];
      AppendAssociates(front, rest[..4], rest[4..]);
    }
  }

  lemma {:induction false} FlipStep(h: Host, front: seq<byte>, rest: seq<byte>, n: nat)
    requires n > 0 && 4 * n <= |rest|
    ensures front + FlipWords(h, rest, n) == (front + Flip(h, rest[..4])) + FlipWords(h, rest[4..], n - 1)
  {
    AppendAssociates(front, Flip(h, rest[..4]), FlipWords(h, rest[4..], n - 1));
  }

  lemma {:induction false} SplitAt(front: seq<byte>, rest: seq<byte>)
    requires |rest| >= 4
    ensures var b := front + rest; var p := |front|;
            b[..p] == front && b[p..p + 4] == rest[..4] && b[p + 4..] == rest[4..]
  {
  }

  /** htonl_arr and ntohl_arr: the first n ints are converted in place. */
  method FlipArr(data: array<byte>, n: nat, h: Host)
    requires 4 * n <= data.Length
    modifies data
    ensures data[..] == FlipWords(h, old(data[..]), n)
  {
    ghost var front, rest: seq<byte> := [], data[..];
    ghost var goal := FlipWords(h, rest, n);
    assert [] + goal == goal && [] + rest == rest;
    var i := 0;
    while i < n
      invariant 0 <= i <= n && |front| == 4 * i && 4 * (n - i) <= |rest|
      invariant data[..] == front + rest && goal == front + FlipWords(h, rest, n - i)
    {
      FlipStep(h, front, rest, n - i);
      FlipInt(data, 4 * i, h, front, rest);
      front, rest := front + Flip(h, rest[..4]), rest[4..];
      i := i + 1;
    }
  }

  method StoreWord(data: array<byte>, w: seq<byte>)
    requires data.Length >= 4 && |w| == 4
    modifies data
    ensures data[..] == w + old(data[4..])
  {
    data[0], data[1], data[2], data[3] := w[0], w[1], w[2], w[3];
  }

  /** The block with the length or-ed into its code and its ints converted. */
  method Pack(h: Host, block: seq<byte>, packed: word, n: nat) returns (data: array<byte>)
    requires |block| >= HEADER_SIZE && 4 * n <= |block|
    ensures fresh(data) && data[..] == FlipWords(h, OfWord(h, packed) + block[4..], n)
  {
    data := new byte[|block|](i requires 0 <= i < |block| => block[i]);
    StoreWord(data, OfWord(h, packed));
    assert data[..] == OfWord(h, packed) + block[4..];
    FlipArr(data, n, h);
  }

  /** sendData of the server; -1 for a code it does not send or for a failed write. */
  method SendData(fd: Output, h: Host, block: seq<byte>) returns (rc: int)
    requires |block| >= HEADER_SIZE
    modifies fd
    ensures match Encode(h, Reply, block)
            case None => rc == -1 && fd.written == old(fd.written)
            case Some(b) =>
              && fd.written == old(fd.written) + b[..Allowed(old(fd.script), |b|)]
              && rc == (if Allowed(old(fd.script), |b|) == |b| then |b| else -1)
              && (rc == |b| ==> fd.written == old(fd.written) + b)
    ensures Encode(h, Reply, block).Some? && Willing(old(fd.script)) ==> rc == |block|
  {
    var len := |block|;
    var code := ToWord(h, block[..4]);
    match ReplyWords(code, len) {
      case None =>
        rc := -1;
      case Some(n) =>
        PackedLength(code, len);
        var data := Pack(h, block, SetLen(AddLen(code, len), len), n);
        var b := data[..];
        assert |b| == len && b[..len] == b;
        rc := WriteN(fd, b);
    }
  }

  /** Header and rest of a block of `len` bytes; false where reading falls short. */
  method ReadRest(fd: Descriptor, base: seq<byte>, len: nat) returns (ok: bool, data: array<byte>)
    requires |base| == HEADER_SIZE <= len
    modifies fd
    ensures fresh(data)
    ensures var u := Take(old(Pending(fd.events)), len - HEADER_SIZE, []);
            && Pending(fd.events) == u.rest && ok == (u.count + HEADER_SIZE == len)
            && (ok ==> data[..] == base + u.bytes)
  {
    data := new byte[len](_ => 0);
    Copy(data, 0, base);
    assert data[..HEADER_SIZE] == base;
    ok := true;
    if len > HEADER_SIZE {
      var re := ReadN(fd, data, HEADER_SIZE, len - HEADER_SIZE);
      if re + HEADER_SIZE != len {
        return false, data;
      }
    }
    assert data[..len] == data[..];
  }

  /** Header and rest of a message, as they were sent. */
  method ReadBlock(fd: Descriptor) returns (r: Received, data: array<byte>)
    modifies fd
    ensures fresh(data)
    ensures Block(old(Pending(fd.events))) == (r, Pending(fd.events)) && (r.Got? ==> data[..] == r.block)
  {
    ghost var t := Take(Pending(fd.events), HEADER_SIZE, []);
    data := new byte[HEADER_SIZE];
    var re := ReadN(fd, data, 0, HEADER_SIZE);
    if re != HEADER_SIZE {
      return Lost, data;
    }
    var base := data[..];
    assert base == data[..HEADER_SIZE] == t.bytes;
    var len := GetLen(ToWord(Big, base[..4]));
    if len < HEADER_SIZE {
      return ShortLength, data;
    }
    var ok;
    ok, data := ReadRest(fd, base, len);
    r := if ok then Got(data[..]) else Lost;
  }

  /** recvData of the server. */
  method RecvData(fd: Descriptor, g: Host) returns (r: Received)
    modifies fd
    ensures (r, Pending(fd.events)) == Receive(g, Request, old(Pending(fd.events)))
  {
    var data;
    r, data := ReadBlock(fd);
    if r.Got? {
      r := Convert(data, g, Request);
    }
  }

  /** The switch over the codes, and the length cleared. */
  method Convert(data: array<byte>, g: Host, d: Direction) returns (r: Received)
    requires data.Length >= HEADER_SIZE
    modifies data
    ensures r == Decode(g, d, old(data[..]))
  {
    assert data[..4] == data[..][..4];
    match CodeWords(d, GetCode(ToWord(Big, data[..4])), data.Length) {
      case None =>
        r := UnknownCode;
      case Some(n) =>
        FlipArr(data, n, g);
        assert data[..4] == data[..][..4] && data[4..] == data[..][4..];
        StoreWord(data, OfWord(g, GetCode(ToWord(g, data[..4]))));
        r := Got(data[..]);
    }
  }

  /** What a connection of the server delivers until it is closed. */
  method Serve(fd: Descriptor, g: Host) returns (blocks: seq<seq<byte>>, last: Received)
    modifies fd
    ensures (blocks, last, Pending(fd.events)) == ReceiveAll(g, Request, old(Pending(fd.events)))
  {
    ghost var all := ReceiveAll(g, Request, Pending(fd.events));
    blocks := [];
    ghost var left := Pending(fd.events);
    assert [] + all.0 == all.0;
    while true
      invariant left == Pending(fd.events)
      invariant var (more, end, rest) := ReceiveAll(g, Request, left); all == (blocks + more, end, rest)
      decreases |left|
    {
      last := RecvData(fd, g);
      left := Pending(fd.events);
      if !last.Got? {
        assert blocks + [] == blocks;
        return;
      }
      ghost var more := ReceiveAll(g, Request, left).0;
      AppendAssociates(blocks, [last.block], more);
      blocks := blocks + [last.block];
    }
  }

  // ----- The client -----

  /** A script behind its next call. */
  function RestOf(script: seq<Acceptance>): seq<Acceptance> {
    if script == [] then [] else script[1..]
  }

  /** send_data of the client: one write, and the client gives up exactly unless it takes
      all. */
  method ClientSend(fd: Output, h: Host, block: seq<byte>) returns (sent: bool)
    requires |block| >= HEADER_SIZE
    modifies fd
    ensures match Encode(h, Request, block)
            case None => !sent && fd.written == old(fd.written)
            case Some(b) =>
              && fd.written == old(fd.written) + b[..NextWrite(old(fd.script), |b|)]
              && fd.script == RestOf(old(fd.script))
              && (sent <==> NextWrite(old(fd.script), |b|) == |b|)
              && (sent ==> fd.written == old(fd.written) + b)
  {
    var len := |block|;
    var code := ToWord(h, block[..4]);
    match RequestWords(code, len) {
      case None =>
        sent := false;
      case Some(n) =>
        var data := Pack(h, block, SetLen(code, len), n);
        var b := data[..];
        assert |b| == len && b[..len] == b;
        var re, interrupted := fd.Write(b);
        sent := re == len;
    }
  }

  // ----- Requests from the client to the server -----

  /** One call takes all of each message. */
  predicate TakesEach(script: seq<Acceptance>, ms: seq<Message>) {
    ms == [] || (NextWrite(script, Size(ms[0])) == Size(ms[0]) && TakesEach(RestOf(script), ms[1..]))
  }

  lemma {:induction false} OnWirePush(ms: seq<Message>, m: Message)
    ensures OnWireAll(ms + [m]) == OnWireAll(ms) + OnWire(m)
  {
    if ms == [] {
      assert ms + [m] == [m] && [m][1..] == [] && OnWireAll([]) == [];
      assert OnWire(m) + [] == OnWire(m);
    } else {
      assert (ms + [m])[1..] == ms[1..] + [m];
      OnWirePush(ms[1..], m);
      AppendAssociates(OnWire(ms[0]), OnWireAll(ms[1..]), OnWire(m));
    }
  }

  /** The client sends requests one behind the other; false where it gives up. */
  method SendAll(fd: Output, h: Host, ms: seq<Message>) returns (sent: bool)
    requires forall i | 0 <= i < |ms| :: WellFormed(Request, ms[i])
    modifies fd
    ensures sent <==> TakesEach(old(fd.script), ms)
    ensures sent ==> fd.written == old(fd.written) + OnWireAll(ms)
  {
    ghost var start := fd.written;
    assert start + OnWireAll([]) == start && ms[..0] == [] && ms[0..] == ms;
    for k := 0 to |ms|
      invariant fd.written == start + OnWireAll(ms[..k])
      invariant TakesEach(old(fd.script), ms) == TakesEach(fd.script, ms[k..])
    {
      assert ms[k..][0] == ms[k] && ms[k..][1..] == ms[k + 1..];
      EncodeLayout(h, Request, ms[k]);
      var done := ClientSend(fd, h, Layout(h, ms[k]));
      if !done {
        return false;
      }
      assert ms[..k + 1] == ms[..k] + [ms[k]];
      OnWirePush(ms[..k], ms[k]);
      AppendAssociates(start, OnWireAll(ms[..k]), OnWire(ms[k]));
    }
    assert ms[..|ms|] == ms;
    sent := true;
  }

  /** From client to server over any network: if every write takes its whole request, the
      server reads just these requests, in its own byte order. */
  method Exchange(ms: seq<Message>, h: Host, g: Host, script: seq<Acceptance>, net: seq<byte> -> seq<Event>)
    returns (sent: bool, blocks: seq<seq<byte>>)
    requires forall i | 0 <= i < |ms| :: WellFormed(Request, ms[i])
    requires forall b :: Pending(net(b)) == Items(b)
    ensures sent <==> TakesEach(script, ms)
    ensures sent ==> blocks == Layouts(g, ms)
  {
    var out := new Output(script);
    blocks := [];
    sent := SendAll(out, h, ms);
    if sent {
      assert out.written == [] + OnWireAll(ms) == OnWireAll(ms);
      var fd := new Descriptor(net(out.written));
      ReceiveList(g, Request, ms);
      var last;
      blocks, last := Serve(fd, g);
    }
  }

  /** error_check: the codes 0xF.. end the client. */
  predicate IsError(code: nat) {
    code / 256 % 16 == 15
  }

  function CodeOf(g: Host, block: seq<byte>): nat
    requires |block| >= 4
  {
    ToWord(g, block[..4])
  }

  /** Of the replies that can come, these are the nine failures. */
  lemma {:induction false} ErrorReplies(g: Host, m: Message)
    requires WellFormed(Reply, m)
    ensures IsError(CodeOf(g, Layout(g, m)))
            <==> m.words[0] in {0xF01, 0xF02, 0xF03, 0xF04, 0xF05, 0xF06, 0xF07, 0xF08, 0xF09}
  {
    FirstWord(g, m.words, m.raw);
    WordRoundTrip(g, m.words[0]);
    KnownReplies(m);
  }

  /** A block of `len` bytes comes in time for two calls of read(): in one piece, or cut
      just behind the header. */
  predicate InTime(events: seq<Event>, len: nat) {
    || NextPiece(events) >= len >= HEADER_SIZE
    || (NextPiece(events) == HEADER_SIZE < len && NextPiece(events[1..]) >= len - HEADER_SIZE)
  }

  /** The client goes on with a block, ends, or runs into a length that is less than that
      of the header, for which it copies behind its block and asks read() for less than
      nothing: what follows is not defined. */
  datatype Outcome = GoesOn(block: seq<byte>) | Ends | Undefined

  /** recv_data of the client: one read for the header and one for the rest. It goes on
      exactly for replies that are no errors and come in time. */
  method ClientRecv(fd: Descriptor, g: Host) returns (r: Outcome)
    modifies fd
    ensures var got := Receive(g, Reply, old(Pending(fd.events))).0;
            && (r.GoesOn? <==> got.Got? && !IsError(CodeOf(g, got.block)) && InTime(old(fd.events), |got.block|))
            && (r.Undefined? <==> got.ShortLength? && NextPiece(old(fd.events)) >= HEADER_SIZE)
    ensures r.GoesOn? ==> (Got(r.block), Pending(fd.events)) == Receive(g, Reply, old(Pending(fd.events)))
  {
    var b, data := ClientBlock(fd);
    if b.ShortLength? {
      return Undefined;
    }
    if !b.Got? {
      return Ends;
    }
    var got := Convert(data, g, Reply);
    if !got.Got? || IsError(CodeOf(g, got.block)) {
      return Ends;
    }
    r := GoesOn(got.block);
  }

  method ClientBlock(fd: Descriptor) returns (r: Received, data: array<byte>)
    modifies fd
    ensures fresh(data) && data.Length >= HEADER_SIZE
    ensures r.Got? ==> r.block == data[..] && Block(old(Pending(fd.events))) == (r, Pending(fd.events))
    ensures var b := Block(old(Pending(fd.events))).0;
            && (r.Got? <==> b.Got? && InTime(old(fd.events), |b.block|))
            && (r.ShortLength? <==> b.ShortLength? && NextPiece(old(fd.events)) >= HEADER_SIZE)
  {
    data := new byte[HEADER_SIZE](_ => 0);
    var head := fd.Read(HEADER_SIZE);
    if !head.Bytes? || |head.bytes| != HEADER_SIZE {
      return Lost, data;
    }
    var base := head.bytes;
    TakePlain(base, Pending(fd.events));
    var len := GetLen(ToWord(Big, base[..4]));
    if len < HEADER_SIZE {
      return ShortLength, data;
    }
    var ok;
    ok, data := ClientRest(fd, base, len);
    r := if ok then Got(data[..]) else Lost;
  }

  method ClientRest(fd: Descriptor, base: seq<byte>, len: nat) returns (ok: bool, data: array<byte>)
    requires |base| == HEADER_SIZE <= len
    modifies fd
    ensures fresh(data) && data.Length == len
    ensures ok ==> var u := Take(old(Pending(fd.events)), len - HEADER_SIZE, []);
                   Pending(fd.events) == u.rest && u.count + HEADER_SIZE == len && data[..] == base + u.bytes
    ensures ok <==> len == HEADER_SIZE || NextPiece(old(fd.events)) >= len - HEADER_SIZE
  {
    data := new byte[len](_ => 0);
    Copy(data, 0, base);
    assert data[..HEADER_SIZE] == base;
    ok := true;
    if len != HEADER_SIZE {
      var rest := fd.Read(len - HEADER_SIZE);
      if !rest.Bytes? || |rest.bytes| + HEADER_SIZE != len {
        return false, data;
      }
      TakePlain(rest.bytes, Pending(fd.events));
      Copy(data, HEADER_SIZE, rest.bytes);
    }
    assert data[..len] == data[..];
  }

  /** A call of read() that meets these bytes. */
  function Piece(x: seq<byte>): Event
    requires x != []
  {
    Data(x[0], x[1..])
  }

  lemma {:induction false} PendingPiece(x: seq<byte>, more: seq<Event>)
    requires x != []
    ensures Pending([Piece(x)] + more) == Items(x) + Pending(more) && NextPiece([Piece(x)] + more) == |x|
  {
    assert ([Piece(x)] + more)[1..] == more && [x[0]] + x[1..] == x;
  }

  /** To the server's reader a block is the same however it is cut. The client takes it in
      one piece, and in two exactly if the first is the header of 64 bytes. */
  lemma {:induction false} CutInTwo(x: seq<byte>, y: seq<byte>)
    requires x != [] && y != [] && |x + y| >= 64
    ensures var whole, cut := [Piece(x + y)] + [], [Piece(x)] + ([Piece(y)] + []);
            Pending(whole) == Pending(cut) && InTime(whole, |x + y|) && (InTime(cut, |x + y|) <==> |x| == 64)
  {
    PendingPiece(x + y, []);
    PendingPiece(y, []);
    PendingPiece(x, [Piece(y)] + []);
    ItemsAppend(x, y);
    AppendAssociates(Items(x), Items(y), []);
    assert ([Piece(x)] + ([Piece(y)] + []))[1..] == [Piece(y)] + [];
  }

  /** In three pieces or more it is always too late. */
  lemma {:induction false} CutInThree(x: seq<byte>, y: seq<byte>, more: seq<Event>, len: nat)
    requires x != [] && y != [] && len > |x + y|
    ensures !InTime([Piece(x)] + ([Piece(y)] + more), len)
  {
    PendingPiece(y, more);
    PendingPiece(x, [Piece(y)] + more);
    assert ([Piece(x)] + ([Piece(y)] + more))[1..] == [Piece(y)] + more;
  }
}
