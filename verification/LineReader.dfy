/** The buffered line reader of lib/readline.c. */
module LineReader {
  import opened Integers
  import Sequences
  import opened Streams

  const MAXLINE := 4096

  // ----- What a reader without a buffer would return -----

  /** -1 or a count, the bytes stored, the end of file or error that stopped the
      reading, if one did, and what is left to read. */
  datatype Line = Line(count: int, stored: seq<byte>, stop: seq<Item>, rest: seq<Item>)

  const NEWLINE: byte := 10

  /** A line read byte by byte, with room for `room` more bytes behind those `got`. */
  function LineOf(items: seq<Item>, room: nat, got: seq<byte>): Line
    decreases room
  {
    if room == 0 then Line(|got| + 1, got, [], items)
    else if items == [] then Line(|got|, got, [], items)
    else match items[0]
      case Byte(b) =>
        if b == NEWLINE then Line(|got| + 1, got + [b], [], items[1..])
        else LineOf(items[1..], room - 1, got + [b])
      case Eof => Line(|got|, got, [Eof], items[1..])
      case Error => Line(-1, got, [Error], items[1..])
  }

  /** The bytes that fit in front of the NUL; it is stored even where there is no room. */
  function RoomFor(maxlen: nat): nat {
    if maxlen == 0 then 0 else maxlen - 1
  }

  function ReadLineSpec(items: seq<Item>, maxlen: nat): Line {
    LineOf(items, RoomFor(maxlen), [])
  }

  // ----- The buffer in front of read() -----

  class Reader {
    const fd: Descriptor
    const buf: array<byte>
    var cnt: int
    var ptr: nat

    ghost predicate Valid()
      reads this, buf
    {
      buf.Length == MAXLINE && cnt <= MAXLINE && (cnt > 0 ==> ptr + cnt <= MAXLINE)
    }

    /** The bytes buffered and not yet handed out. */
    function Buffered(): seq<byte>
      requires Valid()
      reads this, buf
    {
      if cnt > 0 then buf[ptr..ptr + cnt] else []
    }

    /** Everything a caller has yet to see. */
    ghost function Unconsumed(): seq<Item>
      requires Valid()
      reads this, buf, fd
    {
      Items(Buffered()) + Pending(fd.events)
    }

    constructor (fd: Descriptor)
      ensures Valid() && this.fd == fd && fresh(buf)
      ensures Unconsumed() == Pending(fd.events)
    {
      this.fd := fd;
      buf := new byte[MAXLINE](_ => 0);
      cnt, ptr := 0, 0;
      new;
      assert Items([]) + Pending(fd.events) == Pending(fd.events);
    }

    /** The refill of my_read: 1 when bytes are buffered, 0 at the end of file, -1 for
        an error. An interrupted call is repeated. */
    method Fill() returns (rc: int)
      requires Valid() && cnt <= 0
      modifies this`cnt, this`ptr, buf, fd
      ensures Valid()
      ensures rc == 1 ==> cnt > 0 && Unconsumed() == old(Unconsumed())
      ensures rc == 0 ==> cnt == 0
      ensures rc == 0 ==> (old(Unconsumed()) == Unconsumed() == [] || old(Unconsumed()) == [Eof] + Unconsumed())
      ensures rc == -1 ==> cnt < 0 && old(Unconsumed()) == [Error] + Unconsumed()
      ensures rc in {-1, 0, 1}
    {
      ghost var before := Pending(fd.events);
      assert Unconsumed() == before;
      while true
        invariant Valid() && cnt <= 0 && Pending(fd.events) == before
        decreases Weight(fd.events)
      {
        var r := fd.Read(MAXLINE);
        assert Items([]) + Pending(fd.events) == Pending(fd.events);
        match r {
          case Interrupted =>
            cnt := -1;
          case Failed =>
            cnt := -1;
            return -1;
          case EndOfFile =>
            cnt := 0;
            return 0;
          case Bytes(bytes) =>
            Copy(buf, 0, bytes);
            cnt, ptr := |bytes|, 0;
            assert buf[..|bytes|] == bytes;
            return 1;
        }
      }
    }

    /** my_read: 1 and a byte, 0 at the end of file, -1 for an error. */
    method MyRead() returns (rc: int, c: byte)
      requires Valid()
      modifies this`cnt, this`ptr, buf, fd
      ensures Valid()
      ensures rc == 1 ==> old(Unconsumed()) == [Byte(c)] + Unconsumed()
      ensures rc == 0 ==> (old(Unconsumed()) == Unconsumed() == [] || old(Unconsumed()) == [Eof] + Unconsumed())
      ensures rc == -1 ==> old(Unconsumed()) == [Error] + Unconsumed()
      ensures rc in {-1, 0, 1}
    {
      if cnt <= 0 {
        rc := Fill();
        if rc != 1 {
          return rc, 0;
        }
      }
      ghost var b := Buffered();
      TakeOne(b, Pending(fd.events));
      cnt := cnt - 1;
      c := buf[ptr];
      ptr := ptr + 1;
      assert Buffered() == b[1..];
      rc := 1;
    }

    /** One turn of the loop, with `got` in front of `p`: my_read, and the byte stored. */
    method Store(dst: array<byte>, p: nat, ghost room: nat, ghost got: seq<byte>) returns (rc: int, c: byte)
      requires Valid() && p < dst.Length && dst != buf && room > 0 && dst[..p] == got
      modifies this`cnt, this`ptr, buf, fd, dst
      ensures Valid() && rc in {-1, 0, 1}
      ensures rc == 1 ==> dst[..p + 1] == got + [c]
      ensures rc == 0 ==> dst[..p] == got
      ensures Stepped(LineOf(old(Unconsumed()), room, got), Unconsumed(), room, got, rc, c)
    {
      ghost var items := Unconsumed();
      rc, c := MyRead();
      LineStep(items, Unconsumed(), room, got, rc, c);
      if rc == 1 {
        dst[p] := c;
      }
    }

    /** The loop of readline: what it returns, and where it stopped storing. */
    method Gather(dst: array<byte>, maxlen: nat) returns (rc: int, p: nat, ghost line: Line)
      requires Valid() && dst.Length >= maxlen && dst.Length > 0 && dst != buf
      modifies this`cnt, this`ptr, buf, fd, dst
      ensures Valid()
      ensures line == ReadLineSpec(old(Unconsumed()), maxlen) && rc == line.count && Unconsumed() == line.rest
      ensures p == |line.stored| <= RoomFor(maxlen) && (rc >= 0 ==> dst[..p] == line.stored)
    {
      ghost var got: seq<byte> := [];
      line := ReadLineSpec(Unconsumed(), maxlen);
      p := 0;
      var n := 1;
      while n < maxlen
        invariant Valid() && p == n - 1 == |got| <= RoomFor(maxlen) && dst[..p] == got
        invariant line == LineOf(Unconsumed(), RoomFor(maxlen) - p, got)
      {
        var r, c := Store(dst, p, RoomFor(maxlen) - p, got);
        if r == 1 {
          p := p + 1;
          got := got + [c];
          if c == NEWLINE {
            break;
          }
        } else {
          rc := if r == 0 then n - 1 else -1;
          return;
        }
        n := n + 1;
      }
      rc := n;
    }

    /** readline: stores at most maxlen - 1 bytes up to a newline, and a NUL behind them
        unless reading failed. It stays within maxlen exactly if that is not 0, in which
        case there has to be memory for the NUL. */
    method ReadLine(dst: array<byte>, maxlen: nat) returns (rc: int)
      requires Valid() && dst.Length >= maxlen && dst.Length > 0 && dst != buf
      modifies this`cnt, this`ptr, buf, fd, dst
      ensures Valid()
      ensures var line := ReadLineSpec(old(Unconsumed()), maxlen);
              && rc == line.count && Unconsumed() == line.rest && |line.stored| <= RoomFor(maxlen)
              && (|line.stored| < maxlen <==> maxlen > 0)
              && (rc >= 0 ==> dst[..|line.stored|] == line.stored && dst[|line.stored|] == 0)
    {
      var p;
      ghost var line;
      rc, p, line := Gather(dst, maxlen);
      if rc >= 0 {
        dst[p] := 0;
      }
    }
  }

  /** A line with what my_read returned for its next byte. */
  ghost predicate Stepped(line: Line, rest: seq<Item>, room: nat, got: seq<byte>, rc: int, c: byte)
    requires room > 0
  {
    if rc == 1 then
      line == if c == NEWLINE then Line(|got| + 1, got + [c], [], rest) else LineOf(rest, room - 1, got + [c])
    else
      line.count == (if rc == 0 then |got| else -1) && line.stored == got && line.rest == rest
  }

  /** One byte, end of file or error further. */
  lemma {:induction false} LineStep(items: seq<Item>, rest: seq<Item>, room: nat, got: seq<byte>, rc: int, c: byte)
    requires room > 0 && rc in {-1, 0, 1}
    requires rc == 1 ==> items == [Byte(c)] + rest
    requires rc == 0 ==> items == rest == [] || items == [Eof] + rest
    requires rc == -1 ==> items == [Error] + rest
    ensures Stepped(LineOf(items, room, got), rest, room, got, rc, c)
  {
  }

  lemma {:induction false} TakeOne(bytes: seq<byte>, rest: seq<Item>)
    requires bytes != []
    ensures Items(bytes) + rest == [Byte(bytes[0])] + (Items(bytes[1..]) + rest)
  {
  }

  // ----- What the callers of readline can rely on -----

  /** The bytes of a line, what stopped it and what is left are what was there: nothing
      is lost, added or moved. */
  lemma {:induction false} LineConserves(items: seq<Item>, room: nat, got: seq<byte>)
    ensures var line := LineOf(items, room, got);
            got <= line.stored && items == Items(line.stored[|got|..]) + line.stop + line.rest
    decreases room
  {
    var line := LineOf(items, room, got);
    if room > 0 && items != [] && items[0].Byte? {
      var b := items[0].b;
      if b == NEWLINE {
        assert line.stored[|got|..] == [b];
      } else {
        LineConserves(items[1..], room - 1, got + [b]);
        assert line.stored[|got|..] == [b] + line.stored[|got| + 1..];
      }
    }
  }

  /** No newline, end of file or error among the first `room` items. */
  predicate FillsRoom(items: seq<Item>, room: nat) {
    |items| >= room && forall k | 0 <= k < room :: items[k].Byte? && items[k].b != 10
  }

  lemma {:induction false} FillsOneMore(items: seq<Item>, room: nat)
    requires room > 0 && items != []
    ensures FillsRoom(items, room) <==> items[0].Byte? && items[0].b != 10 && FillsRoom(items[1..], room - 1)
  {
    assert items == [items[0]] + items[1..];
  }

  /** A line ends at its only newline, where the room ends, or at the end of file, and
      the count is its length, but one too high exactly if the room is filled before. */
  lemma {:induction false} LineShape(items: seq<Item>, room: nat, got: seq<byte>)
    requires forall i | 0 <= i < |got| :: got[i] != 10
    ensures var line := LineOf(items, room, got);
            && |line.stored| <= |got| + room
            && (forall i | 0 <= i < |line.stored| - 1 :: line.stored[i] != 10)
            && (line.count == |line.stored| + 1 <==> FillsRoom(items, room))
            && (line.count == -1 <==> line.stop == [Error])
            && (line.count >= 0 ==>
                  var ended := line.stored != [] && line.stored[|line.stored| - 1] == 10;
                  && (line.count == |line.stored| + 1 <==> !ended && |line.stored| == |got| + room)
                  && (line.count == |line.stored| <==> ended || |line.stored| < |got| + room)
                  && (!ended && |line.stored| < |got| + room ==> line.stop == [Eof] || line.rest == []))
    decreases room
  {
    if room > 0 && items != [] && items[0].Byte? && items[0].b != 10 {
      LineShape(items[1..], room - 1, got + [items[0].b]);
      FillsOneMore(items, room);
    }
  }

  /** Room for one byte and one byte to read: two are counted. */
  lemma {:induction false} FullRoomCountsOneMore()
    ensures var line := ReadLineSpec([Byte(0)], 2); line.count == 2 && |line.stored| == 1
  {
    LineShape([Byte(0)], 1, []);
  }

  /** A buffer of no bytes: a NUL is stored, and one byte counted. */
  lemma {:induction false} NoRoomCountsOne(items: seq<Item>)
    ensures ReadLineSpec(items, 0) == Line(1, [], [], items)
  {
  }

  /** The results of a sequence of calls on one descriptor, and what they leave. */
  function Lines(items: seq<Item>, maxlens: seq<nat>): (seq<Line>, seq<Item>)
    decreases |maxlens|
  {
    if maxlens == [] then ([], items)
    else
      var (init, left) := Lines(items, maxlens[..|maxlens| - 1]);
      var line := ReadLineSpec(left, maxlens[|maxlens| - 1]);
      (init + [line], line.rest)
  }

  function Consumed(lines: seq<Line>): seq<Item> {
    if lines == [] then []
    else
      var line := lines[|lines| - 1];
      Consumed(lines[..|lines| - 1]) + (Items(line.stored) + line.stop)
  }

  /** Whatever the sequence of calls, the lines are consecutive pieces of the input. */
  lemma {:induction false} LinesConserve(items: seq<Item>, maxlens: seq<nat>)
    ensures items == Consumed(Lines(items, maxlens).0) + Lines(items, maxlens).1
    decreases |maxlens|
  {
    if maxlens != [] {
      var init := maxlens[..|maxlens| - 1];
      LinesConserve(items, init);
      var (lines, left) := Lines(items, init);
      var maxlen := maxlens[|maxlens| - 1];
      var line := ReadLineSpec(left, maxlen);
      LineConserves(left, RoomFor(maxlen), []);
      assert line.stored[0..] == line.stored;
      assert (lines + [line])[..|lines|] == lines;
      Sequences.AppendAssociates(Consumed(lines), Items(line.stored) + line.stop, line.rest);
    }
  }

  predicate Delivers(line: Line, rc: int, dst: seq<byte>) {
    && rc == line.count
    && (rc >= 0 ==> |line.stored| < |dst| && line.stored <= dst && dst[|line.stored|] == 0)
  }

  /** Any sequence of calls gives what the reader without a buffer gives: it does not
      depend on how read() cuts the input into pieces. */
  method ReadLines(reader: Reader, maxlens: seq<nat>) returns (counts: seq<int>, contents: seq<seq<byte>>)
    requires reader.Valid()
    modifies reader`cnt, reader`ptr, reader.buf, reader.fd
    ensures reader.Valid()
    ensures var (lines, left) := Lines(old(reader.Unconsumed()), maxlens);
            && |counts| == |contents| == |lines| && reader.Unconsumed() == left
            && forall i | 0 <= i < |lines| :: Delivers(lines[i], counts[i], contents[i])
  {
    ghost var items := reader.Unconsumed();
    ghost var lines, left := [], items;
    counts, contents := [], [];
    for k := 0 to |maxlens|
      invariant reader.Valid() && left == reader.Unconsumed()
      invariant Lines(items, maxlens[..k]) == (lines, left) && |counts| == |contents| == |lines|
      invariant forall i | 0 <= i < |lines| :: Delivers(lines[i], counts[i], contents[i])
    {
      assert maxlens[..k + 1][..k] == maxlens[..k];
      ghost var line := ReadLineSpec(left, maxlens[k]);
      var dst := new byte[maxlens[k] + 1](_ => 0);
      var rc := reader.ReadLine(dst, maxlens[k]);
      assert rc >= 0 ==> dst[..][..|line.stored|] == line.stored;
      counts, contents := counts + [rc], contents + [dst[..]];
      lines, left := lines + [line], line.rest;
    }
    assert maxlens[..|maxlens|] == maxlens;
  }
}
