/** A descriptor that delivers its bytes in pieces of any size, with interrupted and
    failed calls in between, and readn and writen on top of it. */
module Streams {
  import opened Integers
  import Sequences

  // ----- Reading -----

  /** What one call of read() can meet: some bytes, EINTR, another error, or an end of
      file behind which more may come. */
  datatype Event = Data(first: byte, more: seq<byte>) | Interrupt | Failure | Hangup

  datatype ReadResult = Bytes(bytes: seq<byte>) | EndOfFile | Interrupted | Failed

  /** What a reader can tell apart, however the bytes are cut into pieces. */
  datatype Item = Byte(b: byte) | Eof | Error

  function Items(bytes: seq<byte>): (items: seq<Item>)
    ensures |items| == |bytes| && forall i | 0 <= i < |items| :: items[i] == Byte(bytes[i])
  {
    seq(|bytes|, i requires 0 <= i < |bytes| => Byte(bytes[i]))
  }

  function Pending(events: seq<Event>): seq<Item> {
    if events == [] then []
    else
      var head := match events[0]
        case Data(first, more) => Items([first] + more)
        case Interrupt => []
        case Failure => [Error]
        case Hangup => [Eof];
      head + Pending(events[1..])
  }

  /** Bounds the calls until the end. */
  function Weight(events: seq<Event>): nat {
    if events == [] then 0
    else 1 + (if events[0].Data? then |events[0].more| else 0) + Weight(events[1..])
  }

  /** How many bytes the next call can deliver at most. */
  function NextPiece(events: seq<Event>): nat {
    if events != [] && events[0].Data? then 1 + |events[0].more| else 0
  }

  class Descriptor {
    var events: seq<Event>

    constructor (events: seq<Event>)
      ensures this.events == events
    {
      this.events := events;
    }

    /** At most n bytes of the next piece; the end of file once nothing is left. */
    method Read(n: nat) returns (r: ReadResult)
      requires n > 0
      modifies this
      ensures r.Bytes? ==> 0 < |r.bytes| <= n && old(Pending(events)) == Items(r.bytes) + Pending(events)
      ensures r.Interrupted? ==> Pending(events) == old(Pending(events))
      ensures r.Failed? ==> old(Pending(events)) == [Error] + Pending(events)
      ensures r.EndOfFile? ==> (old(Pending(events)) == Pending(events) == [])
                               || old(Pending(events)) == [Eof] + Pending(events)
      ensures !r.EndOfFile? ==> Weight(events) < old(Weight(events))
      ensures var size := NextPiece(old(events));
              && (r.Bytes? <==> size > 0) && (r.Bytes? ==> |r.bytes| == if size <= n then size else n)
              && (0 < size <= n ==> events == old(events)[1..]) && (size > n ==> NextPiece(events) == size - n)
    {
      if events == [] {
        return EndOfFile;
      }
      match events[0]
      case Data(first, more) =>
        var chunk := [first] + more;
        if |chunk| <= n {
          r := Bytes(chunk);
          events := events[1..];
        } else {
          r := Bytes(chunk[..n]);
          SplitChunk(chunk, n, events[1..]);
          events := [Data(chunk[n], chunk[n + 1..])] + events[1..];
        }
      case Interrupt =>
        r := Interrupted;
        events := events[1..];
      case Failure =>
        r := Failed;
        events := events[1..];
      case Hangup =>
        r := EndOfFile;
        events := events[1..];
    }
  }

  lemma {:induction false} SplitChunk(chunk: seq<byte>, n: nat, rest: seq<Event>)
    requires n < |chunk|
    ensures var events := [Data(chunk[n], chunk[n + 1..])] + rest;
            Items(chunk[..n]) + Pending(events) == Items(chunk) + Pending(rest)
            && Weight(events) == |chunk| - n + Weight(rest)
  {
    var events := [Data(chunk[n], chunk[n + 1..])] + rest;
    assert events[1..] == rest;
    assert [chunk[n]] + chunk[n + 1..] == chunk[n..];
    assert Items(chunk[..n]) + Items(chunk[n..]) == Items(chunk);
    Sequences.AppendAssociates(Items(chunk[..n]), Items(chunk[n..]), Pending(rest));
  }

  // ----- readn -----

  /** What is read when n bytes are asked for: the count, -1 for an error, the bytes,
      and what is left to read. An end of file cuts the reading short; an error loses
      the bytes in front of it. */
  datatype Taken = Taken(count: int, bytes: seq<byte>, rest: seq<Item>)

  function Take(items: seq<Item>, n: nat, got: seq<byte>): (t: Taken)
    ensures t.count == -1 || t.count == |t.bytes| <= |got| + n
    ensures |t.rest| <= |items| && (t.count >= 0 ==> t.count - |got| <= |items| - |t.rest|)
  {
    if n == 0 || items == [] then Taken(|got|, got, items)
    else match items[0]
      case Byte(b) => Take(items[1..], n - 1, got + [b])
      case Eof => Taken(|got|, got, items[1..])
      case Error => Taken(-1, got, items[1..])
  }

  lemma {:induction false} TakeBytes(bytes: seq<byte>, rest: seq<Item>, n: nat, got: seq<byte>)
    requires |bytes| <= n
    ensures Take(Items(bytes) + rest, n, got) == Take(rest, n - |bytes|, got + bytes)
  {
    if bytes == [] {
      assert Items(bytes) + rest == rest && got + bytes == got;
    } else {
      assert (Items(bytes) + rest)[1..] == Items(bytes[1..]) + rest;
      assert got + [bytes[0]] + bytes[1..] == got + bytes;
      TakeBytes(bytes[1..], rest, n - 1, got + [bytes[0]]);
    }
  }

  method Copy(buf: array<byte>, at: nat, bytes: seq<byte>)
    requires at + |bytes| <= buf.Length
    modifies buf
    ensures buf[..at + |bytes|] == old(buf[..at]) + bytes
  {
    forall k | 0 <= k < |bytes| {
      buf[at + k] := bytes[k];
    }
  }

  lemma {:induction false} TakeStop(stop: Item, rest: seq<Item>, n: nat, got: seq<byte>)
    requires n > 0 && !stop.Byte?
    ensures Take([stop] + rest, n, got) == Taken(if stop.Eof? then |got| else -1, got, rest)
  {
  }

  /** One call of read() for the rest of what readn was asked for. */
  method ReadSome(fd: Descriptor, buf: array<byte>, ptr: nat, nleft: nat, ghost got: seq<byte>) returns (r: ReadResult)
    requires nleft > 0 && ptr + nleft <= buf.Length
    modifies fd, buf
    ensures buf[..ptr] == old(buf[..ptr])
    ensures r.EndOfFile? || Weight(fd.events) < old(Weight(fd.events))
    ensures var t := Take(old(Pending(fd.events)), nleft, got);
            var left := Pending(fd.events);
            match r
            case Failed => t.count == -1 && t.rest == left
            case Interrupted => left == old(Pending(fd.events))
            case EndOfFile => t == Taken(|got|, got, left)
            case Bytes(bytes) =>
              0 < |bytes| <= nleft && buf[..ptr + |bytes|] == old(buf[..ptr]) + bytes
              && t == Take(left, nleft - |bytes|, got + bytes)
  {
    r := fd.Read(nleft);
    ghost var left := Pending(fd.events);
    match r {
      case Failed =>
        TakeStop(Error, left, nleft, got);
      case Interrupted =>
      case EndOfFile =>
        TakeStop(Eof, left, nleft, got);
      case Bytes(bytes) =>
        TakeBytes(bytes, left, nleft, got);
        Copy(buf, ptr, bytes);
        assert buf[..ptr] == buf[..ptr + |bytes|][..ptr];
    }
  }

  /** readn: fills `buf` from `at` on with n bytes, or fewer at the end of file. */
  method ReadN(fd: Descriptor, buf: array<byte>, at: nat, n: nat) returns (count: int)
    requires at + n <= buf.Length
    modifies fd, buf
    ensures var t := Take(old(Pending(fd.events)), n, []);
            && count == t.count <= n && Pending(fd.events) == t.rest
            && (count >= 0 ==> buf[..at + count] == old(buf[..at]) + t.bytes)
  {
    ghost var start, got := buf[..at], [];
    ghost var goal := Take(Pending(fd.events), n, got);
    var nleft, ptr := n, at;
    while nleft > 0
      invariant 0 <= nleft <= n && ptr == at + (n - nleft) && |got| == n - nleft
      invariant buf[..ptr] == start + got
      invariant goal == Take(Pending(fd.events), nleft, got)
      decreases Weight(fd.events), nleft
    {
      var r := ReadSome(fd, buf, ptr, nleft, got);
      match r {
        case Failed =>
          return -1;
        case Interrupted =>
        case EndOfFile =>
          return n - nleft;
        case Bytes(bytes) =>
          Sequences.AppendAssociates(start, got, bytes);
          got := got + bytes;
          nleft := nleft - |bytes|;
          ptr := ptr + |bytes|;
      }
    }
    count := n - nleft;
  }

  /** When only bytes are pending and enough of them, exactly n are read. */
  lemma {:induction false} TakePlain(bytes: seq<byte>, rest: seq<Item>)
    ensures Take(Items(bytes) + rest, |bytes|, []) == Taken(|bytes|, bytes, rest)
  {
    TakeBytes(bytes, rest, |bytes|, []);
    assert [] + bytes == bytes;
  }

  /** Where the first k things pending are bytes, and k is n or what comes next is no byte:
      these bytes are read, an end of file or an error is used up, and only an error is
      reported as -1. */
  lemma {:induction false} TakeMeans(items: seq<Item>, n: nat, k: nat)
    requires k <= n && k <= |items| && forall i | 0 <= i < k :: items[i].Byte?
    requires k == n || k == |items| || !items[k].Byte?
    ensures var t, stopped := Take(items, n, []), k < n && k < |items|;
            && |t.bytes| == k && (forall i | 0 <= i < k :: items[i] == Byte(t.bytes[i]))
            && t.count == (if stopped && items[k].Error? then -1 else k)
            && t.rest == (if stopped then items[k + 1..] else items[k..])
  {
    var bytes := seq(k, i requires 0 <= i < k => items[i].b);
    assert Items(bytes) + items[k..] == items && [] + bytes == bytes;
    TakeBytes(bytes, items[k..], n, []);
  }

  // ----- writen -----

  /** What one call of write() can meet: it takes some bytes, at least one, or none. */
  datatype Acceptance = Accept(atLeastOne: nat) | WriteInterrupt | WriteNothing | WriteFailure

  /** Short writes and interruptions only. */
  predicate Willing(script: seq<Acceptance>) {
    forall i | 0 <= i < |script| :: script[i].Accept? || script[i].WriteInterrupt?
  }

  /** How many of n bytes the next call takes. */
  function NextWrite(script: seq<Acceptance>, n: nat): (k: nat)
    ensures k <= n
  {
    if script == [] || n == 0 then n
    else match script[0]
      case Accept(k) => if k == 0 then 1 else if k > n then n else k
      case _ => 0
  }

  /** How many of n bytes calls in a row take when only an interruption is forgiven. */
  function Allowed(script: seq<Acceptance>, n: nat): (k: nat)
    ensures k <= n
  {
    if script == [] || n == 0 then n
    else match script[0]
      case Accept(_) => NextWrite(script, n) + Allowed(script[1..], n - NextWrite(script, n))
      case WriteInterrupt => Allowed(script[1..], n)
      case _ => 0
  }

  /** The most that a call takes, and a part of a script. */
  function Most(a: Acceptance): nat {
    match a
    case Accept(k) => if k == 0 then 1 else k
    case _ => 0
  }

  function Capacity(script: seq<Acceptance>): nat {
    if script == [] then 0 else Capacity(script[..|script| - 1]) + Most(script[|script| - 1])
  }

  lemma {:induction false} CapacityFront(script: seq<Acceptance>)
    requires script != []
    ensures Capacity(script) == Capacity([script[0]]) + Capacity(script[1..])
  {
    var init := script[..|script| - 1];
    if init == [] {
      assert script == [script[0]];
    } else {
      CapacityFront(init);
      assert init[1..] == script[1..][..|script| - 2] && init[0] == script[0];
    }
  }

  /** Every refusal comes behind enough acceptances. */
  predicate EnoughBefore(script: seq<Acceptance>, n: nat) {
    forall i | 0 <= i < |script| && (script[i].WriteNothing? || script[i].WriteFailure?) :: Capacity(script[..i]) >= n
  }

  lemma {:induction false} EnoughBehind(script: seq<Acceptance>, n: nat)
    requires script != [] && n > 0
    ensures EnoughBefore(script, n) <==>
            (script[0].Accept? || script[0].WriteInterrupt?)
            && EnoughBefore(script[1..], n - NextWrite([script[0]], n))
  {
    var rest, took := script[1..], NextWrite([script[0]], n);
    assert [script[0]][..0] == [] && script[..0] == [];
    forall i | 0 <= i < |rest| ensures Capacity(script[..i + 1]) == Capacity([script[0]]) + Capacity(rest[..i]) {
      CapacityFront(script[..i + 1]);
      assert script[..i + 1][1..] == rest[..i];
    }
    if EnoughBefore(script, n) {
      forall i | 0 <= i < |rest| && (rest[i].WriteNothing? || rest[i].WriteFailure?)
        ensures Capacity(rest[..i]) >= n - took
      {
        assert rest[i] == script[i + 1];
      }
    }
    if (script[0].Accept? || script[0].WriteInterrupt?) && EnoughBefore(rest, n - took) {
      forall i | 0 <= i < |script| && (script[i].WriteNothing? || script[i].WriteFailure?)
        ensures Capacity(script[..i]) >= n
      {
        assert rest[i - 1] == script[i] && script[..i] == script[..(i - 1) + 1];
      }
    }
  }

  /** All bytes are written exactly if the script takes enough before it refuses any. */
  lemma {:induction false} AllWritten(script: seq<Acceptance>, n: nat)
    ensures Allowed(script, n) == n <==> EnoughBefore(script, n)
  {
    if script != [] && n > 0 {
      EnoughBehind(script, n);
      AllWritten(script[1..], n - NextWrite([script[0]], n));
    }
  }

  class Output {
    var script: seq<Acceptance>
    var written: seq<byte>

    constructor (script: seq<Acceptance>)
      ensures this.script == script && written == []
    {
      this.script := script;
      written := [];
    }

    /** Appends a prefix of the bytes; everything once the script is over. */
    method Write(bytes: seq<byte>) returns (n: int, interrupted: bool)
      requires bytes != []
      modifies this
      ensures written == old(written) + bytes[..NextWrite(old(script), |bytes|)]
      ensures NextWrite(old(script), |bytes|) == if n > 0 then n else 0
      ensures script == if old(script) == [] then [] else old(script)[1..]
      ensures old(script) == [] || old(script)[0].Accept? <==> n > 0
      ensures n == -1 || n >= 0
      ensures interrupted <==> old(script) != [] && old(script)[0].WriteInterrupt?
      ensures interrupted ==> n < 0
    {
      interrupted := false;
      if script == [] {
        written := written + bytes;
        assert bytes[..|bytes|] == bytes;
        return |bytes|, false;
      }
      match script[0]
      case Accept(k) =>
        n := if k == 0 then 1 else if k > |bytes| then |bytes| else k;
        written := written + bytes[..n];
        script := script[1..];
      case WriteInterrupt =>
        n, interrupted := -1, true;
        assert written + bytes[..0] == written;
        script := script[1..];
      case WriteNothing =>
        n := 0;
        assert written + bytes[..0] == written;
        script := script[1..];
      case WriteFailure =>
        n := -1;
        assert written + bytes[..0] == written;
        script := script[1..];
    }
  }

  /** writen: the bytes that can be written, once and in order; -1 where these are not all.
      Short and interrupted writes alone never make it fail. */
  method WriteN(fd: Output, bytes: seq<byte>) returns (rc: int)
    modifies fd
    ensures fd.written == old(fd.written) + bytes[..Allowed(old(fd.script), |bytes|)]
    ensures rc == if Allowed(old(fd.script), |bytes|) == |bytes| then |bytes| else -1
    ensures rc == |bytes| <==> EnoughBefore(old(fd.script), |bytes|)
    ensures Willing(old(fd.script)) ==> rc == |bytes|
  {
    ghost var start, script := fd.written, fd.script;
    AllWritten(script, |bytes|);
    var nleft, ptr := |bytes|, 0;
    assert start + bytes[..0] == start;
    while nleft > 0
      invariant 0 <= nleft <= |bytes| && ptr == |bytes| - nleft
      invariant fd.written == start + bytes[..ptr]
      invariant Allowed(script, |bytes|) == ptr + Allowed(fd.script, nleft)
      decreases nleft, |fd.script|
    {
      var n, interrupted := fd.Write(bytes[ptr..]);
      if n <= 0 {
        if interrupted {
          n := 0;
        } else {
          assert start + bytes[..ptr] + bytes[ptr..][..0] == start + bytes[..ptr];
          return -1;
        }
      }
      assert start + bytes[..ptr] + bytes[ptr..][..n] == start + bytes[..ptr + n];
      nleft := nleft - n;
      ptr := ptr + n;
    }
    assert bytes[..ptr] == bytes;
    rc := |bytes|;
  }
}
