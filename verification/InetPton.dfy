/** inet_pton: text to address, as in libfree/inet_pton.c. */
module InetPton {
  import opened Families
  import opened Integers
  import Sequences
  import opened Wrappers
  import opened AddressText

  /** The characters of a C string stand before its NUL. */
  predicate CString(s: string) {
    forall i | 0 <= i < |s| :: s[i] != '\0'
  }

  lemma {:induction false} ValuePush(s: string, c: char, radix: Radix)
    requires IsNumeral(s, radix) && IsDigit(c, radix)
    ensures IsNumeral(s + [c], radix) && Value(s + [c], radix) == Shifted(Value(s, radix), radix) + DigitOf(c)
  {
    assert (s + [c])[..|s|] == s;
  }

  /** -1 for an unknown family, 1 for a valid text, 0 otherwise; `dst` keeps its
      content unless the result is 1. */
  method Pton(af: Family, src: string, dst: array<byte>) returns (rc: int)
    requires CString(src)
    requires dst.Length == match af case Inet => 4 case Inet6 => 16 case Other(_) => dst.Length
    modifies dst
    ensures rc == match af
                  case Inet => if ParseQuad(src).Some? then 1 else 0
                  case Inet6 => if ParseText(src).Some? then 1 else 0
                  case Other(_) => -1
    ensures rc == 1 && af.Inet? ==> dst[..] == ParseQuad(src).value
    ensures rc == 1 && af.Inet6? ==> dst[..] == ParseText(src).value
    ensures rc != 1 ==> dst[..] == old(dst[..])
  {
    match af
    case Inet =>
      var ok := Pton4(src, dst, 0);
      assert ok ==> dst[0..4] == dst[..];
      rc := if ok then 1 else 0;
    case Inet6 =>
      var ok := Pton6(src, dst);
      rc := if ok then 1 else 0;
    case Other(_) =>
      rc := -1;
  }

  lemma {:induction false} TailStep(s: string, i: nat)
    requires i < |s|
    ensures s[i..] != [] && s[i..][0] == s[i] && s[i..][1..] == s[i + 1..]
  {
  }

  /** The loop of inet_pton4 over the octets, in an array of its own. */
  method ScanOctets(src: string, tmp: array<byte>) returns (ok: bool)
    requires CString(src) && tmp.Length == 4
    modifies tmp
    ensures ok == ParseQuad(src).Some? && (ok ==> tmp[..] == ParseQuad(src).value)
  {
    var tp := 0;
    tmp[tp] := 0;
    var sawDigit, octets, i := false, 0, 0;
    ghost var rest, done, cur := src, [], "";
    while i < |src|
      invariant 0 <= i <= |src| && 0 <= tp <= 3
      invariant rest == src[i..] && done == tmp[..tp]
      invariant IsNumeral(cur, 10) && Value(cur, 10) == tmp[tp]
      invariant sawDigit == (cur != []) && octets == (if sawDigit then tp + 1 else tp)
      invariant ParseQuad(src) == ScanQuad(rest, done, cur)
    {
      var ch := src[i];
      TailStep(src, i);
      i := i + 1;
      rest := rest[1..];
      if IsDigit(ch, 10) {
        ValuePush(cur, ch, 10);
        var new' := tmp[tp] * 10 + DigitOf(ch);
        if new' > 255 {
          return false;
        }
        tmp[tp] := new';
        cur := cur + [ch];
        if !sawDigit {
          octets := octets + 1;
          if octets > 4 {
            return false;
          }
          sawDigit := true;
        }
      } else if ch == '.' && sawDigit {
        if octets == 4 {
          return false;
        }
        done := done + [Octet(Value(cur, 10))];
        tp := tp + 1;
        tmp[tp] := 0;
        sawDigit := false;
        cur := "";
      } else {
        return false;
      }
    }
    if octets < 4 {
      return false;
    }
    assert tmp[..] == done + [Octet(Value(cur, 10))];
    ok := true;
  }

  /** Stores the four bytes of a dotted quad at `at`. */
  method Pton4(src: string, dst: array<byte>, at: nat) returns (ok: bool)
    requires CString(src) && at + 4 <= dst.Length
    modifies dst
    ensures ok == ParseQuad(src).Some?
    ensures ok ==> |ParseQuad(src).value| == 4 && dst[at..at + 4] == ParseQuad(src).value
    ensures forall k | 0 <= k < dst.Length && !(ok && at <= k < at + 4) :: dst[k] == old(dst[k])
  {
    var tmp := new byte[4];
    ok := ScanOctets(src, tmp);
    if ok {
      forall k | 0 <= k < 4 {
        dst[at + k] := tmp[k];
      }
      assert dst[at..at + 4] == tmp[..];
    }
  }

  function Place(colonp: int): Option<nat>
    requires colonp >= -1
  {
    if colonp == -1 then None else Some(colonp)
  }

  /** Stores the 16 bytes of an IPv6 text. */
  method Pton6(src: string, dst: array<byte>) returns (ok: bool)
    requires CString(src) && dst.Length == 16
    modifies dst
    ensures ok == ParseText(src).Some?
    ensures ok ==> dst[..] == ParseText(src).value
    ensures !ok ==> dst[..] == old(dst[..])
  {
    var tmp := new byte[16](_ => 0);
    var start := 0;
    // Of a leading :: the first colon is skipped.
    if |src| > 0 && src[0] == ':' {
      start := 1;
      if !(start < |src| && src[start] == ':') {
        return false;
      }
    }
    assert start == 0 ==> src[start..] == src;
    var scanned, tp, colonp := ScanGroups(src, start, tmp);
    if !scanned {
      return false;
    }
    if colonp != -1 {
      ShiftTail(tmp, colonp, tp);
      tp := 16;
    }
    if tp != 16 {
      return false;
    }
    assert tmp[..16] == tmp[..];
    forall k | 0 <= k < 16 {
      dst[k] := tmp[k];
    }
    assert dst[..] == tmp[..];
    ok := true;
  }

  /** The digit loop of inet_pton6 and the group it leaves pending: fills `tmp` up to
      `tp` and notes in `colonp` how many bytes preceded `::` (-1 for none). */
  method ScanGroups(src: string, start: nat, tmp: array<byte>) returns (ok: bool, tp: nat, colonp: int)
    requires CString(src) && start <= |src|
    requires tmp.Length == 16 && forall k | 0 <= k < 16 :: tmp[k] == 0
    modifies tmp
    ensures ok ==> -1 <= colonp <= tp <= 16 && forall k | tp <= k < 16 :: tmp[k] == 0
    ensures Scan(src[start..], [], None, []) == if ok then Some(Scanned(tmp[..tp], Place(colonp))) else None
  {
    ghost var text := src[start..];
    ghost var rest, out, tok := text, [], "";
    var endp := 16;
    var i := start;
    var curtok, sawXdigit, val := i, false, 0;
    ok, tp, colonp := true, 0, -1;
    while i < |src|
      invariant 0 <= curtok <= i <= |src| && -1 <= colonp <= tp <= endp
      invariant forall k | tp <= k < 16 :: tmp[k] == 0
      invariant rest == src[i..] && tok + rest == src[curtok..] && out == tmp[..tp]
      invariant sawXdigit == (tok != [])
      invariant IsNumeral(tok, 16) && Value(tok, 16) == val <= 0xffff
      invariant Scan(text, [], None, []) == Scan(rest, out, Place(colonp), tok)
    {
      var ch := src[i];
      TailStep(src, i);
      i := i + 1;
      if IsDigit(ch, 16) {
        ValuePush(tok, ch, 16);
        val := val * 16 + DigitOf(ch);
        if val > 0xffff {
          return false, tp, colonp;
        }
        Sequences.AppendHead(tok, rest);
        tok := tok + [ch];
        sawXdigit := true;
      } else if ch == ':' {
        curtok := i;
        if !sawXdigit {
          if colonp != -1 {
            return false, tp, colonp;
          }
          colonp := tp;
        } else {
          if tp + 2 > endp {
            return false, tp, colonp;
          }
          tp := Store(tmp, tp, val);
          out, tok := out + WordBytes(val), "";
          sawXdigit := false;
          val := 0;
        }
      } else if ch == '.' && tp + 4 <= endp {
        var quad := Pton4(src[curtok..], tmp, tp);
        if quad {
          assert tmp[..tp + 4] == out + tmp[tp..tp + 4];
          return true, tp + 4, colonp;
        }
        return false, tp, colonp;
      } else {
        return false, tp, colonp;
      }
      rest := rest[1..];
    }
    if sawXdigit {
      if tp + 2 > endp {
        return false, tp, colonp;
      }
      tp := Store(tmp, tp, val);
    }
  }

  /** Appends a 16-bit group to the bytes stored so far. */
  method Store(tmp: array<byte>, tp: nat, val: nat) returns (tp': nat)
    requires tmp.Length == 16 && tp + 2 <= 16 && val <= 0xffff
    modifies tmp
    ensures tp' == tp + 2 && tmp[..tp'] == old(tmp[..tp]) + WordBytes(val)
    ensures forall k | tp' <= k < 16 :: tmp[k] == old(tmp[k])
  {
    tmp[tp] := val / 256;
    tmp[tp + 1] := val % 256;
    tp' := tp + 2;
  }

  /** Moves the bytes behind `::` to the end, in place: source and target overlap
      when fewer bytes are missing than are moved. */
  method ShiftTail(tmp: array<byte>, colonp: nat, tp: nat)
    requires tmp.Length == 16 && colonp <= tp <= 16
    requires forall k | tp <= k < 16 :: tmp[k] == 0
    modifies tmp
    ensures Some(tmp[..]) == Expand(Scanned(old(tmp[..tp]), Some(colonp)))
  {
    ghost var was := tmp[..tp];
    var n := tp - colonp;
    var i := 1;
    while i <= n
      invariant 1 <= i <= n + 1
      invariant forall k | 0 <= k <= tp - i :: tmp[k] == was[k]
      invariant forall k | tp - i < k <= 16 - i :: tmp[k] == 0
      invariant forall k | 16 - i < k < 16 :: tmp[k] == if tp == 16 then 0 else was[k - 16 + tp]
    {
      tmp[16 - i] := tmp[colonp + n - i];
      tmp[colonp + n - i] := 0;
      i := i + 1;
    }
    Shifted16(tmp[..], was, colonp);
  }

  lemma {:induction false} Shifted16(now: seq<byte>, was: seq<byte>, colonp: nat)
    requires colonp <= |was| <= 16 && |now| == 16
    requires forall k | 0 <= k < colonp :: now[k] == was[k]
    requires forall k | colonp <= k < 16 - (|was| - colonp) :: now[k] == 0
    requires forall k | 16 - (|was| - colonp) <= k < 16 :: now[k] == if |was| == 16 then 0 else was[k - 16 + |was|]
    ensures Some(now) == Expand(Scanned(was, Some(colonp)))
  {
    if |was| == 16 {
      assert now == was[..colonp] + Zeros(16 - colonp);
    } else {
      assert now == was[..colonp] + Zeros(16 - |was|) + was[colonp..];
    }
  }
}
