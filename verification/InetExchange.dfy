/** inet_ntop and inet_pton together: what one prints into a buffer the other reads back. */
module InetExchange {
  import opened Families
  import opened Integers
  import opened AddressText
  import AddressPrinting
  import AddressFormatting
  import InetNtop
  import InetPton

  // ----- No accepted text holds a NUL -----

  lemma {:induction false} QuadHasNoNul(text: string, done: seq<byte>, cur: string)
    requires ScanQuad(text, done, cur).Some?
    ensures InetPton.CString(text)
    decreases |text|
  {
    if text != [] {
      assert text == [text[0]] + text[1..];
      if IsDigit(text[0], 10) {
        QuadHasNoNul(text[1..], done, cur + [text[0]]);
      } else {
        QuadHasNoNul(text[1..], done + [Octet(Value(cur, 10))], []);
      }
    }
  }

  lemma {:induction false} ScanHasNoNul(text: string, out: seq<byte>, tok: string)
    requires exists colon :: Scan(text, out, colon, tok).Some?
    ensures InetPton.CString(text)
    decreases |text|
  {
    var colon :| Scan(text, out, colon, tok).Some?;
    if text != [] {
      assert text == [text[0]] + text[1..];
      if IsDigit(text[0], 16) {
        ScanHasNoNul(text[1..], out, tok + [text[0]]);
      } else if text[0] == ':' && tok == [] {
        ScanHasNoNul(text[1..], out, []);
      } else if text[0] == ':' {
        ScanHasNoNul(text[1..], out + WordBytes(Value(tok, 16)), []);
      } else {
        QuadHasNoNul(tok + text, [], []);
        assert forall i | 0 <= i < |text| :: text[i] == (tok + text)[|tok| + i];
      }
    }
  }

  lemma {:induction false} AcceptedIsCString(src: string)
    requires ParseText(src).Some?
    ensures InetPton.CString(src)
  {
    if src != [] && src[0] == ':' {
      ScanHasNoNul(src[1..], [], []);
      assert src == [src[0]] + src[1..];
    } else {
      ScanHasNoNul(src, [], []);
    }
  }

  // ----- There and back -----

  /** strlen: the place of the NUL behind a text. */
  method Length(buffer: array<char>, ghost text: string) returns (n: nat)
    requires |text| < buffer.Length && buffer[..|text|] == text && buffer[|text|] == '\0' && InetPton.CString(text)
    ensures n == |text|
  {
    assert forall k | 0 <= k < |text| :: buffer[k] == buffer[..|text|][k];
    n := 0;
    while buffer[n] != '\0'
      invariant n <= |text|
      decreases |text| - n
    {
      n := n + 1;
    }
  }

  /** What any buffer for 46 characters is good for (INET6_ADDRSTRLEN). */
  lemma {:induction false} Fits46(src: seq<byte>)
    ensures |src| == 4 ==> |AddressPrinting.PrintQuad(src)| < 46
    ensures |src| == 16 ==> |AddressPrinting.Print(src)| < 46
  {
    if |src| == 4 {
      AddressFormatting.QuadLength(src);
    } else if |src| == 16 {
      AddressFormatting.PrintLength(src);
    }
  }

  /** An address of either family comes back as it was. */
  method PrintAndParse(af: Family, src: seq<byte>, buffer: array<char>) returns (dst: array<byte>)
    requires !af.Other? && |src| == (if af.Inet? then 4 else 16) && buffer.Length >= 46
    modifies buffer
    ensures fresh(dst) && dst[..] == src
  {
    ghost var text := if af.Inet? then AddressPrinting.PrintQuad(src) else AddressPrinting.Print(src);
    Fits46(src);
    var ok;
    ghost var touched;
    ok, touched := InetNtop.Ntop(af, src, buffer, 46);
    if af.Inet? {
      AddressPrinting.QuadRoundTrip(src);
      QuadHasNoNul(text, [], []);
    } else {
      AddressPrinting.RoundTrip(src);
      AcceptedIsCString(text);
    }
    var n := Length(buffer, text);
    dst := new byte[|src|](_ => 0);
    var rc := InetPton.Pton(af, buffer[..n], dst);
  }
}
