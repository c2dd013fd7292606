/** inet_ntop: address to text, as in libfree/inet_ntop.c. */
module InetNtop {
  import opened Families
  import opened Integers
  import AddressText
  import opened AddressPrinting
  import opened AddressFormatting

  /** Copies a C string and its NUL to `buf` at `at`, as sprintf and strcpy do. */
  method Put(buf: array<char>, at: nat, s: string) returns (end: nat)
    requires at + |s| < buf.Length
    modifies buf
    ensures end == at + |s| && buf[..end] == old(buf[..at]) + s && buf[end] == '\0'
    ensures forall k | end < k < buf.Length :: buf[k] == old(buf[k])
  {
    forall k | 0 <= k < |s| {
      buf[at + k] := s[k];
    }
    end := at + |s|;
    buf[end] := '\0';
  }

  /** False is NULL: an unknown family, or a buffer that is too small. `size` is what the
      caller says of the buffer; `touched` is how much of it is written. It is more than
      the caller allowed for just one size, that of an IPv4 text without its NUL, for
      which there has to be memory behind the buffer. */
  method Ntop(af: Family, src: seq<byte>, dst: array<char>, size: nat) returns (ok: bool, ghost touched: nat)
    requires |src| == match af case Inet => 4 case Inet6 => 16 case Other(_) => |src|
    requires dst.Length >= size && (af.Inet? && size == |PrintQuad(src)| ==> dst.Length > size)
    modifies dst
    ensures ok == match af
                  case Inet => |PrintQuad(src)| <= size
                  case Inet6 => |Print(src)| < size
                  case Other(_) => false
    ensures ok ==> var text := if af.Inet? then PrintQuad(src) else Print(src);
                   touched == |text| + 1 && dst[..|text|] == text && dst[|text|] == '\0'
    ensures !ok ==> touched == 0
    ensures forall k | touched <= k < dst.Length :: dst[k] == old(dst[k])
    ensures touched <= size <==> !(af.Inet? && size == |PrintQuad(src)|)
  {
    match af
    case Inet =>
      ok, touched := Ntop4(src, dst, 0, size);
      assert ok ==> dst[..|PrintQuad(src)|] == PrintQuad(src);
    case Inet6 =>
      ok := Ntop6(src, dst, size);
      touched := if ok then |Print(src)| + 1 else 0;
    case Other(_) =>
      ok, touched := false, 0;
  }

  /** How many characters inet_ntop4 writes into a buffer of the given size. */
  function Touched4(src: seq<byte>, size: nat): nat {
    if |PrintQuad(src)| > size then 0 else |PrintQuad(src)| + 1
  }

  /** The quad and its NUL at `at` of a buffer with `size` characters left there. The
      test of the size forgets the NUL. */
  method Ntop4(src: seq<byte>, dst: array<char>, at: nat, size: nat) returns (ok: bool, ghost touched: nat)
    requires |src| == 4 && dst.Length >= at + size && (size == |PrintQuad(src)| ==> dst.Length > at + size)
    modifies dst
    ensures ok == (|PrintQuad(src)| <= size) && touched == Touched4(src, size)
    ensures touched <= size <==> size != |PrintQuad(src)|
    ensures ok ==> var end := at + |PrintQuad(src)|;
                   dst[..end] == old(dst[..at]) + PrintQuad(src) && dst[end] == '\0'
    ensures !ok ==> dst[..at] == old(dst[..at])
    ensures forall k | at + touched <= k < dst.Length :: dst[k] == old(dst[k])
  {
    var text := PrintQuad(src);
    touched := 0;
    if |text| > size {
      return false, touched;
    }
    var end := Put(dst, at, text);
    ok, touched := true, |text| + 1;
  }

  lemma {:induction false} ZeroQuad(n: nat)
    requires n > 0
    ensures PrintQuad(seq(n, _ => 0)) == if n == 1 then "0" else "0." + PrintQuad(seq(n - 1, _ => 0))
  {
    var z: seq<byte> := seq(n, _ => 0);
    assert z[1..] == seq(n - 1, _ => 0);
    assert DecOctets(z)[1..] == DecOctets(z[1..]);
  }

  /** 0.0.0.0 is written into a buffer for seven characters, and takes eight. */
  lemma {:induction false} QuadOverruns()
    ensures |PrintQuad(seq(4, _ => 0))| == 7 && Touched4(seq(4, _ => 0), 7) == 8
  {
    ZeroQuad(4);
    ZeroQuad(3);
    ZeroQuad(2);
    ZeroQuad(1);
  }

  /** The eight words of an address. */
  method CopyWords(src: seq<byte>) returns (words: array<nat>)
    requires |src| == 16
    ensures fresh(words) && words[..] == Words(src)
  {
    words := new nat[8](_ => 0);
    for i := 0 to 16
      invariant forall k | 0 <= k < 8 ::
                  words[k] == if 2 * k + 1 < i then Words(src)[k]
                              else if 2 * k + 1 == i then src[2 * k] as nat * 256 else 0
    {
      words[i / 2] := words[i / 2] + (if i % 2 == 0 then src[i] as nat * 256 else src[i] as nat);
    }
  }

  /** Among the runs that end at or before `limit`, `r` is the leftmost longest. */
  ghost predicate LeftmostLongest(w: seq<nat>, limit: nat, r: Run) {
    match r
    case NoRun => forall lo, hi | IsRun(w, lo, hi) && hi <= limit :: lo == hi
    case Run(base, len) =>
      && len > 0 && base + len <= limit && IsRun(w, base, base + len)
      && forall lo, hi | IsRun(w, lo, hi) && hi <= limit :: hi - lo <= len && (hi - lo == len ==> base <= lo)
  }

  function Better(cur: Run, best: Run): Run
    requires cur.Run?
  {
    if best.NoRun? || cur.len > best.len then cur else best
  }

  lemma {:induction false} CloseRun(w: seq<nat>, cur: Run, best: Run)
    requires cur.Run? && cur.len > 0 && IsRun(w, cur.base, cur.base + cur.len)
    requires cur.base > 0 ==> w[cur.base - 1] != 0
    requires LeftmostLongest(w, cur.base, best)
    ensures LeftmostLongest(w, cur.base + cur.len, Better(cur, best))
  {
    forall lo, hi | IsRun(w, lo, hi) && cur.base < hi ensures cur.base <= lo {
    }
  }

  /** The leftmost longest run of zero words. */
  method FindRun(words: array<nat>) returns (best: Run)
    requires words.Length == 8
    ensures best == Best(words[..])
  {
    best := NoRun;
    var cur := NoRun;
    ghost var w := words[..];
    for i := 0 to 8
      invariant cur.NoRun? ==> (i == 0 || w[i - 1] != 0) && LeftmostLongest(w, i, best)
      invariant cur.Run? ==> cur.len > 0 && cur.base + cur.len == i && IsRun(w, cur.base, i)
                             && (cur.base == 0 || w[cur.base - 1] != 0) && LeftmostLongest(w, cur.base, best)
    {
      if words[i] == 0 {
        if cur.NoRun? {
          cur := Run(i, 1);
        } else {
          cur := cur.(len := cur.len + 1);
        }
      } else {
        if cur.Run? {
          CloseRun(w, cur, best);
          if best.NoRun? || cur.len > best.len {
            best := cur;
          }
          cur := NoRun;
        }
      }
    }
    if cur.Run? {
      CloseRun(w, cur, best);
      if best.NoRun? || cur.len > best.len {
        best := cur;
      }
    }
    assert LeftmostLongest(w, 8, best);
    if best.Run? && best.len < 2 {
      best := NoRun;
    }
    BestIsBest(w);
    assert IsBest(w, best);
  }

  /** A word behind an initial run of zeros or behind any real hexadecimal. */
  method PutWord(word: nat, i: nat, tmp: array<char>, tp: nat) returns (end: nat)
    requires word <= 0xffff && tp + 5 < tmp.Length
    modifies tmp
    ensures end <= tp + 5
    ensures tmp[..end] == old(tmp[..tp]) + ((if i != 0 then ":" else "") + AddressText.Numeral(word, 16))
  {
    end := tp;
    if i != 0 {
      end := Put(tmp, end, ":");
    }
    HexLength(word);
    end := Put(tmp, end, AddressText.Numeral(word, 16));
  }

  method PutMapped(quad: seq<byte>, tmp: array<char>, tp: nat) returns (end: nat)
    requires |quad| == 4 && tp + 17 <= tmp.Length
    modifies tmp
    ensures end <= tp + 16
    ensures tmp[..end] == old(tmp[..tp]) + ":" + PrintQuad(quad)
  {
    end := Put(tmp, tp, ":");
    QuadLength(quad);
    var ok;
    ghost var touched;
    ok, touched := Ntop4(quad, tmp, end, tmp.Length - end);
    end := end + |PrintQuad(quad)|;
  }

  /** The formatting loop; `tmp` ends up with the text, not yet terminated. */
  method Format(src: seq<byte>, words: seq<nat>, best: Run, tmp: array<char>) returns (tp: nat)
    requires |src| == 16 && words == Words(src) && tmp.Length == 46
    requires best.Run? ==> best.len > 0 && best.base + best.len <= 8
    modifies tmp
    ensures tp <= 45 && tmp[..tp] == Formatted(src, best)
  {
    tp := 0;
    var i := 0;
    while i < 8
      invariant 0 <= i <= 8 && tp <= 39 && tmp[..tp] == Written(words, best, i)
      invariant i > 6 ==> !IsMapped(words, best)
    {
      WrittenStep(words, best, i);
      WrittenLength(words, best, i + 1);
      if best.Run? && best.base <= i < best.base + best.len {
        // Inside the best run of zeros.
        if i == best.base {
          tp := Put(tmp, tp, ":");
        }
        assert Written(words, best, i) + "" == Written(words, best, i);
      } else if i == 6 && best.Run? && best.base == 0 && (best.len == 6 || (best.len == 5 && words[5] == 0xffff)) {
        // An encapsulated IPv4 address.
        tp := PutMapped(src[12..], tmp, tp);
        break;
      } else {
        tp := PutWord(words[i], i, tmp, tp);
      }
      i := i + 1;
    }
    // A trailing run of zeros.
    if best.Run? && best.base + best.len == 8 {
      tp := Put(tmp, tp, ":");
    }
  }

  method Ntop6(src: seq<byte>, dst: array<char>, size: nat) returns (ok: bool)
    requires |src| == 16 && dst.Length >= size
    modifies dst
    ensures ok == (|Print(src)| < size)
    ensures ok ==> dst[..|Print(src)|] == Print(src) && dst[|Print(src)|] == '\0'
    ensures forall k | 0 <= k < dst.Length && !(ok && k <= |Print(src)|) :: dst[k] == old(dst[k])
  {
    var tmp := new char[46];
    var words := CopyWords(src);
    var best := FindRun(words);
    BestIsBest(words[..]);
    var tp := Format(src, words[..], best, tmp);
    FormattedIsRendered(src, best);
    if tp + 1 > size {
      return false;
    }
    var end := Put(dst, 0, tmp[..tp]);
    assert dst[..end] == tmp[..tp];
    ok := true;
  }
}
