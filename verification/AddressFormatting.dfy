/** The formatting loop of inet_ntop6, word by word, prints the text of the grammar. */
module AddressFormatting {
  import opened Integers
  import opened AddressText
  import opened Sequences
  import opened AddressPrinting

  predicate InRun(r: Run, i: nat) {
    r.Run? && r.base <= i < r.base + r.len
  }

  /** What one pass of the loop appends for word `i`. */
  function Piece(w: seq<nat>, r: Run, i: nat): string
    requires i < |w|
  {
    if InRun(r, i) then if i == r.base then ":" else ""
    else (if i != 0 then ":" else "") + Numeral(w[i], 16)
  }

  function Written(w: seq<nat>, r: Run, i: nat): string
    requires i <= |w|
  {
    if i == 0 then "" else Written(w, r, i - 1) + Piece(w, r, i - 1)
  }

  lemma {:induction false} WrittenStep(w: seq<nat>, r: Run, i: nat)
    requires i < |w|
    ensures Written(w, r, i + 1) == Written(w, r, i) + Piece(w, r, i)
  {
  }

  /** The loop with its early exit for an embedded IPv4 address, and the colon of a
      run at the end. */
  function Formatted(a: seq<byte>, r: Run): string
    requires |a| == 16
  {
    var w := Words(a);
    if IsMapped(w, r) then Written(w, r, 6) + ":" + PrintQuad(a[12..])
    else if r.Run? && r.base + r.len == 8 then Written(w, r, 8) + ":"
    else Written(w, r, 8)
  }

  lemma {:induction false} GroupsTextPush(gs: seq<string>, g: string)
    ensures GroupsText(gs + [g]) == GroupsText(gs) + g + ":"
  {
    if gs == [] {
      assert gs + [g] == [g];
      assert [g][1..] == [];
    } else {
      assert (gs + [g])[1..] == gs[1..] + [g];
      GroupsTextPush(gs[1..], g);
      AppendAssociates(gs[0] + ":", GroupsText(gs[1..]), g);
      AppendAssociates(gs[0] + ":", GroupsText(gs[1..]) + g, ":");
    }
  }

  lemma {:induction false} HexGroupsPush(w: seq<nat>, v: nat)
    ensures HexGroups(w + [v]) == HexGroups(w) + [Numeral(v, 16)]
  {
    if w == [] {
      assert w + [v] == [v];
      assert [v][1..] == [];
    } else {
      assert (w + [v])[1..] == w[1..] + [v];
      HexGroupsPush(w[1..], v);
      AppendAssociates([Numeral(w[0], 16)], HexGroups(w[1..]), [Numeral(v, 16)]);
    }
  }

  function Colons(w: seq<nat>, lo: nat, hi: nat): string
    requires lo <= hi <= |w|
  {
    GroupsText(HexGroups(w[lo..hi]))
  }

  lemma {:induction false} ColonsPush(w: seq<nat>, lo: nat, i: nat)
    requires lo <= i < |w|
    ensures Colons(w, lo, i + 1) == Colons(w, lo, i) + Numeral(w[i], 16) + ":"
  {
    assert w[lo..i + 1] == w[lo..i] + [w[i]];
    HexGroupsPush(w[lo..i], w[i]);
    GroupsTextPush(HexGroups(w[lo..i]), Numeral(w[i], 16));
  }

  lemma {:induction false} BeforeRun(w: seq<nat>, r: Run, i: nat)
    requires 0 < i <= |w| && (r.Run? ==> i <= r.base)
    ensures Written(w, r, i) + ":" == Colons(w, 0, i)
  {
    ColonsPush(w, 0, i - 1);
    if i == 1 {
      assert w[0..0] == [];
      assert Written(w, r, 1) == "" + ("" + Numeral(w[0], 16));
    } else {
      BeforeRun(w, r, i - 1);
      AppendAssociates(Written(w, r, i - 1), ":", Numeral(w[i - 1], 16));
    }
  }

  lemma {:induction false} InsideRun(w: seq<nat>, r: Run, i: nat)
    requires r.Run? && r.base < i <= r.base + r.len <= |w|
    ensures Written(w, r, i) == GapPrefix(HexGroups(w[..r.base]))
  {
    if i == r.base + 1 {
      assert w[0..r.base] == w[..r.base];
      if r.base > 0 {
        BeforeRun(w, r, r.base);
      }
    } else {
      InsideRun(w, r, i - 1);
    }
  }

  lemma {:induction false} PushWord(a: string, p: string, c: string, n: string)
    requires a + ":" == p + c
    ensures a + (":" + n) + ":" == p + (c + n + ":")
  {
    AppendAssociates(a, ":", n);
    AppendAssociates(p, c, n);
    AppendAssociates(p, c + n, ":");
  }

  lemma {:induction false} AtRunEnd(w: seq<nat>, r: Run)
    requires r.Run? && r.len > 0 && r.base + r.len <= |w|
    ensures var lo := r.base + r.len;
            Written(w, r, lo) + ":" == GapPrefix(HexGroups(w[..r.base])) + ":" + Colons(w, lo, lo)
  {
    InsideRun(w, r, r.base + r.len);
  }

  lemma {:induction false} WordsBehind(w: seq<nat>, r: Run, p: string, lo: nat, i: nat) returns (a: string, c: string)
    requires r.Run? && 0 < r.base + r.len == lo <= i <= |w|
    requires Written(w, r, lo) + ":" == p + Colons(w, lo, lo)
    ensures a == Written(w, r, i) && c == Colons(w, lo, i) && a + ":" == p + c
    decreases i
  {
    if i == lo {
      a, c := Written(w, r, lo), Colons(w, lo, lo);
    } else {
      a, c := WordsBehind(w, r, p, lo, i - 1);
      var n := Numeral(w[i - 1], 16);
      WrittenStep(w, r, i - 1);
      ColonsPush(w, lo, i - 1);
      PushWord(a, p, c, n);
      a, c := a + (":" + n), c + n + ":";
    }
  }

  lemma {:induction false} BehindRun(w: seq<nat>, r: Run, i: nat) returns (p: string)
    requires r.Run? && r.len > 0 && r.base + r.len <= i <= |w|
    ensures p == GapPrefix(HexGroups(w[..r.base])) + ":"
    ensures Written(w, r, i) + ":" == p + Colons(w, r.base + r.len, i)
  {
    p := GapPrefix(HexGroups(w[..r.base])) + ":";
    AtRunEnd(w, r);
    var a, c := WordsBehind(w, r, p, r.base + r.len, i);
  }

  /** The last word of eight, with nothing behind it. */
  lemma {:induction false} LastWord(w: seq<nat>, r: Run)
    requires |w| == 8 && !InRun(r, 7)
    ensures Written(w, r, 8) == Written(w, r, 7) + ":" + Numeral(w[7], 16)
  {
    AppendAssociates(Written(w, r, 7), ":", Numeral(w[7], 16));
  }

  lemma {:induction false} WordsBodyText(w: seq<nat>, lo: nat)
    requires |w| == 8 && lo < 8
    ensures BodyText(WordsBody(w[lo..])) == Colons(w, lo, 7) + Numeral(w[7], 16)
  {
    assert w[lo..][..7 - lo] == w[lo..7];
  }

  lemma {:induction false} PlainFormatted(a: seq<byte>)
    requires |a| == 16
    ensures Formatted(a, NoRun) == Render(TextOf(a, NoRun))
  {
    var w := Words(a);
    LastWord(w, NoRun);
    BeforeRun(w, NoRun, 7);
    WordsBodyText(w, 0);
    assert w[0..] == w;
  }

  lemma {:induction false} MappedFormatted(a: seq<byte>, r: Run)
    requires |a| == 16 && IsMapped(Words(a), r)
    ensures Formatted(a, r) == Render(TextOf(a, r))
  {
    var w := Words(a);
    var p := BehindRun(w, r, 6);
    assert w[..r.base] == [];
    AppendAssociates(p, Colons(w, r.len, 6), PrintQuad(a[12..]));
  }

  lemma {:induction false} GapFormatted(a: seq<byte>, r: Run)
    requires |a| == 16 && r.Run? && r.len > 0 && r.base + r.len < 8 && !IsMapped(Words(a), r)
    ensures Formatted(a, r) == Render(TextOf(a, r))
  {
    var w := Words(a);
    LastWord(w, r);
    var p := BehindRun(w, r, 7);
    WordsBodyText(w, r.base + r.len);
    AppendAssociates(p, Colons(w, r.base + r.len, 7), Numeral(w[7], 16));
  }

  lemma {:induction false} TrailingGapFormatted(a: seq<byte>, r: Run)
    requires |a| == 16 && r.Run? && r.len > 0 && r.base + r.len == 8 && !IsMapped(Words(a), r)
    ensures Formatted(a, r) == Render(TextOf(a, r))
  {
    var w := Words(a);
    InsideRun(w, r, 8);
    assert w[8..] == [];
    var p := GapPrefix(HexGroups(w[..r.base])) + ":";
    assert p + "" == p;
  }

  /** The loop prints the text that compresses the given run. */
  lemma {:induction false} FormattedIsRendered(a: seq<byte>, r: Run)
    requires |a| == 16 && (r.Run? ==> r.len > 0 && r.base + r.len <= 8)
    ensures Formatted(a, r) == Render(TextOf(a, r))
  {
    if r.NoRun? {
      PlainFormatted(a);
    } else if IsMapped(Words(a), r) {
      MappedFormatted(a, r);
    } else if r.base + r.len == 8 {
      TrailingGapFormatted(a, r);
    } else {
      GapFormatted(a, r);
    }
  }

  // ----- Lengths -----

  lemma {:induction false} HexLength(v: nat)
    requires v <= 0xffff
    ensures 1 <= |Numeral(v, 16)| <= 4
  {
    assert |Numeral(v / 4096, 16)| == 1;
    assert 1 <= |Numeral(v / 256, 16)| <= 2 by {
      assert v / 256 / 16 == v / 4096;
    }
    assert 1 <= |Numeral(v / 16, 16)| <= 3 by {
      assert v / 16 / 16 == v / 256;
    }
  }

  lemma {:induction false} QuadLength(b: seq<byte>)
    requires b != []
    ensures 2 * |b| - 1 <= |PrintQuad(b)| <= 4 * |b| - 1
  {
    DecLength(b[0]);
    if |b| > 1 {
      QuadLength(b[1..]);
      assert DecOctets(b)[1..] == DecOctets(b[1..]);
    }
  }

  lemma {:induction false} DecLength(v: nat)
    requires v <= 255
    ensures 1 <= |Numeral(v, 10)| <= 3
  {
    assert |Numeral(v / 100, 10)| == 1;
    assert 1 <= |Numeral(v / 10, 10)| <= 2 by {
      assert v / 10 / 10 == v / 100;
    }
  }

  /** Five characters a word, but for those of the run and the first colon. */
  lemma {:induction false} WrittenLength(w: seq<nat>, r: Run, i: nat)
    requires i <= |w| && forall k | 0 <= k < |w| :: w[k] <= 0xffff
    ensures |Written(w, r, i)| <= if i == 0 then 0 else 5 * i - 1
    ensures r.Run? && r.len > 0 && r.base + r.len <= i ==> |Written(w, r, i)| <= 5 * (i - r.len) + 1
  {
    if i > 0 {
      WrittenLength(w, r, i - 1);
      HexLength(w[i - 1]);
      if r.Run? && r.base < i <= r.base + r.len {
        RunWritesOne(w, r, i);
        WrittenLength(w, r, r.base);
      }
    }
  }

  lemma {:induction false} RunWritesOne(w: seq<nat>, r: Run, i: nat)
    requires i <= |w| && r.Run? && r.base < i <= r.base + r.len
    ensures |Written(w, r, i)| == |Written(w, r, r.base)| + 1
  {
    if i > r.base + 1 {
      RunWritesOne(w, r, i - 1);
    }
  }

  /** A printed address never exceeds 39 characters, so that 40 always hold it. */
  lemma {:induction false} PrintLength(a: seq<byte>)
    requires |a| == 16
    ensures 2 <= |Print(a)| <= 39
  {
    var w := Words(a);
    var r := Best(w);
    BestIsBest(w);
    FormattedIsRendered(a, r);
    WrittenLength(w, r, 8);
    WrittenLength(w, r, 6);
    QuadLength(a[12..]);
  }
}
