/** The text forms of IPv4 and IPv6 addresses (section 2.2 of RFC 4291), as the
    parser of libfree/inet_pton.c reads them.

    Two descriptions live here. `ParseQuad` and `ParseText` say what the parser
    computes, one character at a time. `Quad` and `Text` are a grammar: a value
    of either type renders to one text and denotes bytes. The lemmas of
    AddressGrammar tie the two together in both directions. */
module AddressText {
  import opened Wrappers
  import opened Integers

  // ----- Numerals -----

  /** The position of a character in the digit tables, -1 where strchr finds nothing. */
  function DigitOf(c: char): (d: int)
    ensures -1 <= d < 16
  {
    if '0' <= c <= '9' then c as int - '0' as int
    else if 'a' <= c <= 'f' then c as int - 'a' as int + 10
    else if 'A' <= c <= 'F' then c as int - 'A' as int + 10
    else -1
  }

  /** The lower-case digit of a value. */
  function DigitChar(d: nat): (c: char)
    requires d < 16
    ensures DigitOf(c) == d
  {
    if d < 10 then ('0' as int + d) as char else ('a' as int + d - 10) as char
  }

  /** Decimal for octets, hexadecimal for groups. */
  type Radix = r: nat | r == 10 || r == 16 witness 10

  predicate IsDigit(c: char, radix: Radix) {
    0 <= DigitOf(c) < radix
  }

  predicate IsNumeral(s: string, radix: Radix) {
    forall i | 0 <= i < |s| :: IsDigit(s[i], radix)
  }

  function Shifted(v: nat, radix: Radix): nat {
    if radix == 10 then 10 * v else 16 * v
  }

  /** The number a string of digits stands for. */
  function Value(s: string, radix: Radix): nat {
    if s == [] then 0
    else Shifted(Value(s[..|s| - 1], radix), radix) + (if IsDigit(s[|s| - 1], radix) then DigitOf(s[|s| - 1]) else 0)
  }

  /** A numeral printed without leading zeros, as `%x` and `%u` print it. */
  function Numeral(n: nat, radix: Radix): string {
    if n < radix then [DigitChar(n)]
    else if radix == 10 then Numeral(n / 10, radix) + [DigitChar(n % 10)]
    else Numeral(n / 16, radix) + [DigitChar(n % 16)]
  }

  // ----- The dotted quad -----

  /** The four decimal strings of a dotted quad. */
  type Quad = seq<string>

  predicate IsOctet(s: string) {
    s != [] && IsNumeral(s, 10) && Value(s, 10) <= 255
  }

  predicate ValidOctets(q: Quad) {
    forall i | 0 <= i < |q| :: IsOctet(q[i])
  }

  function QuadText(q: Quad): string {
    if q == [] then "" else if |q| == 1 then q[0] else q[0] + "." + QuadText(q[1..])
  }

  function Octet(v: nat): byte {
    v % 256
  }

  function QuadBytes(q: Quad): (b: seq<byte>)
    ensures |b| == |q|
  {
    if q == [] then [] else [Octet(Value(q[0], 10))] + QuadBytes(q[1..])
  }

  /** The remaining text read when the octets `done` are complete and `cur` is the
      part of the current octet seen so far. */
  function ScanQuad(text: string, done: seq<byte>, cur: string): Option<seq<byte>> {
    if text == [] then
      if cur != [] && |done| == 3 then Some(done + [Octet(Value(cur, 10))]) else None
    else if IsDigit(text[0], 10) then
      if Value(cur + [text[0]], 10) > 255 then None
      else ScanQuad(text[1..], done, cur + [text[0]])
    else if text[0] == '.' && cur != [] then
      if |done| == 3 then None else ScanQuad(text[1..], done + [Octet(Value(cur, 10))], [])
    else None
  }

  function ParseQuad(text: string): Option<seq<byte>> {
    ScanQuad(text, [], [])
  }

  // ----- The IPv6 grammar -----

  /** What may close a sequence of groups, each followed by its colon: nothing,
      a last group without a colon, or a dotted quad. */
  datatype Tail = Empty | Group(digits: string) | Dotted(quad: Quad)

  datatype Body = Body(groups: seq<string>, tail: Tail)

  /** A text without `::`, or one with groups on both sides of it. */
  datatype Text = Plain(body: Body) | Gap(left: seq<string>, right: Body)

  predicate IsGroup(s: string) {
    s != [] && IsNumeral(s, 16) && Value(s, 16) <= 0xffff
  }

  predicate ValidGroups(gs: seq<string>) {
    forall i | 0 <= i < |gs| :: IsGroup(gs[i])
  }

  predicate ValidBody(b: Body) {
    && ValidGroups(b.groups)
    && match b.tail
       case Empty => true
       case Group(g) => IsGroup(g)
       case Dotted(q) => |q| == 4 && ValidOctets(q)
  }

  predicate ValidText(t: Text) {
    match t
    case Plain(b) => ValidBody(b)
    case Gap(left, right) => ValidGroups(left) && ValidBody(right)
  }

  function GroupsText(gs: seq<string>): string {
    if gs == [] then "" else gs[0] + ":" + GroupsText(gs[1..])
  }

  function TailText(t: Tail): string {
    match t
    case Empty => ""
    case Group(g) => g
    case Dotted(q) => QuadText(q)
  }

  function BodyText(b: Body): string {
    GroupsText(b.groups) + TailText(b.tail)
  }

  /** What stands to the left of the second colon of `::`. */
  function GapPrefix(left: seq<string>): string {
    if left == [] then ":" else GroupsText(left)
  }

  function Render(t: Text): string {
    match t
    case Plain(b) => BodyText(b)
    case Gap(left, right) => GapPrefix(left) + ":" + BodyText(right)
  }

  /** A 16-bit word, most significant byte first. */
  function WordBytes(v: nat): (b: seq<byte>)
    ensures |b| == 2
  {
    [Octet(v / 256), Octet(v)]
  }

  function GroupsBytes(gs: seq<string>): (b: seq<byte>)
    ensures |b| == 2 * |gs|
  {
    if gs == [] then [] else WordBytes(Value(gs[0], 16)) + GroupsBytes(gs[1..])
  }

  function TailBytes(t: Tail): seq<byte> {
    match t
    case Empty => []
    case Group(g) => WordBytes(Value(g, 16))
    case Dotted(q) => QuadBytes(q)
  }

  function BodyBytes(b: Body): seq<byte> {
    GroupsBytes(b.groups) + TailBytes(b.tail)
  }

  function Zeros(n: nat): (z: seq<byte>)
    ensures |z| == n
  {
    seq(n, _ => 0)
  }

  /** A text the parser takes: 16 bytes without `::`, at most 16 with it. */
  predicate Fits(t: Text) {
    match t
    case Plain(b) => |BodyBytes(b)| == 16
    case Gap(left, right) => |GroupsBytes(left)| + |BodyBytes(right)| <= 16
  }

  /** The address a fitting text denotes to the parser. A `::` that has nothing
      left to fill wipes the bytes to its right. */
  function Denotation(t: Text): (a: seq<byte>)
    requires Fits(t)
    ensures |a| == 16
  {
    match t
    case Plain(b) => BodyBytes(b)
    case Gap(left, right) =>
      var l, r := GroupsBytes(left), BodyBytes(right);
      if |l| + |r| == 16 then l + Zeros(|r|) else l + Zeros(16 - |l| - |r|) + r
  }

  // ----- What the parser computes -----

  /** The bytes stored when the text ends, and how many of them preceded `::`. */
  datatype Scanned = Scanned(out: seq<byte>, colon: Option<nat>)

  /** The remaining text read when `out` is stored, `colon` is the place of `::`
      if it was seen, and `tok` is the part of the current group seen so far. */
  function Scan(text: string, out: seq<byte>, colon: Option<nat>, tok: string): Option<Scanned> {
    if text == [] then
      if tok == [] then Some(Scanned(out, colon))
      else if |out| + 2 > 16 then None
      else Some(Scanned(out + WordBytes(Value(tok, 16)), colon))
    else if IsDigit(text[0], 16) then
      if Value(tok + [text[0]], 16) > 0xffff then None
      else Scan(text[1..], out, colon, tok + [text[0]])
    else if text[0] == ':' then
      if tok == [] then
        if colon.Some? then None else Scan(text[1..], out, Some(|out|), [])
      else if |out| + 2 > 16 then None
      else Scan(text[1..], out + WordBytes(Value(tok, 16)), colon, [])
    else if text[0] == '.' && |out| + 4 <= 16 then
      var q := ParseQuad(tok + text);
      if q.Some? && |q.value| == 4 then Some(Scanned(out + q.value, colon)) else None
    else None
  }

  /** The 16 bytes after the tail behind `::` is moved to the end. */
  function Expand(s: Scanned): (a: Option<seq<byte>>)
    ensures a.Some? ==> |a.value| == 16
  {
    if |s.out| > 16 || (s.colon.Some? && s.colon.value > |s.out|) then None else
    match s.colon
    case None => if |s.out| == 16 then Some(s.out) else None
    case Some(c) =>
      if |s.out| == 16 then Some(s.out[..c] + Zeros(16 - c))
      else Some(s.out[..c] + Zeros(16 - |s.out|) + s.out[c..])
  }

  function ParseText(src: string): (a: Option<seq<byte>>)
    ensures a.Some? ==> |a.value| == 16
  {
    if src != [] && src[0] == ':' && !(|src| >= 2 && src[1] == ':') then None
    else
      var text := if src != [] && src[0] == ':' then src[1..] else src;
      var r := Scan(text, [], None, []);
      if r == None then None else Expand(r.value)
  }
}
