/** The map from the server's room to the client's grid: Map_Info and sendData on one
    side, recv_data, map_update and map_owner on the other. */
module MapView {
  import opened Integers
  import opened Wrappers
  import opened GameMap
  import MapInvariant
  import opened RoomSpec
  import RoomRuns
  import opened FogOfWar
  import Rooms
  import opened Streams
  import opened Wire
  import opened Framing
  import Sessions

  // ----- Signed ints -----

  predicate IsInt(v: int) {
    -0x8000_0000 <= v < 0x8000_0000
  }

  function OfInt(v: int): word {
    v % 0x1_0000_0000
  }

  function ToInt(w: word): int {
    if w < 0x8000_0000 then w else w - 0x1_0000_0000
  }

  lemma {:induction false} IntRoundTrip(v: int)
    requires IsInt(v)
    ensures ToInt(OfInt(v)) == v
  {
    if v < 0 {
      assert OfInt(v) == v + 0x1_0000_0000;
    }
  }

  // ----- The reply of the server -----

  const RES_MAP_INFO_SUCC: int := 0xA06

  function KindCode(k: Kind): int {
    match k
    case Fog => -2
    case Mountain => -3
    case Castle => -4
    case Space => -5
    case Home => -6
  }

  function StateCode(g: GameState): int {
    match g case Wait => 0 case InGame => 1 case End => 2
  }

  /** Three ints and one that is never set: `unused` is what it happens to hold. */
  function CellWords(c: Cell, unused: word): (ws: seq<word>)
    ensures |ws| == 4
  {
    [OfInt(KindCode(c.kind)), OfInt(c.owner), OfInt(c.soldiers), unused]
  }

  function GridWords(cells: seq<Cell>, unused: nat -> word): (ws: seq<word>)
    ensures |ws| == 4 * |cells|
  {
    if cells == [] then []
    else
      var n := |cells| - 1;
      GridWords(cells[..n], unused) + CellWords(cells[n], unused(n))
  }

  function HeaderWords(s: RoomState, pid: int, session: int): (ws: seq<word>)
    ensures |ws| == 8
  {
    [OfInt(RES_MAP_INFO_SUCC), OfInt(session), OfInt(s.id), OfInt(pid),
     OfInt(s.sizeX), OfInt(s.sizeY), OfInt(s.round), OfInt(StateCode(s.game))]
  }

  /** The number that opens every map, taken for a session. */
  const SUPER_PWD := 998244353

  /** A map, a refusal, or a map that does not exist yet: what is then sent is not
      defined. */
  datatype Answered = Sees(view: Field) | Refused | NoMap

  /** The map a request is answered with: all of it once the game is over, and before for
      SUPER_PWD, else what the player may see, if he is seated, alive and in the game. */
  function Answer(s: RoomState, pid: nat, session: int): Answered {
    if session == SUPER_PWD || s.game == End then if s.game == Wait then NoMap else Sees(s.field)
    else if !Verified(s, pid, session) || s.game != InGame || s.players[pid].state != Alive then Refused
    else Sees(Mask(s.field, s.players[pid].playerId))
  }

  /** The number of the generator's sequence that stands in front of SUPER_PWD; rand() may
      return it. */
  const SUPER_SEED: word := 1738895248

  /** A new generator that is seeded with this number issues SUPER_PWD first, and the
      sequence comes to it from everywhere. Whoever carries it sees the whole map. */
  lemma {:induction false} SuperIsIssued(x: word, s: RoomState, pid: nat) returns (i: nat)
    ensures Sessions.Issue(0, SUPER_SEED) == SUPER_PWD
    ensures i < 0x1_0000_0000 && Sessions.Iterate(x, i) == SUPER_PWD
    ensures s.game != Wait ==> Answer(s, pid, SUPER_PWD) == Sees(s.field)
  {
    i := Sessions.EveryNumber(x, SUPER_PWD);
  }

  /** The header has room for two cells, so that it is longer than needed for one. */
  function MapReply(s: RoomState, pid: nat, session: int, view: Field, unused: nat -> word): Message {
    var cells := Flat(view);
    Message(HeaderWords(s, pid, session) + GridWords(cells, unused) + (if |cells| == 1 then [0, 0, 0, 0] else []), [])
  }

  /** lenNeed of Map_Info. */
  function LenNeed(cells: nat): nat {
    HEADER_SIZE + 16 * (if cells > 2 then cells - 2 else 0)
  }

  lemma {:induction false} ReplyShape(s: RoomState, pid: nat, session: int, view: Field, unused: nat -> word)
    requires |Flat(view)| >= 1
    ensures var m := MapReply(s, pid, session, view, unused);
            Size(m) == LenNeed(|Flat(view)|) && m.raw == [] && m.words[0] == 0xA06
  {
    IntRoundTrip(RES_MAP_INFO_SUCC);
  }

  lemma {:induction false} WellFormedReply(m: Message)
    requires m.raw == [] && Size(m) >= HEADER_SIZE && m.words[0] == 0xA06
    ensures Formed(Reply, m) && (WellFormed(Reply, m) <==> Size(m) < 0x1_0000)
  {
  }

  /** The length covers the cells exactly, from two cells on, and fits the 16 bits it
      is sent in exactly up to 4093 cells. */
  lemma {:induction false} ReplySize(s: RoomState, pid: nat, session: int, view: Field, unused: nat -> word)
    requires |Flat(view)| >= 1
    ensures var n := |Flat(view)|;
            && Size(MapReply(s, pid, session, view, unused)) == LenNeed(n)
            && (LenNeed(n) == 4 * 8 + 16 * n <==> n >= 2)
            && (WellFormed(Reply, MapReply(s, pid, session, view, unused)) <==> n <= 4093)
  {
    ReplyShape(s, pid, session, view, unused);
    WellFormedReply(MapReply(s, pid, session, view, unused));
  }

  // ----- The client -----

  datatype Grid = Grid(kind: int, owner: int, soldiers: int)

  function IntAt(h: Host, block: seq<byte>, k: nat): int
    requires 4 * k + 4 <= |block|
  {
    ToInt(ToWord(h, block[4 * k..4 * k + 4]))
  }

  /** The i-th cell behind the eight ints of the header. */
  function GridAt(h: Host, block: seq<byte>, i: nat): Grid
    requires 32 + 16 * i + 16 <= |block|
  {
    var k := 8 + 4 * i;
    Grid(IntAt(h, block, k), IntAt(h, block, k + 1), IntAt(h, block, k + 2))
  }

  /** A reply holds the cells it announces. */
  predicate Holds(h: Host, block: seq<byte>)
    requires |block| >= HEADER_SIZE
  {
    var x, y := IntAt(h, block, 4), IntAt(h, block, 5);
    x >= 0 && y >= 0 && 32 + 16 * (x * y) <= |block|
  }

  class Client {
    const host: Host
    var sizeX: int
    var sizeY: int
    var round: int
    var gameState: int
    var grid: seq<Grid>

    constructor (host: Host)
      ensures this.host == host
    {
      this.host := host;
      sizeX, sizeY, round, gameState, grid := 0, 0, 0, 0, [];
    }

    /** map_update: the header's figures and a copy of the cells. False where the reply
        announces more cells than it holds, which the source copies untested. */
    method MapUpdate(block: seq<byte>) returns (held: bool)
      requires |block| >= HEADER_SIZE
      modifies this
      ensures held <==> Holds(host, block)
      ensures held ==> sizeX == IntAt(host, block, 4) && sizeY == IntAt(host, block, 5)
                       && round == IntAt(host, block, 6) && gameState == IntAt(host, block, 7)
                       && |grid| == sizeX * sizeY && forall i | 0 <= i < |grid| :: grid[i] == GridAt(host, block, i)
      ensures !held ==> grid == old(grid)
    {
      sizeX, sizeY := IntAt(host, block, 4), IntAt(host, block, 5);
      round, gameState := IntAt(host, block, 6), IntAt(host, block, 7);
      if !Holds(host, block) {
        return false;
      }
      var n := sizeX * sizeY;
      Area(sizeX, sizeY);
      grid := seq(n, i requires 0 <= i < n => GridAt(host, block, i));
      held := true;
    }

    /** map_owner. */
    method MapOwner(row: int, col: int) returns (owner: int)
      requires 0 <= row * sizeY + col < |grid|
      ensures owner == grid[row * sizeY + col].owner
    {
      owner := grid[row * sizeY + col].owner;
    }
  }

  lemma {:induction false} Area(x: int, y: int)
    requires x >= 0 && y >= 0
    ensures x * y >= 0
  {
  }

  // ----- End to end -----

  predicate IntCells(cells: seq<Cell>) {
    forall i | 0 <= i < |cells| :: IsInt(cells[i].owner) && IsInt(cells[i].soldiers)
  }

  predicate IntHeader(s: RoomState) {
    IsInt(s.sizeX) && IsInt(s.sizeY) && IsInt(s.round)
  }

  lemma {:induction false} LayoutInt(h: Host, m: Message, k: nat)
    requires k < |m.words|
    ensures IntAt(h, Layout(h, m), k) == ToInt(m.words[k])
  {
    WordAt(h, m.words, m.raw, k);
    WordRoundTrip(h, m.words[k]);
  }

  lemma {:induction false} GridWordsAt(cells: seq<Cell>, unused: nat -> word, i: nat, j: nat)
    requires i < |cells| && j < 4
    ensures GridWords(cells, unused)[4 * i + j] == CellWords(cells[i], unused(i))[j]
  {
    var n := |cells| - 1;
    if i < n {
      GridWordsAt(cells[..n], unused, i, j);
    }
  }

  function GridOf(c: Cell): Grid {
    Grid(KindCode(c.kind), c.owner, c.soldiers)
  }

  lemma {:induction false} ReplyWord(s: RoomState, pid: nat, session: int, view: Field, unused: nat -> word, i: nat,
                                     j: nat)
    requires i < |Flat(view)| && j < 4
    ensures MapReply(s, pid, session, view, unused).words[8 + 4 * i + j] == CellWords(Flat(view)[i], unused(i))[j]
  {
    GridWordsAt(Flat(view), unused, i, j);
  }

  /** The ints of the reply, one by one: the code, what the request said, the figures, and
      for every cell its type, its owner, its soldiers and one that is not set. */
  lemma {:induction false} ReplyInts(s: RoomState, pid: nat, session: int, view: Field, unused: nat -> word, i: nat)
    requires i < |Flat(view)|
    ensures var ws, c := MapReply(s, pid, session, view, unused).words, Flat(view)[i];
            && |ws| >= 8 + 4 * i + 4
            && ws[..8] == [0xA06, OfInt(session), OfInt(s.id), OfInt(pid), OfInt(s.sizeX), OfInt(s.sizeY),
                           OfInt(s.round), match s.game case Wait => 0 case InGame => 1 case End => 2]
            && ToInt(ws[8 + 4 * i]) == (match c.kind case Fog => -2 case Mountain => -3 case Castle => -4
                                                   case Space => -5 case Home => -6)
            && ws[8 + 4 * i + 1] == OfInt(c.owner) && ws[8 + 4 * i + 2] == OfInt(c.soldiers)
            && ws[8 + 4 * i + 3] == unused(i)
  {
    ReplyWord(s, pid, session, view, unused, i, 0);
    ReplyWord(s, pid, session, view, unused, i, 1);
    ReplyWord(s, pid, session, view, unused, i, 2);
    ReplyWord(s, pid, session, view, unused, i, 3);
    IntRoundTrip(KindCode(Flat(view)[i].kind));
  }

  lemma {:induction false} HeaderInts(s: RoomState, pid: nat, session: int, view: Field, unused: nat -> word)
    returns (ws: seq<word>)
    ensures ws == MapReply(s, pid, session, view, unused).words && |ws| >= 8
    ensures ws[1] == OfInt(session) && ws[2] == OfInt(s.id) && ws[3] == OfInt(pid)
  {
    ws := MapReply(s, pid, session, view, unused).words;
  }

  lemma {:induction false} ReplyCell(h: Host, s: RoomState, pid: nat, session: int, view: Field, unused: nat -> word,
                                     i: nat)
    requires i < |Flat(view)| && IntCells(Flat(view))
    ensures var block := Layout(h, MapReply(s, pid, session, view, unused));
            32 + 16 * i + 16 <= |block| && GridAt(h, block, i) == GridOf(Flat(view)[i])
  {
    var m, c := MapReply(s, pid, session, view, unused), Flat(view)[i];
    ReplyWord(s, pid, session, view, unused, i, 0);
    ReplyWord(s, pid, session, view, unused, i, 1);
    ReplyWord(s, pid, session, view, unused, i, 2);
    LayoutInt(h, m, 8 + 4 * i);
    LayoutInt(h, m, 8 + 4 * i + 1);
    LayoutInt(h, m, 8 + 4 * i + 2);
    IntRoundTrip(KindCode(c.kind));
    IntRoundTrip(c.owner);
    IntRoundTrip(c.soldiers);
  }

  lemma {:induction false} ReplyHeader(h: Host, s: RoomState, pid: nat, session: int, view: Field, unused: nat -> word)
    requires IntHeader(s)
    ensures var block := Layout(h, MapReply(s, pid, session, view, unused));
            && IntAt(h, block, 0) == RES_MAP_INFO_SUCC
            && IntAt(h, block, 4) == s.sizeX && IntAt(h, block, 5) == s.sizeY
            && IntAt(h, block, 6) == s.round && IntAt(h, block, 7) == StateCode(s.game)
  {
    var m := MapReply(s, pid, session, view, unused);
    LayoutInt(h, m, 0);
    LayoutInt(h, m, 4);
    LayoutInt(h, m, 5);
    LayoutInt(h, m, 6);
    LayoutInt(h, m, 7);
    IntRoundTrip(RES_MAP_INFO_SUCC);
    IntRoundTrip(s.sizeX);
    IntRoundTrip(s.sizeY);
    IntRoundTrip(s.round);
    IntRoundTrip(StateCode(s.game));
  }

  /** The cells of the answer, and the map they are taken from. */
  method ShownCells(room: Rooms.Room, pid: nat, whole: bool) returns (cells: array<Cell>, ghost view: Field)
    requires room.Valid() && room.game != Wait && (!whole ==> pid < |room.players|)
    ensures fresh(cells) && cells[..] == Flat(view) && |Flat(view)| >= 1
    ensures view == if whole then room.field else Mask(room.field, room.players[pid].playerId)
  {
    cells := new Cell[room.sizeX * room.sizeY](_ => HIDDEN);
    if whole {
      view := room.field;
      room.MapCopy(cells);
    } else {
      view := Mask(room.field, room.players[pid].playerId);
      room.MapMask(cells, room.players[pid].playerId);
    }
    FlatLength(view, room.sizeY);
    Rows(0, room.sizeX, room.sizeY);
  }

  /** The bytes of the reply. */
  function ReplyBytes(g: Host, s: RoomState, pid: nat, session: int, view: Field, unused: nat -> word): (b: seq<byte>)
    requires |Flat(view)| >= 1
    ensures |b| == Size(MapReply(s, pid, session, view, unused))
  {
    var block := Layout(g, MapReply(s, pid, session, view, unused));
    ReplyIsKnown(g, s, pid, session, view, unused);
    Encode(g, Reply, block).value
  }

  /** The reply built from these cells, and sent. */
  method SendMap(room: Rooms.Room, pid: nat, session: int, cells: seq<Cell>, ghost view: Field, g: Host,
                 unused: nat -> word, fd: Output)
    returns (sent: bool)
    requires cells == Flat(view) && |cells| >= 1
    modifies fd
    ensures var b := ReplyBytes(g, room.State(), pid, session, view, unused);
            && fd.written == old(fd.written) + b[..Allowed(old(fd.script), |b|)]
            && (sent <==> Allowed(old(fd.script), |b|) == |b|) && (sent ==> fd.written == old(fd.written) + b)
  {
    var words := HeaderWords(room.State(), pid, session) + GridWords(cells, unused)
                 + (if |cells| == 1 then [0, 0, 0, 0] else []);
    ReplyIsKnown(g, room.State(), pid, session, view, unused);
    var m := Message(words, []);
    var rc := SendData(fd, g, Layout(g, m));
    sent := rc == Size(m);
  }

  /** Map_Info of the server, from the room to the bytes sent; false where it refuses or
      there is no map, and exactly where not all bytes can be written. */
  method MapInfo(room: Rooms.Room, pid: nat, session: int, g: Host, unused: nat -> word, fd: Output)
    returns (sent: bool)
    requires room.Valid()
    modifies fd
    ensures var s := room.State();
            match Answer(s, pid, session)
            case Refused => !sent && fd.written == old(fd.written)
            case NoMap => !sent && fd.written == old(fd.written)
            case Sees(view) =>
              && |Flat(view)| >= 1
              && var b := ReplyBytes(g, s, pid, session, view, unused);
              && fd.written == old(fd.written) + b[..Allowed(old(fd.script), |b|)]
              && (sent <==> Allowed(old(fd.script), |b|) == |b|) && (sent ==> fd.written == old(fd.written) + b)
  {
    var whole := session == SUPER_PWD || room.game == End;
    if whole {
      if room.game == Wait {
        return false;
      }
    } else if !Verified(room.State(), pid, session) || room.game != InGame || room.players[pid].state != Alive {
      return false;
    }
    var cells;
    ghost var view;
    cells, view := ShownCells(room, pid, whole);
    assert Answer(room.State(), pid, session) == Sees(view);
    sent := SendMap(room, pid, session, cells[..], view, g, unused, fd);
  }

  /** The code of the reply is one that sendData knows. */
  lemma {:induction false} ReplyIsKnown(g: Host, s: RoomState, pid: nat, session: int, view: Field, unused: nat -> word)
    requires |Flat(view)| >= 1
    ensures Encode(g, Reply, Layout(g, MapReply(s, pid, session, view, unused))).Some?
  {
    var words := MapReply(s, pid, session, view, unused).words;
    FirstWord(g, words, []);
    WordRoundTrip(g, words[0]);
    IntRoundTrip(RES_MAP_INFO_SUCC);
  }

  /** The bytes sent are the message on the wire, for a map of any size. */
  lemma {:induction false} SentIsWire(s: RoomState, pid: nat, session: int, view: Field, unused: nat -> word, g: Host)
    requires |Flat(view)| >= 1
    ensures var m := MapReply(s, pid, session, view, unused); Encode(g, Reply, Layout(g, m)) == Some(OnWire(m))
  {
    ReplyShape(s, pid, session, view, unused);
    WellFormedReply(MapReply(s, pid, session, view, unused));
    EncodeLayout(g, Reply, MapReply(s, pid, session, view, unused));
  }

  predicate ShowsHeader(h: Host, block: seq<byte>, s: RoomState) {
    && |block| >= HEADER_SIZE && IntAt(h, block, 0) == RES_MAP_INFO_SUCC
    && IntAt(h, block, 4) == s.sizeX && IntAt(h, block, 5) == s.sizeY
    && IntAt(h, block, 6) == s.round && IntAt(h, block, 7) == StateCode(s.game)
  }

  /** The cell the client keeps at `i` is the cell `c` of the server. */
  predicate ShowsCell(h: Host, block: seq<byte>, i: int, c: Cell) {
    0 <= i && 32 + 16 * i + 16 <= |block| && GridAt(h, block, i) == GridOf(c)
  }

  /** The header and every cell of a map. */
  ghost predicate Shows(h: Host, block: seq<byte>, s: RoomState, view: Field)
    requires HasSize(view, s.sizeX, s.sizeY)
  {
    && ShowsHeader(h, block, s)
    && forall row, col | 0 <= row < s.sizeX && 0 <= col < s.sizeY ::
         ShowsCell(h, block, row * s.sizeY + col, view[row][col])
  }

  lemma {:induction false} ViewCell(s: RoomState, pid: nat, session: int, view: Field, unused: nat -> word, h: Host,
                                    row: nat, col: nat)
    requires HasSize(view, s.sizeX, s.sizeY) && 1 <= |Flat(view)| <= 4093 && IntCells(Flat(view))
    requires row < s.sizeX && col < s.sizeY
    ensures ShowsCell(h, Layout(h, MapReply(s, pid, session, view, unused)), row * s.sizeY + col, view[row][col])
  {
    FlatAt(view, s.sizeY, row, col);
    ReplyCell(h, s, pid, session, view, unused, row * s.sizeY + col);
  }

  /** What the server's map shows at a row and a column is what the client holds at
      row * SIZEY + col, whatever the byte orders of the two hosts; the reply is used up
      to its last byte and nothing behind it is touched. */
  lemma {:induction false} EndToEnd(s: RoomState, pid: nat, session: int, view: Field, unused: nat -> word, h: Host,
                                    rest: seq<Item>)
    requires HasSize(view, s.sizeX, s.sizeY) && 1 <= |Flat(view)| <= 4093
    requires IntHeader(s) && IntCells(Flat(view))
    ensures var (r, left) := Receive(h, Reply, Items(OnWire(MapReply(s, pid, session, view, unused))) + rest);
            && left == rest && r.Got? && |r.block| == LenNeed(|Flat(view)|) && |Flat(view)| == s.sizeX * s.sizeY
            && Shows(h, r.block, s, view)
  {
    var m := MapReply(s, pid, session, view, unused);
    ReplySize(s, pid, session, view, unused);
    ReceiveOne(h, Reply, m, rest);
    ReplyHeader(h, s, pid, session, view, unused);
    FlatLength(view, s.sizeY);
    forall row, col | 0 <= row < s.sizeX && 0 <= col < s.sizeY
      ensures ShowsCell(h, Layout(h, m), row * s.sizeY + col, view[row][col])
    {
      ViewCell(s, pid, session, view, unused, h, row, col);
    }
  }

  lemma {:induction false} FlatFrom(f: Field, k: nat) returns (x: nat, y: nat)
    requires k < |Flat(f)|
    ensures Inside(f, x, y) && Flat(f)[k] == f[x][y]
  {
    var n := |f| - 1;
    if k < |Flat(f[..n])| {
      x, y := FlatFrom(f[..n], k);
    } else {
      x, y := n, k - |Flat(f[..n])|;
    }
  }

  /** Owners and soldiers of a reachable map are ints while the bound on the soldiers is. */
  lemma {:induction false} GoodCellsAreInts(f: Field, round: nat, n: nat)
    requires MapInvariant.GoodField(f, n) && n <= 0x8000_0000
    requires Sum(Troops(), f) <= MapInvariant.Ceiling(f, round) < 0x8000_0000
    ensures forall x, y | Inside(f, x, y) :: IsInt(f[x][y].owner) && IsInt(f[x][y].soldiers)
  {
    forall x, y | Inside(f, x, y) ensures IsInt(f[x][y].owner) && IsInt(f[x][y].soldiers) {
      MapInvariant.CellBound(f, round, n, x, y);
      assert MapInvariant.GoodCell(f[x][y], n);
    }
  }

  lemma {:induction false} AnswerIsInts(s: RoomState, pid: nat, session: int)
    requires RoomRuns.Inv(s) && Answer(s, pid, session).Sees?
    requires MapInvariant.Ceiling(s.field, s.round) < 0x8000_0000 && |s.players| <= 0x8000_0000
    ensures HasSize(Answer(s, pid, session).view, s.sizeX, s.sizeY)
    ensures IntCells(Flat(Answer(s, pid, session).view))
  {
    var view := Answer(s, pid, session).view;
    GoodCellsAreInts(s.field, s.round, |s.players|);
    forall k | 0 <= k < |Flat(view)| ensures IsInt(Flat(view)[k].owner) && IsInt(Flat(view)[k].soldiers) {
      var x, y := FlatFrom(view, k);
      assert Inside(s.field, x, y);
    }
  }

  lemma {:induction false} SmallArea(x: nat, y: nat)
    requires x >= 1 && y >= 1
    ensures 1 <= x <= x * y && 1 <= y <= x * y
  {
    assert x * y == x + x * (y - 1) == y + (x - 1) * y;
  }

  lemma {:induction false} SizesStay(start: RoomState, events: seq<RoomSpec.Event>)
    requires RoomRuns.Inv(start)
    ensures var s := Run(start, events);
            RoomRuns.Inv(s) && s.sizeX == start.sizeX && s.sizeY == start.sizeY && |s.players| == |start.players|
  {
    RoomRuns.RunInv(start, events);
    RoomRuns.RunLater(start, events, 0);
    assert events[..0] == [];
  }

  /** The figures of a room fit an int, and so does the length of its reply: 0x7ff_fffd is
      the most cells for which lenNeed is below 2^31. */
  ghost predicate Sendable(s: RoomState) {
    && RoomRuns.Inv(s) && s.sizeX * s.sizeY <= 0x7ff_fffd && |s.players| <= 0x8000_0000
    && s.round < 0x8000_0000 && MapInvariant.Ceiling(s.field, s.round) < 0x8000_0000
  }

  lemma {:induction false} AnswerArrives(s: RoomState, pid: nat, session: int, view: Field, unused: nat -> word,
                                         h: Host, rest: seq<Item>)
    requires Sendable(s) && Answer(s, pid, session) == Sees(view) && s.sizeX * s.sizeY <= 4093
    ensures HasSize(view, s.sizeX, s.sizeY) && 1 <= |Flat(view)| == s.sizeX * s.sizeY <= 4093
    ensures var (r, left) := Receive(h, Reply, Items(OnWire(MapReply(s, pid, session, view, unused))) + rest);
            left == rest && r.Got? && |r.block| == LenNeed(|Flat(view)|) && Shows(h, r.block, s, view)
  {
    AnswerIsInts(s, pid, session);
    SmallArea(s.sizeX, s.sizeY);
    FlatLength(view, s.sizeY);
    EndToEnd(s, pid, session, view, unused, h, rest);
  }

  /** In every room that requests and ticks can lead to, as long as its figures fit an
      int and its map the length field, what a player is answered is what his client
      decodes, cell by cell. */
  lemma {:induction false} PlayerSees(start: RoomState, events: seq<RoomSpec.Event>, s: RoomState, pid: nat,
                                      session: int, view: Field, unused: nat -> word, h: Host, rest: seq<Item>)
    requires RoomRuns.Inv(start) && start.sizeX * start.sizeY <= 4093 && |start.players| <= 0x8000_0000
    requires s == Run(start, events) && Answer(s, pid, session) == Sees(view)
    requires s.round < 0x8000_0000 && MapInvariant.Ceiling(s.field, s.round) < 0x8000_0000
    ensures var (r, left) := Receive(h, Reply, Items(OnWire(MapReply(s, pid, session, view, unused))) + rest);
            left == rest && r.Got? && HasSize(view, s.sizeX, s.sizeY) && Shows(h, r.block, s, view)
  {
    SizesStay(start, events);
    AnswerArrives(s, pid, session, view, unused, h, rest);
  }

  // ----- More cells than the length can tell -----

  /** The ints of a reply that is cut. */
  lemma {:induction false} CutReply(s: RoomState, pid: nat, session: int, view: Field, unused: nat -> word, h: Host,
                                    k: nat)
    requires |Flat(view)| >= 1 && IsInt(s.sizeX) && IsInt(s.sizeY)
    requires 16 <= k <= |MapReply(s, pid, session, view, unused).words|
    ensures var m := Message(MapReply(s, pid, session, view, unused).words[..k], []);
            && IntAt(h, Layout(h, m), 4) == s.sizeX && IntAt(h, Layout(h, m), 5) == s.sizeY
            && (4 * k < 0x1_0000 ==> WellFormed(Reply, m))
  {
    var m := Message(MapReply(s, pid, session, view, unused).words[..k], []);
    LayoutInt(h, m, 4);
    LayoutInt(h, m, 5);
    IntRoundTrip(s.sizeX);
    IntRoundTrip(s.sizeY);
    IntRoundTrip(RES_MAP_INFO_SUCC);
    WellFormedReply(m);
  }

  lemma {:induction false} CutLength(n: nat) returns (k: nat)
    requires n >= 4094
    ensures LenNeed(n) % 0x1_0000 == 4 * k < 0x1_0000 <= LenNeed(n) && k <= LenNeed(n) / 4
    ensures 4 * k < HEADER_SIZE <==> (n + 2) % 4096 < 4
  {
    k := 4 * ((n + 2) % 4096);
    assert LenNeed(n) == 16 * (n + 2) == 0x1_0000 * ((n + 2) / 4096) + 4 * k;
  }

  lemma {:induction false} NotHeld(h: Host, block: seq<byte>, x: int, y: int)
    requires HEADER_SIZE <= |block| < 0x1_0000 && IntAt(h, block, 4) == x && IntAt(h, block, 5) == y && x * y >= 4094
    ensures !Holds(h, block)
  {
  }

  /** A message whose length is cut to l is received with as many bytes, if these hold a
      header. */
  lemma {:induction false} CutIs(h: Host, m: Message, k: nat, rest: seq<Item>) returns (l: nat, r: Received)
    requires m.raw == [] && 0 < k <= |m.words| && Size(m) % 0x1_0000 == 4 * k < 0x1_0000
    requires WellFormed(Reply, Message(m.words[..k], []))
    ensures l == Size(m) % 0x1_0000 && r == Receive(h, Reply, Items(OnWire(m)) + rest).0
    ensures l == 4 * k && r == Got(Layout(h, Message(m.words[..k], [])))
  {
    l, r := 4 * k, Receive(h, Reply, Items(OnWire(m)) + rest).0;
    ReceiveCut(h, Reply, m, k, rest);
  }

  lemma {:induction false} CutShort(h: Host, m: Message, rest: seq<Item>) returns (l: nat, r: Received)
    requires m.words != [] && m.words[0] < 0x1_0000 && HEADER_SIZE <= Size(m)
    requires Size(m) % 0x1_0000 < HEADER_SIZE
    ensures l == Size(m) % 0x1_0000 && r == Receive(h, Reply, Items(OnWire(m)) + rest).0 && r.ShortLength?
  {
    l, r := Size(m) % 0x1_0000, Receive(h, Reply, Items(OnWire(m)) + rest).0;
    LongLength(m);
    ReceiveShort(h, Reply, OnWire(m), rest);
  }

  /** From 4094 cells on the client receives a reply that is cut to its length modulo 2^16:
      either it announces less than its header, or it announces more cells than it holds. */
  lemma {:induction false} TooManyCells(s: RoomState, pid: nat, session: int, view: Field, unused: nat -> word, h: Host,
                                        rest: seq<Item>)
    requires |Flat(view)| >= 4094 && s.sizeX * s.sizeY == |Flat(view)| && IsInt(s.sizeX) && IsInt(s.sizeY)
    ensures var n, m := |Flat(view)|, MapReply(s, pid, session, view, unused);
            var l, r := Size(m) % 0x1_0000, Receive(h, Reply, Items(OnWire(m)) + rest).0;
            && l != Size(m) && (l < HEADER_SIZE <==> (n + 2) % 4096 < 4)
            && if l < HEADER_SIZE then r.ShortLength? else r.Got? && |r.block| == l && !Holds(h, r.block)
  {
    var n, m := |Flat(view)|, MapReply(s, pid, session, view, unused);
    ReplyShape(s, pid, session, view, unused);
    var k := CutLength(n);
    if 4 * k < HEADER_SIZE {
      var l, r := CutShort(h, m, rest);
    } else {
      CutReply(s, pid, session, view, unused, h, k);
      var l, r := CutIs(h, m, k, rest);
      NotHeld(h, r.block, s.sizeX, s.sizeY);
    }
  }

  /** Of any map of one row of 4098 cells the client receives a bare header that announces
      all of them. */
  lemma {:induction false} OneRowTooLong(s: RoomState, pid: nat, session: int, view: Field, unused: nat -> word,
                                         h: Host, rest: seq<Item>)
    requires s.sizeX == 1 && s.sizeY == 4098 && HasSize(view, s.sizeX, s.sizeY)
    ensures var r := Receive(h, Reply, Items(OnWire(MapReply(s, pid, session, view, unused))) + rest).0;
            r.Got? && |r.block| == HEADER_SIZE && !Holds(h, r.block)
  {
    FlatLength(view, 4098);
    assert LenNeed(4098) % 0x1_0000 == HEADER_SIZE;
    ReplySize(s, pid, session, view, unused);
    TooManyCells(s, pid, session, view, unused, h, rest);
  }

  // ----- From the room to the grid -----

  /** The client's grid is this map. */
  ghost predicate GridIs(grid: seq<Grid>, sizeX: int, sizeY: int, view: Field)
    requires sizeX >= 0 && sizeY >= 0 && HasSize(view, sizeX, sizeY)
  {
    forall row, col {:trigger view[row][col]} | 0 <= row < sizeX && 0 <= col < sizeY ::
      0 <= row * sizeY + col < |grid| && grid[row * sizeY + col] == GridOf(view[row][col])
  }

  lemma {:induction false} GridShows(h: Host, block: seq<byte>, s: RoomState, view: Field, grid: seq<Grid>)
    requires HasSize(view, s.sizeX, s.sizeY) && Shows(h, block, s, view) && |grid| == s.sizeX * s.sizeY
    requires 32 + 16 * |grid| <= |block| && forall i | 0 <= i < |grid| :: grid[i] == GridAt(h, block, i)
    ensures GridIs(grid, s.sizeX, s.sizeY, view)
  {
    forall row, col | 0 <= row < s.sizeX && 0 <= col < s.sizeY
      ensures 0 <= row * s.sizeY + col < |grid| && grid[row * s.sizeY + col] == GridOf(view[row][col])
    {
      var c := view[row][col];
      Rows(row, s.sizeX, s.sizeY);
      assert ShowsCell(h, block, row * s.sizeY + col, c);
    }
  }

  lemma {:induction false} CodeIsNoError(h: Host, block: seq<byte>, s: RoomState)
    requires ShowsHeader(h, block, s)
    ensures !IsError(CodeOf(h, block))
  {
    assert block[4 * 0..4 * 0 + 4] == block[..4];
  }

  /** What the server sends is what the client receives. */
  lemma {:induction false} SentArrives(s: RoomState, pid: nat, session: int, view: Field, g: Host, unused: nat -> word,
                                       h: Host)
    returns (b: seq<byte>, block: seq<byte>)
    requires Sendable(s) && Answer(s, pid, session) == Sees(view) && s.sizeX * s.sizeY <= 4093
    ensures HasSize(view, s.sizeX, s.sizeY) && 1 <= |Flat(view)| == s.sizeX * s.sizeY
    ensures b == ReplyBytes(g, s, pid, session, view, unused) && |b| == |block| == LenNeed(|Flat(view)|)
    ensures Receive(h, Reply, Items(b)) == (Got(block), [])
    ensures Shows(h, block, s, view) && !IsError(CodeOf(h, block))
    ensures Holds(h, block) && 32 + 16 * |Flat(view)| <= |block|
  {
    AnswerArrives(s, pid, session, view, unused, h, []);
    SentIsWire(s, pid, session, view, unused, g);
    ReplySize(s, pid, session, view, unused);
    b := ReplyBytes(g, s, pid, session, view, unused);
    assert Items(b) + [] == Items(b);
    block := Receive(h, Reply, Items(b)).0.block;
    CodeIsNoError(h, block, s);
  }

  /** The request is answered on a connection of its own. */
  method AnswerMap(room: Rooms.Room, pid: nat, session: int, g: Host, unused: nat -> word, script: seq<Acceptance>)
    returns (sent: bool, bytes: seq<byte>)
    requires room.Valid()
    ensures match Answer(room.State(), pid, session)
            case Refused => !sent
            case NoMap => !sent
            case Sees(view) =>
              && |Flat(view)| >= 1
              && var b := ReplyBytes(g, room.State(), pid, session, view, unused);
              && (sent <==> EnoughBefore(script, |b|)) && (sent ==> bytes == b)
  {
    var out := new Output(script);
    sent := MapInfo(room, pid, session, g, unused, out);
    bytes := out.written;
    if Answer(room.State(), pid, session).Sees? {
      ghost var b := ReplyBytes(g, room.State(), pid, session, Answer(room.State(), pid, session).view, unused);
      AllWritten(script, |b|);
    }
  }

  /** What the client makes of the reply: it is received and its cells are copied. */
  method TakeIn(client: Client, fd: Descriptor) returns (shown: bool)
    modifies client, fd
    ensures var got := Receive(client.host, Reply, old(Pending(fd.events))).0;
            && (shown <==> got.Got? && !IsError(CodeOf(client.host, got.block))
                           && InTime(old(fd.events), |got.block|) && Holds(client.host, got.block))
            && (shown ==> Copied(client, got.block))
    ensures !shown ==> client.grid == old(client.grid)
  {
    var r := ClientRecv(fd, client.host);
    if !r.GoesOn? {
      return false;
    }
    shown := client.MapUpdate(r.block);
  }

  ghost predicate Copied(client: Client, block: seq<byte>)
    reads client
  {
    && |block| >= HEADER_SIZE && Holds(client.host, block)
    && client.sizeX == IntAt(client.host, block, 4) && client.sizeY == IntAt(client.host, block, 5)
    && client.round == IntAt(client.host, block, 6) && client.gameState == IntAt(client.host, block, 7)
    && |client.grid| == client.sizeX * client.sizeY
    && forall i | 0 <= i < |client.grid| :: client.grid[i] == GridAt(client.host, block, i)
  }

  lemma {:induction false} CopiedIsShown(client: Client, block: seq<byte>, s: RoomState, view: Field)
    requires HasSize(view, s.sizeX, s.sizeY) && Shows(client.host, block, s, view) && Copied(client, block)
    requires 32 + 16 * (s.sizeX * s.sizeY) <= |block|
    ensures GridIs(client.grid, s.sizeX, s.sizeY, view)
    ensures client.sizeX == s.sizeX && client.sizeY == s.sizeY
    ensures client.round == s.round && client.gameState == StateCode(s.game)
  {
    GridShows(client.host, block, s, view, client.grid);
  }

  /** A map of more cells is never taken in. */
  lemma {:induction false} LargeIsNotHeld(s: RoomState, pid: nat, session: int, view: Field, g: Host,
                                          unused: nat -> word, h: Host)
    returns (b: seq<byte>)
    requires Sendable(s) && Answer(s, pid, session) == Sees(view) && s.sizeX * s.sizeY > 4093
    ensures HasSize(view, s.sizeX, s.sizeY) && 1 <= |Flat(view)| == s.sizeX * s.sizeY
    ensures b == ReplyBytes(g, s, pid, session, view, unused)
    ensures var r := Receive(h, Reply, Items(b)).0; !(r.Got? && Holds(h, r.block))
  {
    AnswerIsInts(s, pid, session);
    SmallArea(s.sizeX, s.sizeY);
    FlatLength(view, s.sizeY);
    SentIsWire(s, pid, session, view, unused, g);
    b := ReplyBytes(g, s, pid, session, view, unused);
    assert Items(b) + [] == Items(b);
    TooManyCells(s, pid, session, view, unused, h, []);
  }

  /** One refresh of a player's screen: the request is answered, the bytes written travel
      in whatever pieces the network makes of them, and the client takes them in. It ends
      with the answered map in the client's grid exactly if there is one, of at most 4093
      cells, all bytes can be written and they come in time. */
  method RefreshMap(room: Rooms.Room, pid: nat, session: int, g: Host, unused: nat -> word, script: seq<Acceptance>,
                    net: seq<byte> -> seq<Streams.Event>, client: Client)
    returns (shown: bool)
    requires room.Valid() && Sendable(room.State()) && forall b :: Pending(net(b)) == Items(b)
    modifies client
    ensures var s := room.State();
            match Answer(s, pid, session)
            case Refused => !shown
            case NoMap => !shown
            case Sees(view) =>
              && HasSize(view, s.sizeX, s.sizeY) && |Flat(view)| >= 1
              && var b := ReplyBytes(g, s, pid, session, view, unused);
              && (shown <==> s.sizeX * s.sizeY <= 4093 && EnoughBefore(script, |b|) && InTime(net(b), |b|))
              && (shown ==> GridIs(client.grid, s.sizeX, s.sizeY, view))
    ensures var s := room.State();
            shown ==> client.sizeX == s.sizeX && client.sizeY == s.sizeY
                      && client.round == s.round && client.gameState == StateCode(s.game)
    ensures !shown ==> client.grid == old(client.grid)
  {
    ghost var s, h := room.State(), client.host;
    if !Answer(room.State(), pid, session).Sees? {
      return false;
    }
    ghost var view := Answer(s, pid, session).view;
    ghost var b, block;
    if s.sizeX * s.sizeY <= 4093 {
      b, block := SentArrives(s, pid, session, view, g, unused, h);
    } else {
      b := LargeIsNotHeld(s, pid, session, view, g, unused, h);
    }
    var sent, bytes := AnswerMap(room, pid, session, g, unused, script);
    if !sent {
      return false;
    }
    var fd := new Descriptor(net(bytes));
    shown := TakeIn(client, fd);
    if shown {
      CopiedIsShown(client, block, s, view);
    }
  }

  /** The owner that the client draws at a row and a column. */
  method DrawnOwner(client: Client, row: int, col: int, ghost view: Field) returns (owner: int)
    requires 0 <= row < client.sizeX && 0 <= col < client.sizeY
    requires HasSize(view, client.sizeX, client.sizeY) && GridIs(client.grid, client.sizeX, client.sizeY, view)
    ensures owner == view[row][col].owner
  {
    assert GridOf(view[row][col]).owner == view[row][col].owner;
    owner := client.MapOwner(row, col);
  }
}
