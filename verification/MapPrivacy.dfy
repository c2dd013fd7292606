/** What the answer to a map request may give away, said about the reply and the client's
    grid and without the functions that compute it. */
module MapPrivacy {
  import opened Integers
  import opened GameMap
  import opened RoomSpec
  import MapInvariant
  import RoomRuns
  import opened FogOfWar
  import Rooms
  import opened Streams
  import opened Wire
  import opened Framing
  import opened MapView

  // ----- Who is answered -----

  /** A request that is not made under the built-in number, before the game is over. */
  predicate Ordinary(s: RoomState, session: int) {
    session != 998244353 && s.game != End
  }

  /** An ordinary request gets a map exactly from a seat under its session, of somebody alive
      in a running game. A map that exists is refused to nobody else. */
  lemma {:induction false} WhoIsAnswered(s: RoomState, pid: nat, session: int)
    ensures Ordinary(s, session) ==>
              && (Answer(s, pid, session).Sees? <==>
                    pid < |s.players| && session == s.players[pid].session
                    && s.game == InGame && s.players[pid].state == Alive)
              && !Answer(s, pid, session).NoMap?
    ensures !Ordinary(s, session) && s.game != Wait ==> Answer(s, pid, session) == Sees(s.field)
    ensures !Ordinary(s, session) && s.game == Wait ==> Answer(s, pid, session) == NoMap
  {
  }

  /** So a stranger gets a map only under that number or once the game is over. */
  lemma {:induction false} StrangersSeeNothing(s: RoomState, pid: nat, session: int)
    requires pid >= |s.players| || session != s.players[pid].session
    ensures Answer(s, pid, session).Sees? ==> session == 998244353 || s.game == End
  {
  }

  // ----- What he is shown -----

  /** A cell of the player lies at most one step away in either direction. */
  predicate Close(f: Field, p: int, x: int, y: int) {
    exists i, j | Inside(f, i, j) && f[i][j].owner == p :: -1 <= i - x <= 1 && -1 <= j - y <= 1
  }

  /** What a client may hold for a cell: its type by its number, owner and soldiers for
      mountains and cells close to the player's own, and otherwise fog. */
  predicate Honest(g: Grid, f: Field, p: int, x: int, y: int)
    requires Inside(f, x, y)
  {
    var c := f[x][y];
    if c.kind == Mountain || Close(f, p, x, y) then Faithful(g, c) else g == Grid(-2, -1, 0)
  }

  /** The cell itself, its type by the number of the protocol. */
  predicate Faithful(g: Grid, c: Cell) {
    && g.owner == c.owner && g.soldiers == c.soldiers
    && g.kind == [-2, -3, -4, -5, -6][match c.kind case Fog => 0 case Mountain => 1 case Castle => 2
                                                 case Space => 3 case Home => 4]
  }

  lemma {:induction false} CloseIsNear(f: Field, p: int, x: int, y: int)
    ensures Close(f, p, x, y) <==> Near(f, p, x, y)
  {
    if Near(f, p, x, y) {
      var i, j :| x - 1 <= i <= x + 1 && y - 1 <= j <= y + 1 && Inside(f, i, j) && f[i][j].owner == p;
    }
  }

  lemma {:induction false} ViewIsHonest(s: RoomState, pid: nat, session: int, view: Field, row: nat, col: nat)
    requires Answer(s, pid, session) == Sees(view) && Inside(s.field, row, col)
    ensures Inside(view, row, col)
    ensures if Ordinary(s, session) then Honest(GridOf(view[row][col]), s.field, s.players[pid].playerId, row, col)
            else Faithful(GridOf(view[row][col]), s.field[row][col])
  {
    if Ordinary(s, session) {
      CloseIsNear(s.field, s.players[pid].playerId, row, col);
    }
  }

  /** The grid that a client is left with tells a player of a running game his own cells,
      what is close to them, and the mountains; all other cells are fog. */
  lemma {:induction false} GridHides(s: RoomState, pid: nat, session: int, view: Field, grid: seq<Grid>, row: nat,
                                     col: nat)
    requires Answer(s, pid, session) == Sees(view) && HasSize(s.field, s.sizeX, s.sizeY)
    requires row < s.sizeX && col < s.sizeY
    requires HasSize(view, s.sizeX, s.sizeY) && GridIs(grid, s.sizeX, s.sizeY, view)
    ensures 0 <= row * s.sizeY + col < |grid|
    ensures var g := grid[row * s.sizeY + col];
            if Ordinary(s, session) then Honest(g, s.field, s.players[pid].playerId, row, col)
            else Faithful(g, s.field[row][col])
  {
    assert Inside(s.field, row, col);
    var c := view[row][col];
    assert 0 <= row * s.sizeY + col < |grid| && grid[row * s.sizeY + col] == GridOf(c);
    ViewIsHonest(s, pid, session, view, row, col);
  }

  /** The player's number in a reachable room is that of his seat, so that what he is shown
      is what lies close to his own cells. */
  lemma {:induction false} OwnNumber(s: RoomState, pid: nat)
    requires RoomRuns.Inv(s) && pid < |s.players| && s.players[pid].session != 0
    ensures s.players[pid].playerId == pid
  {
  }

  /** Whoever asks for a free seat under session 0 is shown what player 0 may see. */
  lemma {:induction false} FreeSeatSeesForFirst(s: RoomState, pid: nat)
    requires RoomRuns.Inv(s) && s.game == InGame && s.players[0].state == Alive
    requires pid < |s.players| && s.players[pid] == FREE_SEAT
    ensures Answer(s, pid, 0).Sees?
    ensures s.players[0].session != 998244353 ==> Answer(s, pid, 0) == Answer(s, 0, s.players[0].session)
  {
  }

  // ----- Nothing else is told -----

  /** All that a reply may depend on besides the map. */
  predicate SameFigures(s: RoomState, t: RoomState) {
    && t.id == s.id && t.sizeX == s.sizeX && t.sizeY == s.sizeY && t.round == s.round && t.game == s.game
    && t.players == s.players
  }

  /** An ordinary request is answered alike in two running games with the same figures and
      seats if and only if the player cannot tell their maps apart. */
  lemma {:induction false} AnswerTellsExactly(s: RoomState, t: RoomState, pid: nat, session: int)
    requires SameFigures(s, t) && s.game == InGame && session != 998244353
    requires Answer(s, pid, session).Sees? && s.players[pid].playerId >= 0
    requires SameShape(s.field, t.field) && NoFog(s.field) && NoFog(t.field)
    ensures Answer(t, pid, session) == Answer(s, pid, session) <==> Alike(s.field, t.field, s.players[pid].playerId)
  {
    MaskIsExact(s.field, t.field, s.players[pid].playerId);
  }

  /** Maps that look the same to the player: his cells are the same, and so is every cell
      that is a mountain in either or close to his own. */
  ghost predicate LooksTheSame(f: Field, g: Field, p: int) {
    && SameShape(f, g)
    && (forall x, y | Inside(f, x, y) :: f[x][y].owner == p <==> g[x][y].owner == p)
    && forall x, y | Inside(f, x, y) && (f[x][y].kind == Mountain || g[x][y].kind == Mountain || Close(f, p, x, y)) ::
         f[x][y] == g[x][y]
  }

  lemma {:induction false} LooksTheSameIsAlike(f: Field, g: Field, p: int)
    requires LooksTheSame(f, g, p)
    ensures Alike(f, g, p)
  {
    forall x, y | Inside(f, x, y) && Near(f, p, x, y) ensures f[x][y] == g[x][y] {
      CloseIsNear(f, p, x, y);
    }
  }

  /** The bytes that an ordinary request is answered with, none for a refusal. */
  function BytesFor(g: Host, s: RoomState, pid: nat, session: int, unused: nat -> word): seq<byte> {
    match Answer(s, pid, session)
    case Sees(view) => if |Flat(view)| >= 1 then ReplyBytes(g, s, pid, session, view, unused) else []
    case _ => []
  }

  /** Not a byte of the answer depends on what the player may not see: in two games that
      look the same to him he is sent the same bytes. */
  lemma {:induction false} BytesDoNotInterfere(g: Host, s: RoomState, t: RoomState, pid: nat, session: int,
                                               unused: nat -> word)
    requires SameFigures(s, t) && Ordinary(s, session)
    requires pid < |s.players| ==> LooksTheSame(s.field, t.field, s.players[pid].playerId)
    ensures Answer(t, pid, session) == Answer(s, pid, session)
    ensures BytesFor(g, t, pid, session, unused) == BytesFor(g, s, pid, session, unused)
  {
    WhoIsAnswered(s, pid, session);
    if pid < |s.players| {
      LooksTheSameIsAlike(s.field, t.field, s.players[pid].playerId);
      MaskDoesNotInterfere(s.field, t.field, s.players[pid].playerId);
    }
    match Answer(s, pid, session)
    case Sees(view) =>
      assert MapReply(s, pid, session, view, unused) == MapReply(t, pid, session, view, unused);
    case _ =>
  }

  // ----- Over the network -----

  /** The client has the code, the sizes, the round, the stage of a running game by its
      number, and for every cell what the player may know of it. */
  ghost predicate Understood(h: Host, r: Received, s: RoomState, pid: nat) {
    && r.Got? && |r.block| >= 64
    && IntAt(h, r.block, 0) == 0xA06 && IntAt(h, r.block, 4) == s.sizeX && IntAt(h, r.block, 5) == s.sizeY
    && IntAt(h, r.block, 6) == s.round && IntAt(h, r.block, 7) == 1
    && forall row, col | 0 <= row < s.sizeX && 0 <= col < s.sizeY :: Tells(h, r.block, s, pid, row, col)
  }

  lemma {:induction false} AnswerIsUnderstood(s: RoomState, pid: nat, session: int, view: Field, unused: nat -> word,
                                              h: Host, rest: seq<Item>)
    returns (r: Received)
    requires Sendable(s) && s.sizeX * s.sizeY <= 4093 && session != 0
    requires Ordinary(s, session) && Answer(s, pid, session) == Sees(view)
    ensures r == Receive(h, Reply, Items(OnWire(MapReply(s, pid, session, view, unused))) + rest).0
    ensures Understood(h, r, s, pid)
  {
    AnswerArrives(s, pid, session, view, unused, h, rest);
    OwnNumber(s, pid);
    r := Receive(h, Reply, Items(OnWire(MapReply(s, pid, session, view, unused))) + rest).0;
    forall row, col | 0 <= row < s.sizeX && 0 <= col < s.sizeY ensures Tells(h, r.block, s, pid, row, col) {
      CellTells(h, r.block, s, pid, session, view, row, col);
    }
  }

  /** In every room that requests and ticks can lead to, as long as its figures fit an int,
      the reply that a player is sent tells his client this, and is honest about every cell. */
  lemma {:induction false} PlayerSeesNoMore(start: RoomState, events: seq<RoomSpec.Event>, pid: nat, session: int,
                                            unused: nat -> word, h: Host, rest: seq<Item>)
    returns (s: RoomState)
    requires RoomRuns.Inv(start) && start.sizeX * start.sizeY <= 4093 && |start.players| <= 0x8000_0000
    requires session != 0
    ensures s == Run(start, events)
    ensures s.round < 0x8000_0000 && MapInvariant.Ceiling(s.field, s.round) < 0x8000_0000
            && Ordinary(s, session) && Answer(s, pid, session).Sees? ==>
              var m := MapReply(s, pid, session, Answer(s, pid, session).view, unused);
              Understood(h, Receive(h, Reply, Items(OnWire(m)) + rest).0, s, pid)
  {
    s := Run(start, events);
    SizesStay(start, events);
    if s.round < 0x8000_0000 && MapInvariant.Ceiling(s.field, s.round) < 0x8000_0000
       && Ordinary(s, session) && Answer(s, pid, session).Sees? {
      var r := AnswerIsUnderstood(s, pid, session, Answer(s, pid, session).view, unused, h, rest);
    }
  }

  predicate Tells(h: Host, block: seq<byte>, s: RoomState, pid: nat, row: int, col: int) {
    && Inside(s.field, row, col) && 0 <= row * s.sizeY + col && 32 + 16 * (row * s.sizeY + col) + 16 <= |block|
    && Honest(GridAt(h, block, row * s.sizeY + col), s.field, pid, row, col)
  }

  lemma {:induction false} CellTells(h: Host, block: seq<byte>, s: RoomState, pid: nat, session: int, view: Field,
                                     row: nat, col: nat)
    requires row < s.sizeX && col < s.sizeY && HasSize(view, s.sizeX, s.sizeY) && Shows(h, block, s, view)
    requires Answer(s, pid, session) == Sees(view) && Ordinary(s, session) && s.players[pid].playerId == pid
    requires HasSize(s.field, s.sizeX, s.sizeY)
    ensures Tells(h, block, s, pid, row, col)
  {
    assert ShowsCell(h, block, row * s.sizeY + col, view[row][col]);
    ViewIsHonest(s, pid, session, view, row, col);
  }

  lemma {:induction false} IntArrives(h: Host, m: Message, k: nat, v: int)
    requires k < |m.words| && m.words[k] == OfInt(v) && IsInt(v)
    ensures IntAt(h, Layout(h, m), k) == v
  {
    LayoutInt(h, m, k);
    IntRoundTrip(v);
  }

  lemma {:induction false} Arrives(h: Host, m: Message, rest: seq<Item>) returns (r: Received)
    requires WellFormed(Reply, m)
    ensures r == Receive(h, Reply, Items(OnWire(m)) + rest).0 == Got(Layout(h, m)) && |r.block| >= 64
  {
    ReceiveOne(h, Reply, m, rest);
    r := Got(Layout(h, m));
  }

  /** The reply repeats the session, the room and the player of the request. */
  lemma {:induction false} ReplyEchoes(s: RoomState, pid: nat, session: int, view: Field, unused: nat -> word, h: Host,
                                       rest: seq<Item>)
    returns (r: Received)
    requires 1 <= |Flat(view)| <= 4093 && IsInt(session) && IsInt(s.id) && IsInt(pid)
    ensures r == Receive(h, Reply, Items(OnWire(MapReply(s, pid, session, view, unused))) + rest).0
    ensures r.Got? && |r.block| >= 64
    ensures IntAt(h, r.block, 1) == session && IntAt(h, r.block, 2) == s.id && IntAt(h, r.block, 3) == pid
  {
    var m := MapReply(s, pid, session, view, unused);
    ReplySize(s, pid, session, view, unused);
    r := Arrives(h, m, rest);
    var ws := HeaderInts(s, pid, session, view, unused);
    IntArrives(h, m, 1, session);
    IntArrives(h, m, 2, s.id);
    IntArrives(h, m, 3, pid);
  }

  /** One refresh over any network: whoever gets the map into his grid is alive and seated
      under his session in a running game, and holds fog for every cell but the mountains and
      those close to his own; or he has the built-in number, or the game is over. */
  method Refresh(room: Rooms.Room, pid: nat, session: int, g: Host, unused: nat -> word, script: seq<Acceptance>,
                 net: seq<byte> -> seq<Streams.Event>, client: Client)
    returns (shown: bool)
    requires room.Valid() && Sendable(room.State()) && forall b :: Pending(net(b)) == Items(b)
    modifies client
    ensures var s := room.State();
            shown && Ordinary(s, session) ==>
              && pid < |s.players| && session == s.players[pid].session
              && s.game == InGame && s.players[pid].state == Alive
              && forall row, col | 0 <= row < s.sizeX && 0 <= col < s.sizeY ::
                   Held(client.grid, s, s.players[pid].playerId, row, col)
    ensures !shown ==> client.grid == old(client.grid)
  {
    shown := RefreshMap(room, pid, session, g, unused, script, net, client);
    ghost var s := room.State();
    if shown && Ordinary(s, session) {
      WhoIsAnswered(s, pid, session);
      ghost var view := Answer(s, pid, session).view;
      forall row, col | 0 <= row < s.sizeX && 0 <= col < s.sizeY
        ensures Held(client.grid, s, s.players[pid].playerId, row, col)
      {
        GridHides(s, pid, session, view, client.grid, row, col);
      }
    }
  }

  predicate Held(grid: seq<Grid>, s: RoomState, p: int, row: int, col: int) {
    && Inside(s.field, row, col) && 0 <= row * s.sizeY + col < |grid|
    && Honest(grid[row * s.sizeY + col], s.field, p, row, col)
  }
}
