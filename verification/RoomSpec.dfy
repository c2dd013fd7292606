/** A room as a value, and what every request and every tick does to it. */
module RoomSpec {
  import opened GameMap
  import opened GameRound

  datatype GameState = Wait | InGame | End

  datatype PlayerState = Alive | Quited | Dead

  /** A seat; session 0 marks a free one. */
  datatype Player = Player(session: int, roomId: int, playerId: int, state: PlayerState,
                           homeX: int, homeY: int, name: string)

  const FREE_SEAT := Player(0, 0, 0, Alive, 0, 0, "")

  datatype RoomState = RoomState(id: int, passwd: string, sizeX: nat, sizeY: nat, game: GameState, round: nat,
                                 players: seq<Player>, queues: seq<seq<Action>>, field: Field)

  /** What is sent back: a refusal, or the success of one of the requests. Overread stands
      for a message that announces more actions than it holds, for which nothing is
      defined. */
  datatype Reply =
    | RoomFull | WrongPassword | VerifyError | AlreadyStarted | NotGoing | DiedOrQuited
    | Seated(playerId: int, session: int) | Started | QuitDone | Queued(count: int) | Overread

  // ----- Seats -----

  /** The lowest free seat at `from` or behind it, -1 if there is none. */
  function FirstFree(players: seq<Player>, from: nat): (i: int)
    requires from <= |players|
    ensures i == -1 || (from <= i < |players| && players[i].session == 0)
    ensures forall j | from <= j < |players| && (i == -1 || j < i) :: players[j].session != 0
    decreases |players| - from
  {
    if from == |players| then -1 else if players[from].session == 0 then from else FirstFree(players, from + 1)
  }

  function Seat(p: Player, roomId: int, playerId: int, session: int, name: string): Player {
    p.(session := session, roomId := roomId, playerId := playerId, name := name, state := Alive)
  }

  /** A new room with its owner in seat 0. */
  function Register(id: int, players: nat, sizeX: nat, sizeY: nat, name: string, passwd: string,
                    session: int): RoomState
    requires players >= 1
  {
    RoomState(id, passwd, sizeX, sizeY, Wait, 0,
              seq(players, i => if i == 0 then Seat(FREE_SEAT, id, 0, session, name) else FREE_SEAT),
              seq(players, _ => []), [])
  }

  function Join(s: RoomState, name: string, passwd: string, session: int): (RoomState, Reply) {
    var i := FirstFree(s.players, 0);
    if i == -1 then (s, RoomFull)
    else if passwd != s.passwd then (s, WrongPassword)
    else (s.(players := s.players[i := Seat(s.players[i], s.id, i, session, name)]), Seated(i, session))
  }

  // ----- Requests of a seated player -----

  predicate Verified(s: RoomState, pid: nat, session: int) {
    pid < |s.players| && session == s.players[pid].session
  }

  /** All coordinates, row by row. */
  predicate IsShuffle(points: seq<(int, int)>, sizeX: nat, sizeY: nat) {
    && |points| == sizeX * sizeY
    && (forall k | 0 <= k < |points| :: 0 <= points[k].0 < sizeX && 0 <= points[k].1 < sizeY)
    && (forall x, y | 0 <= x < sizeX && 0 <= y < sizeY :: (x, y) in points)
    && forall i, j | 0 <= i < j < |points| :: points[i] != points[j]
  }

  function IndexOf(points: seq<(int, int)>, p: (int, int)): (k: nat)
    ensures p in points ==> k < |points| && points[k] == p
  {
    if points == [] || points[0] == p then 0 else 1 + IndexOf(points[1..], p)
  }

  /** The cell at the k-th of the shuffled points: the homes come first, then a
      mountain, castle or space by a number drawn from 0 to 1. */
  function Drawn(k: nat, homes: nat, draws: seq<real>): Cell
    requires k < homes || k - homes < |draws|
  {
    if k < homes then Cell(Home, k, 0)
    else if draws[k - homes] < 0.1 then Cell(Mountain, NEUTRAL, 0)
    else if draws[k - homes] < 0.15 then Cell(Castle, NEUTRAL, CASTLE_DEFAULT)
    else Cell(Space, NEUTRAL, 0)
  }

  predicate MapInput(s: RoomState, points: seq<(int, int)>, draws: seq<real>) {
    IsShuffle(points, s.sizeX, s.sizeY) && |points| <= |draws| + |s.players|
  }

  function NewField(s: RoomState, points: seq<(int, int)>, draws: seq<real>): Field
    requires MapInput(s, points, draws)
  {
    seq(s.sizeX, x requires 0 <= x < s.sizeX =>
      seq(s.sizeY, y requires 0 <= y < s.sizeY => Drawn(IndexOf(points, (x, y)), |s.players|, draws)))
  }

  function Housed(players: seq<Player>, points: seq<(int, int)>): (ps: seq<Player>)
    ensures |ps| == |players|
    ensures forall i | 0 <= i < |ps| ::
              ps[i] == if i < |points| then players[i].(homeX := points[i].0, homeY := points[i].1) else players[i]
  {
    seq(|players|, i requires 0 <= i < |players| =>
      if i < |points| then players[i].(homeX := points[i].0, homeY := points[i].1) else players[i])
  }

  function Start(s: RoomState, pid: nat, session: int, points: seq<(int, int)>, draws: seq<real>): (RoomState, Reply)
    requires MapInput(s, points, draws)
  {
    if !Verified(s, pid, session) then (s, VerifyError)
    else if s.game != Wait then (s, AlreadyStarted)
    else (s.(game := InGame, field := NewField(s, points, draws), players := Housed(s.players, points)), Started)
  }

  function Quit(s: RoomState, pid: nat, session: int): (RoomState, Reply) {
    if !Verified(s, pid, session) then (s, VerifyError)
    else
      var p := if s.game != Wait then s.players[pid].(state := Quited) else FREE_SEAT;
      (s.(players := s.players[pid := p]), QuitDone)
  }

  /** Actions are queued under the number in the seat, which is that of the seat when
      somebody sits there. */
  function Act(s: RoomState, pid: nat, session: int, actions: seq<Action>): (RoomState, Reply) {
    if !Verified(s, pid, session) then (s, VerifyError)
    else if s.game != InGame then (s, NotGoing)
    else if s.players[pid].state != Alive then (s, DiedOrQuited)
    else
      (s.(queues := Pushed(s.queues, s.players[pid].playerId, actions)), Queued(|actions|))
  }

  /** A message with the actions `held` that announces `num` of them. */
  function Submit(s: RoomState, pid: nat, session: int, held: seq<Action>, num: int): (RoomState, Reply) {
    var (t, reply) := Act(s, pid, session, Announced(held, num));
    if !reply.Queued? then (s, reply) else if num > |held| then (s, Overread) else (t, Queued(num))
  }

  function Announced(held: seq<Action>, num: int): seq<Action> {
    if num <= 0 then [] else if num > |held| then held else held[..num]
  }

  function Pushed(queues: seq<seq<Action>>, q: int, actions: seq<Action>): (qs: seq<seq<Action>>)
    ensures |qs| == |queues|
    ensures forall i | 0 <= i < |qs| :: qs[i] == if i == q then queues[i] + actions else queues[i]
  {
    seq(|queues|, i requires 0 <= i < |queues| => if i == q then queues[i] + actions else queues[i])
  }

  // ----- The tick -----

  function OwnerAt(f: Field, x: int, y: int): int {
    if Inside(f, x, y) then f[x][y].owner else NEUTRAL
  }

  function Judge(p: Player, pid: nat, f: Field): Player {
    if OwnerAt(f, p.homeX, p.homeY) != pid then p.(state := Dead) else p
  }

  function Judged(players: seq<Player>, f: Field): (ps: seq<Player>)
    ensures |ps| == |players|
    ensures forall i | 0 <= i < |ps| :: ps[i] == Judge(players[i], i, f)
  {
    seq(|players|, i requires 0 <= i < |players| => Judge(players[i], i, f))
  }

  function AliveCount(players: seq<Player>): nat {
    if players == [] then 0
    else AliveCount(players[..|players| - 1]) + (if players[|players| - 1].state == Alive then 1 else 0)
  }

  /** The end of a round that leaves the map `field`. */
  function Advance(s: RoomState, field: Field): RoomState {
    var players := Judged(s.players, field);
    s.(round := s.round + 1, field := field, queues := Popped(s.queues, |s.queues|), players := players,
       game := if AliveCount(players) <= 1 then End else s.game)
  }

  function NextRound(s: RoomState): RoomState {
    Advance(s, PlayRound(s.field, s.round + 1, s.queues))
  }

  /** The game handler plays a round in the rooms that are in a game. */
  function Tick(s: RoomState): RoomState {
    if s.game == InGame then NextRound(s) else s
  }

  // ----- Runs -----

  datatype Event =
    | JoinEvent(name: string, passwd: string, session: int)
    | StartEvent(pid: nat, session: int, points: seq<(int, int)>, draws: seq<real>)
    | QuitEvent(pid: nat, session: int)
    | ActEvent(pid: nat, session: int, actions: seq<Action>)
    | TickEvent

  function Apply(s: RoomState, e: Event): RoomState {
    match e
    case JoinEvent(name, passwd, session) => Join(s, name, passwd, session).0
    case StartEvent(pid, session, points, draws) =>
      if MapInput(s, points, draws) then Start(s, pid, session, points, draws).0 else s
    case QuitEvent(pid, session) => Quit(s, pid, session).0
    case ActEvent(pid, session, actions) => Act(s, pid, session, actions).0
    case TickEvent => Tick(s)
  }

  /** The room after a sequence of requests and ticks, in any order. */
  function Run(s: RoomState, events: seq<Event>): RoomState {
    if events == [] then s else Apply(Run(s, events[..|events| - 1]), events[|events| - 1])
  }
}
