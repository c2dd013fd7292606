/** What holds in every state a room can reach, and between any two of them. */
module RoomRuns {
  import opened GameMap
  import opened GameRound
  import opened MapInvariant
  import opened RoomSpec

  // ----- The invariant -----

  /** Seats carry their own number once somebody sits there, and else that or 0. */
  predicate GoodSeats(s: RoomState) {
    && |s.players| >= 1 && |s.queues| == |s.players|
    && forall i | 0 <= i < |s.players| ::
         && (s.players[i].playerId == i || (s.players[i].playerId == 0 && s.players[i].session == 0))
         && 0 <= s.players[i].homeX < s.sizeX && 0 <= s.players[i].homeY < s.sizeY
  }

  predicate IsHome(s: RoomState, i: nat)
    requires i < |s.players|
  {
    var p := s.players[i];
    Inside(s.field, p.homeX, p.homeY) && s.field[p.homeX][p.homeY].kind == Home
  }

  /** The homes are distinct cells of type home, one for each seat as long as the map
      has cells. */
  predicate GoodHomes(s: RoomState) {
    && (forall i | 0 <= i < |s.players| && i < s.sizeX * s.sizeY :: IsHome(s, i))
    && forall i, j | 0 <= i < j < |s.players| && j < s.sizeX * s.sizeY ::
         (s.players[i].homeX, s.players[i].homeY) != (s.players[j].homeX, s.players[j].homeY)
  }

  ghost predicate GoodGame(s: RoomState) {
    && HasSize(s.field, s.sizeX, s.sizeY) && GoodField(s.field, |s.players|)
    && Sum(Troops(), s.field) <= Ceiling(s.field, s.round)
    && GoodHomes(s)
  }

  ghost predicate Inv(s: RoomState) {
    && s.sizeX >= 1 && s.sizeY >= 1 && GoodSeats(s)
    && (s.game == Wait ==> s.round == 0 && forall q | 0 <= q < |s.queues| :: s.queues[q] == [])
    && (s.game != Wait ==> GoodGame(s))
  }

  lemma {:induction false} RegisterInv(id: int, players: nat, sizeX: nat, sizeY: nat, name: string, passwd: string,
                                       session: int)
    requires players >= 1 && sizeX >= 1 && sizeY >= 1
    ensures Inv(Register(id, players, sizeX, sizeY, name, passwd, session))
  {
  }

  /** Seats changed, but nobody's home, and the map is as it was. */
  lemma {:induction false} SeatsInv(s: RoomState, t: RoomState)
    requires Inv(s) && GoodSeats(t)
    requires t == s.(players := t.players, queues := t.queues) && |t.players| == |s.players|
    requires s.game == Wait ==> t.queues == s.queues
    requires s.game != Wait ==> forall i | 0 <= i < |s.players| ::
               t.players[i].homeX == s.players[i].homeX && t.players[i].homeY == s.players[i].homeY
    ensures Inv(t)
  {
    if s.game != Wait {
      assert forall i | 0 <= i < |s.players| :: IsHome(t, i) == IsHome(s, i);
    }
  }

  lemma {:induction false} NewFieldCells(s: RoomState, points: seq<(int, int)>, draws: seq<real>, x: int, y: int)
    requires MapInput(s, points, draws) && 0 <= x < s.sizeX && 0 <= y < s.sizeY
    ensures var k := IndexOf(points, (x, y));
            k < |points| && NewField(s, points, draws)[x][y] == Drawn(k, |s.players|, draws)
  {
    assert (x, y) in points;
  }

  lemma {:induction false} NewCellGood(s: RoomState, points: seq<(int, int)>, draws: seq<real>, x: int, y: int)
    requires MapInput(s, points, draws) && 0 <= x < s.sizeX && 0 <= y < s.sizeY
    ensures var c := NewField(s, points, draws)[x][y];
            GoodCell(c, |s.players|) && c.soldiers <= (if c.kind == Castle then CASTLE_DEFAULT else 0)
  {
    NewFieldCells(s, points, draws, x, y);
  }

  lemma {:induction false} NewFieldGood(s: RoomState, points: seq<(int, int)>, draws: seq<real>)
    requires MapInput(s, points, draws)
    ensures GoodField(NewField(s, points, draws), |s.players|)
    ensures Sum(Troops(), NewField(s, points, draws)) <= Ceiling(NewField(s, points, draws), 0)
  {
    var f := NewField(s, points, draws);
    forall x, y | Inside(f, x, y)
      ensures GoodCell(f[x][y], |s.players|)
      ensures f[x][y].soldiers <= (if f[x][y].kind == Castle then CASTLE_DEFAULT else 0)
    {
      NewCellGood(s, points, draws, x, y);
    }
    CastlesHold(f);
  }

  lemma {:induction false} RowCastlesHold(row: seq<Cell>)
    requires forall y | 0 <= y < |row| :: row[y].soldiers <= (if row[y].kind == Castle then CASTLE_DEFAULT else 0)
    ensures RowSum(Troops(), row) <= CASTLE_DEFAULT * RowSum(OfKind(Castle), row)
  {
    if row != [] {
      RowCastlesHold(row[..|row| - 1]);
    }
  }

  /** 40 soldiers for every castle. */
  lemma {:induction false} CastlesHold(f: Field)
    requires forall x, y | Inside(f, x, y) :: f[x][y].soldiers <= (if f[x][y].kind == Castle then CASTLE_DEFAULT else 0)
    ensures Sum(Troops(), f) <= CASTLE_DEFAULT * Count(Castle, f)
  {
    if f != [] {
      var n := |f| - 1;
      assert forall y | 0 <= y < |f[n]| :: Inside(f, n, y);
      assert forall x, y | Inside(f[..n], x, y) :: Inside(f, x, y);
      CastlesHold(f[..n]);
      RowCastlesHold(f[n]);
    }
  }

  function Started(s: RoomState, points: seq<(int, int)>, draws: seq<real>): RoomState
    requires MapInput(s, points, draws)
  {
    s.(game := InGame, field := NewField(s, points, draws), players := Housed(s.players, points))
  }

  lemma {:induction false} NewHomes(s: RoomState, points: seq<(int, int)>, draws: seq<real>, i: nat)
    requires MapInput(s, points, draws) && i < |s.players| && i < |points|
    ensures var t := Started(s, points, draws);
            IsHome(t, i) && (t.players[i].homeX, t.players[i].homeY) == points[i]
  {
    var p := points[i];
    NewFieldCells(s, points, draws, p.0, p.1);
    IndexIsUnique(points, i);
  }

  /** The cells at the other points are drawn: mountains with probability 0.1, castles of
      40 with probability 0.05, empty spaces else, all of them neutral. */
  predicate IsDrawn(c: Cell, p: real) {
    && c.owner == -1 && c.soldiers == (if c.kind == Castle then 40 else 0)
    && (c.kind == Mountain <==> p < 0.1) && (c.kind == Castle <==> 0.1 <= p < 0.1 + 0.05)
    && (c.kind == Space <==> 0.1 + 0.05 <= p)
  }

  lemma {:induction false} DrawnMeans(i: nat, homes: nat, draws: seq<real>)
    requires i < homes || i - homes < |draws|
    ensures if i < homes then Drawn(i, homes, draws) == Cell(Home, i, 0)
            else IsDrawn(Drawn(i, homes, draws), draws[i - homes])
  {
  }

  lemma {:induction false} ShuffledPoint(s: RoomState, points: seq<(int, int)>, draws: seq<real>, i: nat)
    returns (x: int, y: int)
    requires MapInput(s, points, draws) && i < |points|
    ensures (x, y) == points[i] && 0 <= x < s.sizeX && 0 <= y < s.sizeY && IndexOf(points, (x, y)) == i
  {
    x, y := points[i].0, points[i].1;
    IndexIsUnique(points, i);
  }

  lemma {:induction false} NewCells(s: RoomState, points: seq<(int, int)>, draws: seq<real>, i: nat)
    returns (x: int, y: int, c: Cell)
    requires MapInput(s, points, draws) && i < |points|
    ensures (x, y) == points[i] && 0 <= x < s.sizeX && 0 <= y < s.sizeY && c == NewField(s, points, draws)[x][y]
    ensures if i < |s.players| then c == Cell(Home, i, 0) else IsDrawn(c, draws[i - |s.players|])
  {
    x, y := ShuffledPoint(s, points, draws, i);
    NewFieldCells(s, points, draws, x, y);
    c := NewField(s, points, draws)[x][y];
    DrawnMeans(i, |s.players|, draws);
  }

  lemma {:induction false} NewGoodHomes(s: RoomState, points: seq<(int, int)>, draws: seq<real>)
    requires MapInput(s, points, draws)
    ensures GoodHomes(Started(s, points, draws))
  {
    var t := Started(s, points, draws);
    forall i | 0 <= i < |s.players| && i < |points|
      ensures IsHome(t, i) && (t.players[i].homeX, t.players[i].homeY) == points[i]
    {
      NewHomes(s, points, draws, i);
    }
  }

  lemma {:induction false} NewGoodSeats(s: RoomState, points: seq<(int, int)>, draws: seq<real>)
    requires MapInput(s, points, draws) && GoodSeats(s)
    ensures GoodSeats(Started(s, points, draws))
  {
  }

  lemma {:induction false} StartedIs(s: RoomState, pid: nat, session: int, points: seq<(int, int)>, draws: seq<real>)
    requires MapInput(s, points, draws) && Verified(s, pid, session) && s.game == Wait
    ensures Start(s, pid, session, points, draws).0 == Started(s, points, draws)
  {
  }

  lemma {:induction false} StartedInv(s: RoomState, points: seq<(int, int)>, draws: seq<real>) returns (t: RoomState)
    requires Inv(s) && MapInput(s, points, draws) && s.game == Wait
    ensures t == Started(s, points, draws) && Inv(t)
  {
    t := Started(s, points, draws);
    NewFieldGood(s, points, draws);
    NewGoodSeats(s, points, draws);
    NewGoodHomes(s, points, draws);
  }

  lemma {:induction false} StartInv(s: RoomState, pid: nat, session: int, points: seq<(int, int)>, draws: seq<real>)
    requires Inv(s) && MapInput(s, points, draws)
    ensures Inv(Start(s, pid, session, points, draws).0)
  {
    if Verified(s, pid, session) && s.game == Wait {
      var t := StartedInv(s, points, draws);
      StartedIs(s, pid, session, points, draws);
    }
  }

  lemma {:induction false} IndexIsUnique(points: seq<(int, int)>, k: nat)
    requires k < |points| && forall i, j | 0 <= i < j < |points| :: points[i] != points[j]
    ensures IndexOf(points, points[k]) == k
  {
    if k > 0 {
      assert points[0] != points[k];
      IndexIsUnique(points[1..], k - 1);
    }
  }

  lemma {:induction false} HomesStay(s: RoomState, t: RoomState)
    requires GoodHomes(s) && Evolves(s.field, t.field) && |t.players| == |s.players|
    requires t.sizeX == s.sizeX && t.sizeY == s.sizeY
    requires forall i | 0 <= i < |s.players| ::
               t.players[i].homeX == s.players[i].homeX && t.players[i].homeY == s.players[i].homeY
    ensures GoodHomes(t)
  {
    forall i | 0 <= i < |t.players| && i < t.sizeX * t.sizeY ensures IsHome(t, i) {
      assert IsHome(s, i);
    }
  }

  lemma {:induction false} AdvanceInv(s: RoomState, field: Field)
    requires Inv(s) && s.game == InGame
    requires Evolves(s.field, field) && GoodField(field, |s.players|)
    requires Sum(Troops(), field) <= Ceiling(field, s.round + 1)
    ensures Inv(Advance(s, field))
  {
    HomesStay(s, Advance(s, field));
  }

  lemma {:induction false} RoundFacts(f: Field, round: nat, queues: seq<seq<Action>>) returns (field: Field)
    requires GoodField(f, |queues|) && Sum(Troops(), f) <= Ceiling(f, round)
    ensures field == PlayRound(f, round + 1, queues)
    ensures Evolves(f, field) && GoodField(field, |queues|) && Sum(Troops(), field) <= Ceiling(field, round + 1)
  {
    RoundKeeps(f, round + 1, queues);
    RoundBound(f, round, queues);
    field := PlayRound(f, round + 1, queues);
  }

  lemma {:induction false} NextRoundIs(s: RoomState, field: Field)
    requires field == PlayRound(s.field, s.round + 1, s.queues)
    ensures NextRound(s) == Advance(s, field)
  {
  }

  lemma {:induction false} NextRoundInv(s: RoomState)
    requires Inv(s) && s.game == InGame
    ensures Inv(NextRound(s))
  {
    var field := RoundFacts(s.field, s.round, s.queues);
    AdvanceInv(s, field);
    NextRoundIs(s, field);
  }

  lemma {:induction false} ApplyInv(s: RoomState, e: Event)
    requires Inv(s)
    ensures Inv(Apply(s, e))
  {
    match e
    case JoinEvent(name, passwd, session) => SeatsInv(s, Apply(s, e));
    case StartEvent(pid, session, points, draws) =>
      if MapInput(s, points, draws) {
        StartInv(s, pid, session, points, draws);
      }
    case QuitEvent(pid, session) => SeatsInv(s, Apply(s, e));
    case ActEvent(pid, session, actions) => SeatsInv(s, Apply(s, e));
    case TickEvent =>
      if s.game == InGame {
        NextRoundInv(s);
      }
  }

  /** Every reachable state satisfies the invariant. */
  lemma {:induction false} RunInv(s: RoomState, events: seq<Event>)
    requires Inv(s)
    ensures Inv(Run(s, events))
  {
    if events != [] {
      RunInv(s, events[..|events| - 1]);
      ApplyInv(Run(s, events[..|events| - 1]), events[|events| - 1]);
    }
  }

  // ----- Between two states of a run -----

  function Stage(g: GameState): nat {
    match g case Wait => 0 case InGame => 1 case End => 2
  }

  /** What never goes back: the stage of the game, a seat that died or quit, and, once
      the game started, the map's types and owners and everybody's home. */
  ghost predicate Later(s: RoomState, t: RoomState) {
    && t.id == s.id && t.sizeX == s.sizeX && t.sizeY == s.sizeY && |t.players| == |s.players|
    && Stage(s.game) <= Stage(t.game) && s.round <= t.round
    && (s.game != Wait ==>
          && Evolves(s.field, t.field)
          && forall i | 0 <= i < |s.players| ::
               && t.players[i].homeX == s.players[i].homeX && t.players[i].homeY == s.players[i].homeY
               && (s.players[i].session != 0 ==>
                     && t.players[i].session == s.players[i].session
                     && (s.players[i].state != Alive ==> t.players[i].state != Alive)))
  }

  lemma {:induction false} LaterTransitively(s: RoomState, t: RoomState, u: RoomState)
    requires Later(s, t) && Later(t, u)
    ensures Later(s, u)
  {
    if s.game != Wait {
      EvolvesTransitively(s.field, t.field, u.field);
    }
  }

  lemma {:induction false} AdvanceLater(s: RoomState, field: Field)
    requires Inv(s) && s.game == InGame && Evolves(s.field, field)
    ensures Later(s, Advance(s, field))
  {
  }

  lemma {:induction false} NextRoundLater(s: RoomState)
    requires Inv(s) && s.game == InGame
    ensures Later(s, NextRound(s))
  {
    var field := RoundFacts(s.field, s.round, s.queues);
    AdvanceLater(s, field);
    NextRoundIs(s, field);
  }

  lemma {:induction false} ApplyLater(s: RoomState, e: Event)
    requires Inv(s)
    ensures Later(s, Apply(s, e))
  {
    if e.TickEvent? && s.game == InGame {
      NextRoundLater(s);
    }
  }

  lemma {:induction false} RunLater(s: RoomState, events: seq<Event>, from: nat)
    requires Inv(s) && from <= |events|
    ensures Later(Run(s, events[..from]), Run(s, events))
  {
    if from == |events| {
      assert events[..from] == events;
    } else {
      var init := events[..|events| - 1];
      RunLater(s, init, from);
      assert init[..from] == events[..from];
      RunInv(s, init);
      ApplyLater(Run(s, init), events[|events| - 1]);
      LaterTransitively(Run(s, events[..from]), Run(s, init), Run(s, events));
    }
  }

  // ----- After a round -----

  lemma {:induction false} AliveCountIs(players: seq<Player>, a: nat, b: nat)
    requires a < b < |players| && players[a].state == Alive && players[b].state == Alive
    ensures AliveCount(players) >= 2
  {
    var init := players[..|players| - 1];
    if b < |players| - 1 {
      AliveCountIs(init, a, b);
    } else {
      AliveCountSome(init, a);
    }
  }

  lemma {:induction false} AliveCountSome(players: seq<Player>, a: nat)
    requires a < |players| && players[a].state == Alive
    ensures AliveCount(players) >= 1
  {
    if a < |players| - 1 {
      AliveCountSome(players[..|players| - 1], a);
    }
  }

  lemma {:induction false} AliveWitness(players: seq<Player>) returns (a: nat)
    requires AliveCount(players) >= 1
    ensures a < |players| && players[a].state == Alive
  {
    if players[|players| - 1].state == Alive {
      a := |players| - 1;
    } else {
      a := AliveWitness(players[..|players| - 1]);
    }
  }

  lemma {:induction false} AliveWitnesses(players: seq<Player>) returns (a: nat, b: nat)
    requires AliveCount(players) >= 2
    ensures a < b < |players| && players[a].state == Alive && players[b].state == Alive
  {
    if players[|players| - 1].state == Alive {
      b := |players| - 1;
      a := AliveWitness(players[..b]);
    } else {
      a, b := AliveWitnesses(players[..|players| - 1]);
    }
  }

  ghost predicate TwoAlive(players: seq<Player>) {
    exists a, b | 0 <= a < b < |players| :: players[a].state == Alive && players[b].state == Alive
  }

  lemma {:induction false} CountTwo(players: seq<Player>)
    ensures AliveCount(players) >= 2 <==> TwoAlive(players)
  {
    if AliveCount(players) >= 2 {
      var a, b := AliveWitnesses(players);
    }
    if TwoAlive(players) {
      var a, b :| 0 <= a < b < |players| && players[a].state == Alive && players[b].state == Alive;
      AliveCountIs(players, a, b);
    }
  }

  /** Everybody alive owns his home. */
  predicate AliveAtHome(s: RoomState) {
    forall i | 0 <= i < |s.players| && s.players[i].state == Alive ::
      OwnerAt(s.field, s.players[i].homeX, s.players[i].homeY) == i
  }

  /** Who owns his home stays as he was, everybody else is dead, and nobody leaves his
      seat. */
  predicate SparesTheRest(s: RoomState, t: RoomState) {
    && |t.players| == |s.players|
    && forall i | 0 <= i < |s.players| ::
         && t.players[i] == s.players[i].(state := t.players[i].state)
         && if OwnerAt(t.field, s.players[i].homeX, s.players[i].homeY) == i then t.players[i] == s.players[i]
            else t.players[i].state == Dead
  }

  lemma {:induction false} AfterAdvance(s: RoomState, field: Field)
    requires s.game == InGame
    ensures var t := Advance(s, field);
            && AliveAtHome(t) && SparesTheRest(s, t)
            && (t.game == InGame <==> TwoAlive(t.players)) && (t.game == End <==> !TwoAlive(t.players))
  {
    CountTwo(Advance(s, field).players);
  }

  /** After a round everybody alive owns his home, nobody else's state changed, and the
      game goes on exactly when two or more are alive. */
  lemma {:induction false} AfterRound(s: RoomState)
    requires s.game == InGame
    ensures var t := NextRound(s);
            && AliveAtHome(t) && SparesTheRest(s, t)
            && (t.game == InGame <==> TwoAlive(t.players)) && (t.game == End <==> !TwoAlive(t.players))
  {
    var field := PlayRound(s.field, s.round + 1, s.queues);
    AfterAdvance(s, field);
    NextRoundIs(s, field);
  }

  /** A seated player who died or quit in a started game never queues an action again. */
  lemma {:induction false} NeverActsAgain(s: RoomState, events: seq<Event>, pid: nat, session: int,
                                          actions: seq<Action>)
    requires Inv(s) && s.game != Wait && session != 0
    requires Verified(s, pid, session) && s.players[pid].state != Alive
    ensures var t := Run(s, events);
            Verified(t, pid, session) && Act(t, pid, session, actions).0 == t
            && !Act(t, pid, session, actions).1.Queued?
  {
    RunLater(s, events, 0);
    assert events[..0] == [];
  }

  /** Before the game starts, quitting undoes joining exactly if the seat was as new. It
      is not where somebody joined it under session 0 and left his name. */
  lemma {:induction false} QuitUndoesJoin(s: RoomState, name: string, passwd: string, session: int)
    requires s.game == Wait && Join(s, name, passwd, session).1.Seated?
    ensures var (t, reply) := Join(s, name, passwd, session);
            Quit(t, reply.playerId, session) == (s, QuitDone) <==> s.players[reply.playerId] == FREE_SEAT
  {
    var i := FirstFree(s.players, 0);
    var ps := Join(s, name, passwd, session).0.players[i := FREE_SEAT];
    if s.players[i] == FREE_SEAT {
      assert ps == s.players;
    } else {
      assert ps[i] != s.players[i];
    }
  }

  /** Nor for the seat of somebody who left his name under session 0: whoever joins it next
      and quits takes the name with him. */
  lemma {:induction false} NameIsLost(s: RoomState, name: string, passwd: string, other: string, session: int)
    requires s.game == Wait && Join(s, name, passwd, 0).1.Seated? && name != ""
    ensures var t := Join(s, name, passwd, 0).0;
            var (u, reply) := Join(t, other, passwd, session);
            reply.Seated? && Quit(u, reply.playerId, session) != (t, QuitDone)
  {
    JoinTakesSeat(s, name, passwd, 0);
    QuitUndoesJoin(Join(s, name, passwd, 0).0, other, passwd, session);
  }

  lemma {:induction false} CeilingIs(f: Field, round: nat) returns (c: int)
    ensures c == Ceiling(f, round)
    ensures var homes, castles := Sum(OfKind(Home), f), Sum(OfKind(Castle), f);
            c == 40 * castles + round * (homes + castles) + round / 25 * Sum(OfKind(Space), f)
  {
    c := Ceiling(f, round);
  }

  /** After any run the map holds at most 40 soldiers for every castle, one a round for
      every home and castle, and one every 25 rounds for every space. */
  lemma {:induction false} SoldierBound(s: RoomState, events: seq<Event>) returns (t: RoomState)
    requires Inv(s)
    ensures t == Run(s, events)
    ensures t.game != Wait ==>
              var homes, castles := Sum(OfKind(Home), t.field), Sum(OfKind(Castle), t.field);
              Sum(Troops(), t.field)
              <= 40 * castles + t.round * (homes + castles) + t.round / 25 * Sum(OfKind(Space), t.field)
  {
    t := Run(s, events);
    RunInv(s, events);
    var c := CeilingIs(t.field, t.round);
  }

  // ----- The action queues -----

  /** What an event appends to a queue, and what it takes from it. */
  function Accepted(s: RoomState, e: Event, q: nat): seq<Action> {
    match e
    case ActEvent(pid, session, actions) =>
      if Act(s, pid, session, actions).1.Queued? && s.players[pid].playerId == q then actions else []
    case _ => []
  }

  function Taken(s: RoomState, e: Event, q: nat): seq<Action> {
    if e.TickEvent? && s.game == InGame && q < |s.queues| && s.queues[q] != [] then [s.queues[q][0]] else []
  }

  function AllAccepted(s: RoomState, events: seq<Event>, q: nat): seq<Action> {
    if events == [] then []
    else
      var init := events[..|events| - 1];
      AllAccepted(s, init, q) + Accepted(Run(s, init), events[|events| - 1], q)
  }

  function AllTaken(s: RoomState, events: seq<Event>, q: nat): seq<Action> {
    if events == [] then []
    else
      var init := events[..|events| - 1];
      AllTaken(s, init, q) + Taken(Run(s, init), events[|events| - 1], q)
  }

  lemma {:induction false} PoppedQueue(queues: seq<seq<Action>>, q: nat)
    requires q < |queues|
    ensures queues[q] == (if queues[q] != [] then [queues[q][0]] else []) + Popped(queues, |queues|)[q]
  {
  }

  lemma {:induction false} ApplyQueue(s: RoomState, e: Event, q: nat)
    requires Inv(s) && q < |s.queues|
    ensures |Apply(s, e).queues| == |s.queues|
    ensures s.queues[q] + Accepted(s, e, q) == Taken(s, e, q) + Apply(s, e).queues[q]
  {
    if e.TickEvent? {
      PoppedQueue(s.queues, q);
    }
  }

  /** The maps from one turn of a tick to the next. */
  predicate CarriesOut(s: RoomState, maps: seq<Field>, n: nat) {
    n + 1 < |maps|
    && var a := Taken(s, TickEvent, n); maps[n + 1] == if a == [] then maps[n] else Move(maps[n], n, a[0])
  }

  lemma {:induction false} TurnByTurn(s: RoomState, f: Field) returns (maps: seq<Field>)
    requires s.game == InGame
    ensures |maps| == |s.queues| + 1 && maps[0] == f && maps[|s.queues|] == Play(f, s.queues, |s.queues|)
    ensures forall n | 0 <= n < |s.queues| :: CarriesOut(s, maps, n)
  {
    maps := seq(|s.queues| + 1, n requires 0 <= n <= |s.queues| => Play(f, s.queues, n));
    forall n | 0 <= n < |s.queues| ensures CarriesOut(s, maps, n) {
      FrontIsPlayed(f, s.queues, n);
    }
  }

  /** A tick carries out just the actions it takes from the queues, player by player, on
      the map as it has grown for the round that begins. */
  lemma {:induction false} TickCarriesOut(s: RoomState) returns (maps: seq<Field>)
    requires s.game == InGame
    ensures |maps| == |s.queues| + 1 && maps[0] == Grow(s.field, s.round + 1)
    ensures forall n | 0 <= n < |s.queues| :: CarriesOut(s, maps, n)
    ensures Tick(s).field == maps[|s.queues|] && Tick(s).round == s.round + 1
  {
    maps := TurnByTurn(s, Grow(s.field, s.round + 1));
    NextRoundIs(s, maps[|s.queues|]);
  }

  /** Before the start and after the end a tick changes nothing. */
  lemma {:induction false} IdleTick(s: RoomState)
    ensures s.game == Wait || s.game == End <==> Tick(s) == s
  {
    if s.game == InGame {
      assert Tick(s).round == s.round + 1;
    }
  }

  /** What a tick does to the soldiers of an owner. */
  lemma {:induction false} TickAccount(s: RoomState, owner: int)
    requires s.game == InGame
    ensures Sum(TroopsOf(owner), Tick(s).field)
            == Sum(TroopsOf(owner), s.field) + Growth(s.field, s.round + 1, owner)
               - Casualties(BattlesOf(s.field, s.round + 1, s.queues), owner)
  {
    RoundAccount(s.field, s.round + 1, s.queues, owner);
    NextRoundIs(s, PlayRound(s.field, s.round + 1, s.queues));
  }

  /** The ticks that found the room in a game. */
  function Rounds(s: RoomState, events: seq<Event>): nat {
    if events == [] then 0
    else
      var init, e := events[..|events| - 1], events[|events| - 1];
      Rounds(s, init) + (if e.TickEvent? && Run(s, init).game == InGame then 1 else 0)
  }

  /** They are the rounds played. */
  lemma {:induction false} RoundsAreTicks(s: RoomState, events: seq<Event>)
    ensures Run(s, events).round == s.round + Rounds(s, events)
  {
    if events != [] {
      RoundsAreTicks(s, events[..|events| - 1]);
    }
  }

  lemma {:induction false} Splice<T>(start: seq<T>, given: seq<T>, taken: seq<T>, middle: seq<T>, more: seq<T>,
                                     popped: seq<T>, left: seq<T>)
    requires start + given == taken + middle && middle + more == popped + left
    ensures start + (given + more) == taken + popped + left
  {
    assert start + (given + more) == start + given + more;
    assert taken + middle + more == taken + (middle + more);
    assert taken + (popped + left) == taken + popped + left;
  }

  /** First in, first out: in every run, what a queue held and what it was given is
      what was taken from it, in order, and what it still holds. */
  lemma {:induction false} Fifo(s: RoomState, events: seq<Event>, q: nat)
    requires Inv(s) && q < |s.queues|
    ensures |Run(s, events).queues| == |s.queues|
    ensures s.queues[q] + AllAccepted(s, events, q) == AllTaken(s, events, q) + Run(s, events).queues[q]
  {
    if events != [] {
      var init, e := events[..|events| - 1], events[|events| - 1];
      Fifo(s, init, q);
      RunInv(s, init);
      var m := Run(s, init);
      ApplyQueue(m, e, q);
      Splice(s.queues[q], AllAccepted(s, init, q), AllTaken(s, init, q), m.queues[q],
             Accepted(m, e, q), Taken(m, e, q), Apply(m, e).queues[q]);
    }
  }

  /** A player adds to his own queue and to no other exactly if his seat carries his
      number, which it does for everybody seated. A free seat may be asked for under
      session 0, and carries the number 0. */
  lemma {:induction false} OwnQueue(s: RoomState, pid: nat, session: int, actions: seq<Action>)
    requires Inv(s) && Act(s, pid, session, actions).1.Queued?
    ensures var t := Act(s, pid, session, actions).0;
            (forall q | 0 <= q < |s.queues| ::
               t.queues[q] == if q == pid then s.queues[q] + actions else s.queues[q])
            <==> s.players[pid].playerId == pid || actions == []
    ensures session != 0 ==> s.players[pid].playerId == pid
  {
    var t, p := Act(s, pid, session, actions).0, s.players[pid].playerId;
    if p != pid && actions != [] {
      assert |t.queues[p]| == |s.queues[p]| + |actions|;
    }
    assert actions == [] ==> forall q | 0 <= q < |s.queues| :: s.queues[q] + actions == s.queues[q];
  }

  /** A message is read behind its end exactly if it is accepted and announces more actions
      than it holds. */
  lemma {:induction false} SubmitOverreads(s: RoomState, pid: nat, session: int, held: seq<Action>, num: int)
    ensures Submit(s, pid, session, held, num).1.Overread?
            <==> Verified(s, pid, session) && s.game == InGame && s.players[pid].state == Alive && num > |held|
  {
  }

  /** Whoever asks for a free seat adds to the queue of player 0. */
  lemma {:induction false} FreeSeatQueuesForFirst(s: RoomState, pid: nat, actions: seq<Action>)
    requires Inv(s) && s.game == InGame && pid < |s.players| && s.players[pid] == FREE_SEAT
    ensures Act(s, pid, 0, actions).1 == Queued(|actions|)
    ensures Act(s, pid, 0, actions).0.queues[0] == s.queues[0] + actions
  {
  }

  /** A seat is taken by whoever joins exactly when the session issued is not 0. */
  lemma {:induction false} JoinTakesSeat(s: RoomState, name: string, passwd: string, session: int)
    requires Join(s, name, passwd, session).1.Seated?
    ensures var (t, reply) := Join(s, name, passwd, session);
            var i := reply.playerId;
            && i == FirstFree(s.players, 0) && t.players[i].session == session && t.players[i].state == Alive
            && t.players[i].name == name
            && (session == 0 <==> FirstFree(t.players, 0) == i)
  {
  }
}
