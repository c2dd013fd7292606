/** The room of server/game.cpp: its fields are updated by the requests and by the
    round, and every method is tied to what RoomSpec says of its state. */
module Rooms {
  import opened Integers
  import opened GameMap
  import opened GameRound
  import opened RoomSpec
  import RoomRuns
  import opened FogOfWar
  import Sessions

  datatype PlayerInfo = PlayerInfo(cells: int, soldiers: int, state: PlayerState)

  class Room {
    const id: int
    const passwd: string
    const sizeX: nat
    const sizeY: nat
    var game: GameState
    var round: nat
    var players: seq<Player>
    var queues: seq<seq<Action>>
    var field: Field

    function State(): RoomState
      reads this
    {
      RoomState(id, passwd, sizeX, sizeY, game, round, players, queues, field)
    }

    ghost predicate Valid()
      reads this
    {
      RoomRuns.Inv(State())
    }

    // ----- Seats -----

    /** Register_Room for an id that is new. */
    constructor Register(id: int, playerNumber: nat, sizeX: nat, sizeY: nat, name: string, passwd: string,
                         sessions: Sessions.Generator, rand: word)
      requires playerNumber >= 1 && sizeX >= 1 && sizeY >= 1
      modifies sessions
      ensures sessions.state == Sessions.Issue(old(sessions.state), rand)
      ensures State() == RoomSpec.Register(id, playerNumber, sizeX, sizeY, name, passwd, sessions.state)
      ensures Valid()
    {
      this.id, this.passwd, this.sizeX, this.sizeY := id, passwd, sizeX, sizeY;
      game, round, field := Wait, 0, [];
      queues := seq(playerNumber, _ => []);
      players := seq(playerNumber, _ => FREE_SEAT);
      new;
      var playerId := FindFree();
      var session := sessions.Get(rand);
      players := players[playerId := Seat(players[playerId], id, playerId, session, name)];
      RoomRuns.RegisterInv(id, playerNumber, sizeX, sizeY, name, passwd, session);
    }

    /** The first free seat, -1 for none. */
    method FindFree() returns (playerId: int)
      ensures playerId == FirstFree(players, 0)
    {
      playerId := -1;
      var i := 0;
      while i < |players|
        invariant 0 <= i <= |players| && FirstFree(players, 0) == FirstFree(players, i)
      {
        if players[i].session == 0 {
          return i;
        }
        i := i + 1;
      }
    }

    method Join(name: string, passwd: string, sessions: Sessions.Generator, rand: word) returns (reply: Reply)
      requires Valid()
      modifies this`players, sessions
      ensures (State(), reply) == RoomSpec.Join(old(State()), name, passwd, Sessions.Issue(old(sessions.state), rand))
      ensures sessions.state == if reply.Seated? then Sessions.Issue(old(sessions.state), rand) else old(sessions.state)
      ensures Valid()
    {
      ghost var s := State();
      var playerId := FindFree();
      if playerId == -1 {
        return RoomFull;
      }
      if this.passwd != passwd {
        return WrongPassword;
      }
      var session := sessions.Get(rand);
      players := players[playerId := Seat(players[playerId], id, playerId, session, name)];
      RoomRuns.ApplyInv(s, JoinEvent(name, passwd, session));
      reply := Seated(playerId, session);
    }

    // ----- Requests of a seated player -----

    method Start(pid: nat, session: int, points: seq<(int, int)>, draws: seq<real>, garbage: Field)
      returns (reply: Reply)
      requires Valid() && MapInput(State(), points, draws) && HasSize(garbage, sizeX, sizeY)
      modifies this`game, this`players, this`field
      ensures (State(), reply) == RoomSpec.Start(old(State()), pid, session, points, draws)
      ensures Valid()
    {
      ghost var s := State();
      if !Verified(State(), pid, session) {
        return VerifyError;
      }
      if game != Wait {
        return AlreadyStarted;
      }
      GenMap(points, draws, garbage);
      game := InGame;
      assert State() == s.(game := InGame, field := field, players := players);
      StartedFrom(s, pid, session, points, draws, field, players);
      RoomRuns.StartInv(s, pid, session, points, draws);
      reply := RoomSpec.Started;
    }

    /** `points` are the shuffled coordinates, `draws` the random numbers, and `garbage`
        is what the new cells hold before they are assigned. */
    method GenMap(points: seq<(int, int)>, draws: seq<real>, garbage: Field)
      requires MapInput(State(), points, draws) && HasSize(garbage, sizeX, sizeY)
      modifies this`players, this`field
      ensures field == NewField(old(State()), points, draws)
      ensures players == Housed(old(players), points)
    {
      ghost var s := State();
      field := garbage;
      PlaceHomes(points, draws);
      PlaceRest(points, draws);
      CellsAssigned(s, points, draws, field);
    }

    /** The first points become the homes, as long as there are points. */
    method PlaceHomes(points: seq<(int, int)>, draws: seq<real>)
      requires MapInput(State(), points, draws) && HasSize(field, sizeX, sizeY)
      modifies this`players, this`field
      ensures players == Housed(old(players), points) && HasSize(field, sizeX, sizeY)
      ensures forall k | 0 <= k < |players| && k < |points| ::
                field[points[k].0][points[k].1] == Drawn(k, |players|, draws)
    {
      ghost var ps := players;
      var n := |players|;
      var i := 0;
      while i < n && i < |points|
        invariant 0 <= i <= |points| && i <= n == |players|
        invariant forall k | 0 <= k < n :: players[k] == if k < i then Housed(ps, points)[k] else ps[k]
        invariant HasSize(field, sizeX, sizeY)
        invariant forall k | 0 <= k < i :: field[points[k].0][points[k].1] == Drawn(k, n, draws)
      {
        var (x, y) := points[i];
        field := Put(field, x, y, Cell(Home, i, 0));
        players := players[i := players[i].(homeX := x, homeY := y)];
        i := i + 1;
      }
    }

    /** The other points become what the draws say. */
    method PlaceRest(points: seq<(int, int)>, draws: seq<real>)
      requires MapInput(State(), points, draws) && HasSize(field, sizeX, sizeY)
      requires forall k | 0 <= k < |players| && k < |points| ::
                 field[points[k].0][points[k].1] == Drawn(k, |players|, draws)
      modifies this`field
      ensures HasSize(field, sizeX, sizeY)
      ensures forall k | 0 <= k < |points| :: field[points[k].0][points[k].1] == Drawn(k, |players|, draws)
    {
      var n := |players|;
      var i := n;
      while i < |points|
        invariant n <= i && HasSize(field, sizeX, sizeY)
        invariant forall k | 0 <= k < i && k < |points| :: field[points[k].0][points[k].1] == Drawn(k, n, draws)
      {
        var res := draws[i - n];
        var (x, y) := points[i];
        if res < 0.1 {
          field := Put(field, x, y, Cell(Mountain, NEUTRAL, 0));
        } else if res < 0.15 {
          field := Put(field, x, y, Cell(Castle, NEUTRAL, CASTLE_DEFAULT));
        } else {
          field := Put(field, x, y, Cell(Space, NEUTRAL, 0));
        }
        i := i + 1;
      }
    }

    method Quit(pid: nat, session: int) returns (reply: Reply)
      requires Valid()
      modifies this`players
      ensures (State(), reply) == RoomSpec.Quit(old(State()), pid, session)
      ensures Valid()
    {
      ghost var s := State();
      if !Verified(State(), pid, session) {
        return VerifyError;
      }
      if game != Wait {
        players := players[pid := players[pid].(state := Quited)];
      } else {
        players := players[pid := FREE_SEAT];
      }
      RoomRuns.ApplyInv(s, QuitEvent(pid, session));
      reply := QuitDone;
    }

    /** Add_Action for a message with the actions `held` that announces `num` of them. */
    method AddAction(pid: nat, session: int, held: seq<Action>, num: int) returns (reply: Reply)
      requires Valid()
      modifies this`queues
      ensures (State(), reply) == Submit(old(State()), pid, session, held, num)
      ensures Valid()
    {
      ghost var s := State();
      if !Verified(State(), pid, session) {
        return VerifyError;
      }
      if game != InGame {
        return NotGoing;
      }
      if players[pid].state != Alive {
        return DiedOrQuited;
      }
      if num > |held| {
        return Overread;
      }
      PushAll(players[pid].playerId, held, num);
      RoomRuns.ApplyInv(s, ActEvent(pid, session, Announced(held, num)));
      reply := Queued(num);
    }

    method PushAll(q: nat, held: seq<Action>, num: int)
      requires q < |queues| && num <= |held|
      modifies this`queues
      ensures queues == Pushed(old(queues), q, Announced(held, num))
    {
      ghost var qs := queues;
      var i := 0;
      assert qs[q] + held[..0] == qs[q];
      while i < num
        invariant 0 <= i <= |held| && (i <= num || i == 0)
        invariant queues == qs[q := qs[q] + held[..i]]
      {
        AppendOne(qs[q], held, i);
        queues := queues[q := queues[q] + [held[i]]];
        i := i + 1;
      }
      assert held[..i] == Announced(held, num);
      assert queues == Pushed(qs, q, Announced(held, num));
    }

    // ----- The round -----

    /** What the game handler does to a room once a second. */
    method Tick()
      requires Valid()
      modifies this`game, this`round, this`players, this`queues, this`field
      ensures State() == RoomSpec.Tick(old(State()))
      ensures Valid()
    {
      ghost var s := State();
      if game == InGame {
        NextRound();
        RoomRuns.NextRoundInv(s);
      }
    }

    method NextRound()
      requires |queues| == |players|
      modifies this`game, this`round, this`players, this`queues, this`field
      ensures State() == RoomSpec.NextRound(old(State()))
    {
      ghost var s := State();
      round := round + 1;
      GrowAll();
      PlayAll();
      JudgeAll();
      RoomRuns.NextRoundIs(s, field);
    }

    /** The first loop of the round: soldiers appear. */
    method GrowAll()
      modifies this`field
      ensures field == Grow(old(field), round)
    {
      ghost var f := field;
      var x := 0;
      while x < |field|
        invariant 0 <= x <= |f| && SameShape(f, field)
        invariant forall i, j | Inside(f, i, j) :: field[i][j] == if i < x then GrowCell(f[i][j], round) else f[i][j]
      {
        var y := 0;
        while y < |field[x]|
          invariant 0 <= y <= |f[x]| && SameShape(f, field)
          invariant forall i, j | Inside(f, i, j) ::
                      field[i][j] == if i < x || (i == x && j < y) then GrowCell(f[i][j], round) else f[i][j]
        {
          var c := field[x][y];
          if round % CASTLE_ROUND_NEED == 0 && c.kind == Home {
            c := c.(soldiers := c.soldiers + 1);
          }
          if round % CASTLE_ROUND_NEED == 0 && c.kind == Castle {
            if c.owner != NEUTRAL || c.soldiers < CASTLE_DEFAULT {
              c := c.(soldiers := c.soldiers + 1);
            }
          }
          if round % SPACE_ROUND_NEED == 0 && c.kind == Space {
            if c.owner != NEUTRAL {
              c := c.(soldiers := c.soldiers + 1);
            }
          }
          field := Put(field, x, y, c);
          y := y + 1;
        }
        x := x + 1;
      }
      SameCells(field, Grow(f, round));
    }

    /** The second loop: one action is taken from every queue that has one, and carried
        out if it is legal. */
    method PlayAll()
      requires |queues| == |players|
      modifies this`field, this`queues
      ensures field == Play(old(field), old(queues), |old(queues)|)
      ensures queues == Popped(old(queues), |old(queues)|)
    {
      ghost var f, q := field, queues;
      var pid := 0;
      while pid < |players|
        invariant 0 <= pid <= |players| == |q|
        invariant field == Play(f, q, pid) && queues == Popped(q, pid)
      {
        if queues[pid] != [] {
          var act := queues[pid][0];
          queues := queues[pid := queues[pid][1..]];
          Carry(pid, act);
        }
        pid := pid + 1;
        assert queues == Popped(q, pid);
      }
    }

    method Carry(pid: nat, act: Action)
      modifies this`field
      ensures field == Move(old(field), pid, act)
    {
      var cx, cy := act.x, act.y;
      var nx, ny := act.x + DX(act.way), act.y + DY(act.way);
      var half := act.allOrHalf;
      if !Inside(field, cx, cy) || !Inside(field, nx, ny) || field[nx][ny].kind == Mountain {
        return;
      }
      if field[cx][cy].owner != pid {
        return;
      }
      var c := field[cx][cy];
      var trans := if half != 0 then Halved(c.soldiers) else if c.soldiers - 1 > 0 then c.soldiers - 1 else 0;
      field := Put(field, cx, cy, c.(soldiers := c.soldiers - trans));
      var d := field[nx][ny];
      if d.owner != field[cx][cy].owner {
        if trans > d.soldiers {
          field := Put(field, nx, ny, d.(owner := pid, soldiers := trans - d.soldiers));
        } else {
          field := Put(field, nx, ny, d.(soldiers := d.soldiers - trans));
        }
      } else {
        field := Put(field, nx, ny, d.(soldiers := d.soldiers + trans));
      }
    }

    /** The third loop: whoever lost his home is dead, and the game ends when fewer
        than two are left. */
    method JudgeAll()
      modifies this`players, this`game
      ensures players == Judged(old(players), field)
      ensures game == if AliveCount(players) <= 1 then End else old(game)
    {
      ghost var ps := players;
      var alive := 0;
      var pid := 0;
      while pid < |players|
        invariant 0 <= pid <= |ps| == |players|
        invariant forall i | 0 <= i < |ps| :: players[i] == if i < pid then Judge(ps[i], i, field) else ps[i]
        invariant alive == AliveCount(players[..pid]) && game == old(game)
      {
        ghost var before := players[..pid];
        var p := players[pid];
        if OwnerAt(field, p.homeX, p.homeY) != pid {
          players := players[pid := p.(state := Dead)];
        } else if p.state == Alive {
          alive := alive + 1;
        }
        pid := pid + 1;
        assert players[..pid][..pid - 1] == before;
      }
      assert players[..pid] == players;
      if alive <= 1 {
        game := End;
      }
    }

    // ----- Queries -----

    /** One row of the mask, behind the rows in front of it. */
    method MaskRow(masked: array<Cell>, playerId: int, i: nat, at: nat)
      requires HasSize(field, sizeX, sizeY) && i < sizeX && at + sizeY <= masked.Length
      modifies masked
      ensures masked[..at + sizeY] == old(masked[..at]) + Mask(field, playerId)[i]
    {
      ghost var done, row := masked[..at], Mask(field, playerId)[i];
      var j := 0;
      while j < sizeY
        invariant 0 <= j <= sizeY && masked[..at + j] == done + row[..j]
      {
        var flag := SeesCell(playerId, i, j);
        if flag || field[i][j].kind == Mountain {
          masked[at + j] := field[i][j];
        } else {
          masked[at + j] := HIDDEN;
        }
        j := j + 1;
      }
      assert row[..sizeY] == row;
    }

    /** mapMask for a player: `masked` is filled row by row. */
    method MapMask(masked: array<Cell>, playerId: int)
      requires HasSize(field, sizeX, sizeY) && masked.Length == sizeX * sizeY
      modifies masked
      ensures masked[..] == Flat(Mask(field, playerId))
    {
      ghost var m: Field := Mask(field, playerId);
      var i := 0;
      while i < sizeX
        invariant 0 <= i <= sizeX
        invariant i * sizeY <= masked.Length && masked[..i * sizeY] == Flat(m[..i])
      {
        Rows(i, sizeX, sizeY);
        assert m[..i + 1][..i] == m[..i];
        MaskRow(masked, playerId, i, i * sizeY);
        i := i + 1;
      }
      assert m[..sizeX] == m && masked[..masked.Length] == masked[..];
    }

    /** mapMask without a player: the whole map. */
    method MapCopy(masked: array<Cell>)
      requires HasSize(field, sizeX, sizeY) && masked.Length == sizeX * sizeY
      modifies masked
      ensures masked[..] == Flat(field)
    {
      var i := 0;
      while i < sizeX
        invariant 0 <= i <= sizeX
        invariant i * sizeY <= masked.Length && masked[..i * sizeY] == Flat(field[..i])
      {
        Rows(i, sizeX, sizeY);
        ghost var done := masked[..i * sizeY];
        var j := 0;
        while j < sizeY
          invariant 0 <= j <= sizeY
          invariant masked[..i * sizeY + j] == done + field[i][..j]
        {
          masked[i * sizeY + j] := field[i][j];
          j := j + 1;
        }
        assert field[..i + 1][..i] == field[..i] && field[i][..sizeY] == field[i];
        i := i + 1;
      }
      assert field[..sizeX] == field && masked[..masked.Length] == masked[..];
    }

    /** The two inner loops of mapMask over the neighbours of a cell. */
    method SeesCell(playerId: int, i: int, j: int) returns (flag: bool)
      requires HasSize(field, sizeX, sizeY)
      ensures flag == Near(field, playerId, i, j)
    {
      flag := false;
      for dx := -1 to 2
        invariant flag ==> Near(field, playerId, i, j)
        invariant forall u, v | i - 1 <= u < i + dx && j - 1 <= v <= j + 1 && Inside(field, u, v) ::
                    field[u][v].owner == playerId ==> flag
      {
        for dy := -1 to 2
          invariant flag ==> Near(field, playerId, i, j)
          invariant forall u, v | i - 1 <= u < i + dx && j - 1 <= v <= j + 1 && Inside(field, u, v) ::
                      field[u][v].owner == playerId ==> flag
          invariant forall u, v | u == i + dx && j - 1 <= v < j + dy && Inside(field, u, v) ::
                      field[u][v].owner == playerId ==> flag
        {
          if i + dx < 0 || i + dx >= sizeX || j + dy < 0 || j + dy >= sizeY {
            continue;
          }
          if field[i + dx][j + dy].owner == playerId {
            flag := true;
          }
        }
      }
    }

    /** One row of the count. */
    method CountRow(info: array<PlayerInfo>, row: seq<Cell>, ghost above: Field)
      requires forall y | 0 <= y < |row| :: NEUTRAL <= row[y].owner < info.Length
      requires forall o | 0 <= o < info.Length :: info[o] == Tally(above, [], o)
      modifies info
      ensures forall o | 0 <= o < info.Length :: info[o] == Tally(above, row, o)
    {
      var j := 0;
      while j < |row|
        invariant 0 <= j <= |row|
        invariant forall o | 0 <= o < info.Length :: info[o] == Tally(above, row[..j], o)
      {
        assert row[..j + 1][..j] == row[..j];
        var c := row[j];
        if c.owner >= 0 {
          info[c.owner] := info[c.owner].(cells := info[c.owner].cells + 1,
                                          soldiers := info[c.owner].soldiers + c.soldiers);
        }
        j := j + 1;
      }
      assert row[..|row|] == row;
    }

    /** getStat: what every player owns. */
    method GetStat(info: array<PlayerInfo>)
      requires info.Length == |players|
      requires forall x, y | Inside(field, x, y) :: NEUTRAL <= field[x][y].owner < |players|
      modifies info
      ensures forall o | 0 <= o < info.Length ::
                info[o] == PlayerInfo(Sum(CellsOf(o), field), Sum(TroopsOf(o), field), players[o].state)
    {
      forall o | 0 <= o < info.Length {
        info[o] := PlayerInfo(0, 0, Alive);
      }
      var i := 0;
      while i < |field|
        invariant 0 <= i <= |field|
        invariant forall o | 0 <= o < info.Length :: info[o] == Tally(field[..i], [], o)
      {
        assert forall y | 0 <= y < |field[i]| :: Inside(field, i, y);
        forall o: int ensures Tally(field[..i], field[i], o) == Tally(field[..i + 1], [], o) {
          RowCounted(field, i, o);
        }
        CountRow(info, field[i], field[..i]);
        i := i + 1;
      }
      assert field[..|field|] == field;
      forall o | 0 <= o < info.Length {
        info[o] := info[o].(state := players[o].state);
      }
    }
  }

  /** What an owner has in the rows above and in the row begun. */
  ghost function Tally(above: Field, row: seq<Cell>, o: int): PlayerInfo {
    PlayerInfo(Sum(CellsOf(o), above) + RowSum(CellsOf(o), row), Sum(TroopsOf(o), above) + RowSum(TroopsOf(o), row),
               Alive)
  }

  lemma {:induction false} StartedFrom(s: RoomState, pid: nat, session: int, points: seq<(int, int)>, draws: seq<real>,
                                       field: Field, players: seq<Player>)
    requires MapInput(s, points, draws) && Verified(s, pid, session) && s.game == Wait
    requires field == NewField(s, points, draws) && players == Housed(s.players, points)
    ensures (s.(game := InGame, field := field, players := players), RoomSpec.Started)
            == RoomSpec.Start(s, pid, session, points, draws)
  {
  }

  lemma {:induction false} RowCounted(f: Field, i: nat, o: int)
    requires i < |f|
    ensures Tally(f[..i], f[i], o) == Tally(f[..i + 1], [], o)
  {
    assert f[..i + 1][..i] == f[..i];
  }

  lemma {:induction false} AppendOne<T>(q: seq<T>, a: seq<T>, i: nat)
    requires i < |a|
    ensures q + a[..i] + [a[i]] == q + a[..i + 1]
  {
  }

  lemma {:induction false} SameCells(f: Field, g: Field)
    requires SameShape(f, g) && forall x, y | Inside(f, x, y) :: f[x][y] == g[x][y]
    ensures f == g
  {
    forall x | 0 <= x < |f| ensures f[x] == g[x] {
      assert forall y | 0 <= y < |f[x]| :: Inside(f, x, y);
    }
  }

  lemma {:induction false} CellsAssigned(s: RoomState, points: seq<(int, int)>, draws: seq<real>, f: Field)
    requires MapInput(s, points, draws) && HasSize(f, s.sizeX, s.sizeY)
    requires forall k | 0 <= k < |points| :: f[points[k].0][points[k].1] == Drawn(k, |s.players|, draws)
    ensures f == NewField(s, points, draws)
  {
    var g := NewField(s, points, draws);
    forall x, y | 0 <= x < s.sizeX && 0 <= y < s.sizeY ensures f[x][y] == g[x][y] {
      RoomRuns.NewFieldCells(s, points, draws, x, y);
    }
    forall x | 0 <= x < s.sizeX ensures f[x] == g[x] {
    }
  }
}
