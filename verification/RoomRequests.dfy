/** Who is listened to: what every request is answered, said in terms of the seats alone,
    and what nobody but a player himself can do to him over whole runs. */
module RoomRequests {
  import opened GameRound
  import opened RoomSpec
  import RoomRuns

  // ----- Single requests -----

  /** A request that names no seat, or a seat under another session, is refused and
      changes nothing. */
  lemma {:induction false} StrangerRefused(s: RoomState, pid: nat, session: int, points: seq<(int, int)>,
                                           draws: seq<real>, held: seq<Action>, num: int)
    requires pid >= |s.players| || session != s.players[pid].session
    ensures MapInput(s, points, draws) ==> Start(s, pid, session, points, draws) == (s, VerifyError)
    ensures Quit(s, pid, session) == (s, VerifyError)
    ensures Act(s, pid, session, held) == Submit(s, pid, session, held, num) == (s, VerifyError)
  {
  }

  /** Nobody else is. */
  lemma {:induction false} SeatedHeard(s: RoomState, pid: nat, session: int, points: seq<(int, int)>, draws: seq<real>,
                                       held: seq<Action>, num: int)
    requires pid < |s.players| && session == s.players[pid].session
    ensures MapInput(s, points, draws) ==> Start(s, pid, session, points, draws).1 != VerifyError
    ensures Quit(s, pid, session).1 != VerifyError
    ensures Act(s, pid, session, held).1 != VerifyError && Submit(s, pid, session, held, num).1 != VerifyError
  {
  }

  /** All that changes from s to t is the seat `i`. */
  predicate OnlySeat(s: RoomState, t: RoomState, i: nat) {
    && t == s.(players := t.players) && |t.players| == |s.players|
    && forall j | 0 <= j < |s.players| && j != i :: t.players[j] == s.players[j]
  }

  /** A new room is waiting, and nobody but its owner sits there. */
  lemma {:induction false} RegisterMeans(id: int, players: nat, sizeX: nat, sizeY: nat, name: string, passwd: string,
                                         session: int)
    requires players >= 1
    ensures var t := Register(id, players, sizeX, sizeY, name, passwd, session);
            && t.id == id && t.passwd == passwd && t.sizeX == sizeX && t.sizeY == sizeY
            && t.game == Wait && t.round == 0 && |t.players| == |t.queues| == players
            && t.players[0].session == session && t.players[0].name == name && t.players[0].state == Alive
            && (forall i | 1 <= i < players :: t.players[i].session == 0)
            && forall i | 0 <= i < players :: t.queues[i] == []
  {
  }

  /** Joining is refused without looking at the password if no seat is free, and else
      exactly for a wrong one; otherwise only the lowest free seat changes. */
  lemma {:induction false} JoinMeans(s: RoomState, name: string, passwd: string, session: int)
    ensures var (t, reply) := Join(s, name, passwd, session);
            && (reply.RoomFull? <==> forall i | 0 <= i < |s.players| :: s.players[i].session != 0)
            && (reply.WrongPassword? <==> passwd != s.passwd && !reply.RoomFull?)
            && (reply.RoomFull? || reply.WrongPassword? ==> t == s)
            && (reply.Seated? <==> !reply.RoomFull? && !reply.WrongPassword?)
    ensures var (t, reply) := Join(s, name, passwd, session);
            reply.Seated? ==>
              var i := reply.playerId;
              && 0 <= i < |s.players| && s.players[i].session == 0 && OnlySeat(s, t, i)
              && (forall j | 0 <= j < i :: s.players[j].session != 0)
              && var p := t.players[i];
              && p.session == session == reply.session && p.playerId == i && p.name == name && p.state == Alive
              && p.roomId == s.id && p.homeX == s.players[i].homeX && p.homeY == s.players[i].homeY
  {
  }

  /** Whoever carries the session of a seat can leave it: before the start it is then as
      new, and afterwards it stays his but is out of the game. */
  lemma {:induction false} QuitMeans(s: RoomState, pid: nat, session: int)
    requires pid < |s.players| && session == s.players[pid].session
    ensures var (t, reply) := Quit(s, pid, session);
            && reply == QuitDone && OnlySeat(s, t, pid)
            && if s.game == Wait then t.players[pid] == Player(0, 0, 0, Alive, 0, 0, "")
               else t.players[pid].state == Quited && t.players[pid] == s.players[pid].(state := Quited)
  {
  }

  /** The game can be started once, by anybody seated. */
  lemma {:induction false} StartMeans(s: RoomState, pid: nat, session: int, points: seq<(int, int)>, draws: seq<real>)
    requires MapInput(s, points, draws) && pid < |s.players| && session == s.players[pid].session
    ensures var (t, reply) := Start(s, pid, session, points, draws);
            && (s.game != Wait <==> reply == AlreadyStarted) && (s.game == Wait <==> reply == RoomSpec.Started)
            && (s.game != Wait ==> t == s)
            && (s.game == Wait ==> t.game == InGame && t.round == s.round && t.queues == s.queues
                                   && |t.players| == |s.players|
                                   && forall i | 0 <= i < |s.players| ::
                                        t.players[i] == s.players[i].(homeX := t.players[i].homeX,
                                                                      homeY := t.players[i].homeY))
  {
  }

  /** Actions are queued exactly for the living in a running game: the first `num` of those
      held, behind the ones that wait already. */
  lemma {:induction false} SubmitMeans(s: RoomState, pid: nat, session: int, held: seq<Action>, num: int)
    requires RoomRuns.Inv(s) && pid < |s.players| && session == s.players[pid].session && 0 <= num <= |held|
    ensures var (t, reply) := Submit(s, pid, session, held, num);
            && (reply == NotGoing <==> s.game != InGame)
            && (reply == DiedOrQuited <==> s.game == InGame && s.players[pid].state != Alive)
            && (reply == Queued(num) <==> s.game == InGame && s.players[pid].state == Alive)
            && (!reply.Queued? ==> t == s)
            && (reply.Queued? ==>
                  && t == s.(queues := t.queues) && |t.queues| == |s.queues|
                  && forall q | 0 <= q < |s.queues| ::
                       t.queues[q] == s.queues[q] + (if q == s.players[pid].playerId then held[..num] else []))
  {
    assert Announced(held, num) == held[..num];
    var t := Submit(s, pid, session, held, num).0;
    forall q | 0 <= q < |s.queues| ensures s.queues[q] + [] == s.queues[q] {
    }
  }

  // ----- Runs -----

  /** No request in these events carries this session. */
  predicate Silent(events: seq<Event>, session: int) {
    forall i | 0 <= i < |events| ::
      match events[i]
      case StartEvent(_, k, _, _) => k != session
      case QuitEvent(_, k) => k != session
      case ActEvent(_, k, _) => k != session
      case _ => true
  }

  lemma {:induction false} SilentFront(events: seq<Event>, session: int)
    requires Silent(events, session) && events != []
    ensures Silent(events[..|events| - 1], session) && Silent([events[|events| - 1]], session)
  {
    assert forall i | 0 <= i < |events| - 1 :: events[..|events| - 1][i] == events[i];
  }

  /** One event that carries another session leaves a seat taken, by the same player. */
  lemma {:induction false} ApplySpares(s: RoomState, e: Event, pid: nat)
    requires RoomRuns.Inv(s) && pid < |s.players| && s.players[pid].session != 0
    requires Silent([e], s.players[pid].session)
    ensures var p, t := s.players[pid], Apply(s, e);
            && |t.players| == |s.players| && t.players[pid].session == p.session && t.players[pid].name == p.name
            && (p.state != Quited ==> t.players[pid].state != Quited)
  {
    assert [e][0] == e;
  }

  /** As long as nobody carries the session of a player, nobody takes his seat or his name,
      and nobody quits for him. */
  lemma {:induction false} NobodyQuitsForHim(s: RoomState, events: seq<Event>, pid: nat)
    requires RoomRuns.Inv(s) && pid < |s.players| && s.players[pid].session != 0
    requires Silent(events, s.players[pid].session)
    ensures var p, t := s.players[pid], Run(s, events);
            && |t.players| == |s.players| && t.players[pid].session == p.session && t.players[pid].name == p.name
            && (p.state != Quited ==> t.players[pid].state != Quited)
  {
    if events != [] {
      var init := events[..|events| - 1];
      SilentFront(events, s.players[pid].session);
      NobodyQuitsForHim(s, init, pid);
      RoomRuns.RunInv(s, init);
      ApplySpares(Run(s, init), events[|events| - 1], pid);
    }
  }

  /** Nor does anybody act for him, unless he is player 0, to whose queue requests for a
      free seat add. */
  lemma {:induction false} NobodyActsForHim(s: RoomState, events: seq<Event>, pid: nat)
    requires RoomRuns.Inv(s) && pid < |s.players| && s.players[pid].session != 0
    requires Silent(events, s.players[pid].session) && (pid == 0 ==> Silent(events, 0))
    ensures RoomRuns.AllAccepted(s, events, pid) == []
  {
    if events != [] {
      var init, e := events[..|events| - 1], events[|events| - 1];
      SilentFront(events, s.players[pid].session);
      if pid == 0 {
        SilentFront(events, 0);
      }
      NobodyActsForHim(s, init, pid);
      NobodyQuitsForHim(s, init, pid);
      RoomRuns.RunInv(s, init);
      AcceptsNothing(Run(s, init), e, pid);
    }
  }

  lemma {:induction false} AcceptsNothing(s: RoomState, e: Event, pid: nat)
    requires RoomRuns.Inv(s) && pid < |s.players| && s.players[pid].session != 0
    requires Silent([e], s.players[pid].session) && (pid == 0 ==> Silent([e], 0))
    ensures RoomRuns.Accepted(s, e, pid) == []
  {
    assert [e][0] == e;
  }
}
