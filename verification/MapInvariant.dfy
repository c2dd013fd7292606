/** What a round keeps true of the map, and how fast the soldiers can grow. */
module MapInvariant {
  import opened GameMap
  import opened GameRound

  /** A cell of a game of `n` players: soldiers are never negative, mountains stay
      neutral and empty, homes are always owned by a player, neutral spaces are empty
      and neutral castles hold at most 40. */
  predicate GoodCell(c: Cell, n: nat) {
    && c.soldiers >= 0 && NEUTRAL <= c.owner < n
    && match c.kind
       case Mountain => c.owner == NEUTRAL && c.soldiers == 0
       case Home => c.owner != NEUTRAL
       case Space => c.owner == NEUTRAL ==> c.soldiers == 0
       case Castle => c.owner == NEUTRAL ==> c.soldiers <= CASTLE_DEFAULT
       case Fog => false
  }

  ghost predicate GoodField(f: Field, n: nat) {
    forall x, y | Inside(f, x, y) :: GoodCell(f[x][y], n)
  }

  /** No cell changes its type, and none that is owned becomes neutral again. */
  ghost predicate Evolves(f: Field, f': Field) {
    && SameShape(f, f')
    && forall x, y | Inside(f, x, y) ::
         f'[x][y].kind == f[x][y].kind && (f[x][y].owner != NEUTRAL ==> f'[x][y].owner != NEUTRAL)
  }

  lemma {:induction false} EvolvesTransitively(f: Field, g: Field, h: Field)
    requires Evolves(f, g) && Evolves(g, h)
    ensures Evolves(f, h)
  {
    forall x, y | Inside(f, x, y)
      ensures h[x][y].kind == f[x][y].kind && (f[x][y].owner != NEUTRAL ==> h[x][y].owner != NEUTRAL)
    {
      assert Inside(g, x, y);
    }
  }

  lemma {:induction false} GrowKeeps(f: Field, round: nat, n: nat)
    requires GoodField(f, n)
    ensures GoodField(Grow(f, round), n) && Evolves(f, Grow(f, round))
  {
    var g := Grow(f, round);
    forall x, y | Inside(g, x, y) ensures GoodCell(g[x][y], n) {
      assert Inside(f, x, y);
    }
  }

  lemma {:induction false} MoveKeeps(f: Field, pid: int, a: Action, n: nat)
    requires GoodField(f, n) && 0 <= pid < n
    ensures GoodField(Move(f, pid, a), n) && Evolves(f, Move(f, pid, a))
  {
    if Legal(f, pid, a) {
      var nx, ny := a.x + DX(a.way), a.y + DY(a.way);
      var g := Move(f, pid, a);
      assert GoodCell(f[a.x][a.y], n) && GoodCell(f[nx][ny], n);
      forall x, y | Inside(g, x, y)
        ensures GoodCell(g[x][y], n) && g[x][y].kind == f[x][y].kind
        ensures f[x][y].owner != NEUTRAL ==> g[x][y].owner != NEUTRAL
      {
        assert Inside(f, x, y);
      }
    }
  }

  /** What an action does, seen from outside: nothing unless it is legal. Else one cell
      sends half of its soldiers, the odd one staying, or all but one, to a neighbour;
      a foreign neighbour falls exactly to more soldiers than it holds, and whoever
      keeps it is left with the difference. */
  lemma {:induction false} MoveMeans(f: Field, pid: int, a: Action, n: nat)
    requires GoodField(f, n)
    ensures !Legal(f, pid, a) ==> Move(f, pid, a) == f
    ensures var nx, ny := a.x + [1, 0, -1, 0][a.way], a.y + [0, 1, 0, -1][a.way];
            Legal(f, pid, a) <==> Inside(f, a.x, a.y) && Inside(f, nx, ny)
                                  && f[a.x][a.y].owner == pid && f[nx][ny].kind != Mountain
    ensures Legal(f, pid, a) ==>
              var g, nx, ny := Move(f, pid, a), a.x + [1, 0, -1, 0][a.way], a.y + [0, 1, 0, -1][a.way];
              var had, left := f[a.x][a.y].soldiers, g[a.x][a.y].soldiers;
              var held, now := f[nx][ny].soldiers, g[nx][ny].soldiers;
              && (forall x, y | Inside(f, x, y) && (x, y) != (a.x, a.y) && (x, y) != (nx, ny) :: g[x][y] == f[x][y])
              && g[a.x][a.y].owner == pid && (if a.allOrHalf != 0 then 0 <= 2 * left - had <= 1
                                              else left == if had > 0 then 1 else 0)
              && if f[nx][ny].owner == pid then g[nx][ny].owner == pid && now == held + (had - left)
                 else if had - left > held then g[nx][ny].owner == pid && now == had - left - held
                 else g[nx][ny].owner == f[nx][ny].owner && now == held - (had - left)
  {
    if Legal(f, pid, a) {
      assert GoodCell(f[a.x][a.y], n);
    }
  }

  lemma {:induction false} TurnKeeps(f: Field, g: Field, pid: int, queue: seq<Action>, n: nat)
    requires GoodField(g, n) && 0 <= pid < n && Evolves(f, g)
    ensures GoodField(Turn(g, pid, queue), n) && Evolves(f, Turn(g, pid, queue))
  {
    if queue != [] {
      MoveKeeps(g, pid, queue[0], n);
      EvolvesTransitively(f, g, Move(g, pid, queue[0]));
    }
  }

  lemma {:induction false} PlayKeeps(f: Field, queues: seq<seq<Action>>, k: nat, n: nat)
    requires GoodField(f, n) && k <= |queues| == n
    ensures GoodField(Play(f, queues, k), n) && Evolves(f, Play(f, queues, k))
  {
    if k > 0 {
      PlayKeeps(f, queues, k - 1, n);
      TurnKeeps(f, Play(f, queues, k - 1), k - 1, queues[k - 1], n);
    }
  }

  lemma {:induction false} RoundKeeps(f: Field, round: nat, queues: seq<seq<Action>>)
    requires GoodField(f, |queues|)
    ensures GoodField(PlayRound(f, round, queues), |queues|) && Evolves(f, PlayRound(f, round, queues))
  {
    var g := Grow(f, round);
    GrowKeeps(f, round, |queues|);
    PlayKeeps(g, queues, |queues|, |queues|);
    EvolvesTransitively(f, g, PlayRound(f, round, queues));
  }

  // ----- The bound -----

  function Count(kind: Kind, f: Field): int {
    Sum(OfKind(kind), f)
  }

  lemma {:induction false} SameCounts(f: Field, f': Field, kind: Kind)
    requires Evolves(f, f')
    ensures Count(kind, f') == Count(kind, f)
  {
    SumAtMost(OfKind(kind), f', OfKind(kind), f);
    SumAtMost(OfKind(kind), f, OfKind(kind), f');
  }

  lemma {:induction false} FightHolds(f: Field, pid: int, a: Action, n: nat)
    requires GoodField(f, n)
    ensures Losses(Fight(f, pid, a)) >= 0
  {
    if Fight(f, pid, a) != [] {
      var b := Fight(f, pid, a)[0];
      assert GoodCell(f[a.x][a.y], n) && GoodCell(f[a.x + DX(a.way)][a.y + DY(a.way)], n);
      CasualtiesOfOne(b, 0);
    }
  }

  lemma {:induction false} TurnLosses(g: Field, log: seq<Battle>, pid: int, queue: seq<Action>, n: nat)
    returns (h: Field, more: seq<Battle>)
    requires GoodField(g, n) && 0 <= pid < n && Losses(log) >= 0
    ensures h == Turn(g, pid, queue) && more == log + Clash(g, pid, queue)
    ensures GoodField(h, n) && Losses(more) >= 0
  {
    h, more := Turn(g, pid, queue), log + Clash(g, pid, queue);
    TurnKeeps(g, g, pid, queue, n);
    LogAppend(log, Clash(g, pid, queue), 0);
    if queue == [] {
      assert Losses([]) == 0;
    } else {
      FightHolds(g, pid, queue[0], n);
    }
  }

  lemma {:induction false} LossesHold(f: Field, queues: seq<seq<Action>>, k: nat, n: nat)
    returns (g: Field, log: seq<Battle>)
    requires GoodField(f, n) && k <= |queues| == n
    ensures g == Play(f, queues, k) && log == Battles(f, queues, k)
    ensures GoodField(g, n) && Losses(log) >= 0
  {
    if k == 0 {
      g, log := f, [];
    } else {
      g, log := LossesHold(f, queues, k - 1, n);
      g, log := TurnLosses(g, log, k - 1, queues[k - 1], n);
    }
  }

  /** At most one soldier for every home and castle, and for every space in a 25th round. */
  lemma {:induction false} GrowthBound(f: Field, round: nat)
    ensures TotalGrowth(f, round)
            <= Count(Home, f) + Count(Castle, f) + (if round % SPACE_ROUND_NEED == 0 then Count(Space, f) else 0)
  {
    var grows := (c: Cell) => if Grows(c, round) then 1 else 0;
    var built := (c: Cell) => OfKind(Home)(c) + OfKind(Castle)(c);
    var none := (c: Cell) => 0;
    SumAdd(built, f, OfKind(Home), f, OfKind(Castle));
    SumAdd(none, f, none, f, none);
    var spaces := if round % SPACE_ROUND_NEED == 0 then OfKind(Space) else none;
    var all := (c: Cell) => built(c) + spaces(c);
    SumAdd(all, f, built, f, spaces);
    SumAtMost(grows, f, all, f);
  }

  /** The most soldiers a map can hold after a number of rounds. */
  function Ceiling(f: Field, round: nat): int {
    CASTLE_DEFAULT * Count(Castle, f) + round * (Count(Home, f) + Count(Castle, f))
    + round / SPACE_ROUND_NEED * Count(Space, f)
  }

  lemma {:induction false} CeilingStep(castles: int, built: int, spaces: int, round: nat, before: int, after: int)
    requires before <= CASTLE_DEFAULT * castles + round * built + round / SPACE_ROUND_NEED * spaces
    requires after <= before + built + (if (round + 1) % SPACE_ROUND_NEED == 0 then spaces else 0)
    ensures after <= CASTLE_DEFAULT * castles + (round + 1) * built + (round + 1) / SPACE_ROUND_NEED * spaces
  {
    assert (round + 1) * built == round * built + built;
    var q := round / SPACE_ROUND_NEED;
    if (round + 1) % SPACE_ROUND_NEED == 0 {
      assert (round + 1) / SPACE_ROUND_NEED == q + 1;
      assert (q + 1) * spaces == q * spaces + spaces;
    } else {
      assert (round + 1) / SPACE_ROUND_NEED == q;
    }
  }

  /** What grows is the most that a round brings, after any number of its turns. */
  lemma {:induction false} TurnsGain(f: Field, round: nat, queues: seq<seq<Action>>, k: nat) returns (g: Field)
    requires GoodField(f, |queues|) && k <= |queues|
    ensures g == Play(Grow(f, round), queues, k) && GoodField(g, |queues|)
    ensures Sum(Troops(), g) <= Sum(Troops(), f) + (Count(Home, f) + Count(Castle, f))
                                + (if round % SPACE_ROUND_NEED == 0 then Count(Space, f) else 0)
  {
    GrowTotal(f, round);
    GrowthBound(f, round);
    GrowKeeps(f, round, |queues|);
    ghost var log, g', log';
    g, log := LossesHold(Grow(f, round), queues, k, |queues|);
    g', log' := PlayAccount(Grow(f, round), queues, k, NEUTRAL);
  }

  lemma {:induction false} TurnsEvolve(f: Field, round: nat, queues: seq<seq<Action>>, k: nat)
    requires GoodField(f, |queues|) && k <= |queues|
    ensures Evolves(f, Play(Grow(f, round), queues, k))
  {
    GrowKeeps(f, round, |queues|);
    PlayKeeps(Grow(f, round), queues, k, |queues|);
    EvolvesTransitively(f, Grow(f, round), Play(Grow(f, round), queues, k));
  }

  lemma {:induction false} RoundGain(f: Field, round: nat, queues: seq<seq<Action>>)
    requires GoodField(f, |queues|)
    ensures Sum(Troops(), PlayRound(f, round, queues))
            <= Sum(Troops(), f) + (Count(Home, f) + Count(Castle, f))
               + (if round % SPACE_ROUND_NEED == 0 then Count(Space, f) else 0)
  {
    var g := TurnsGain(f, round, queues, |queues|);
  }

  lemma {:induction false} BoundStep(f: Field, f': Field, round: nat)
    requires Evolves(f, f') && Sum(Troops(), f) <= Ceiling(f, round)
    requires Sum(Troops(), f') <= Sum(Troops(), f) + (Count(Home, f) + Count(Castle, f))
                                  + (if (round + 1) % SPACE_ROUND_NEED == 0 then Count(Space, f) else 0)
    ensures Sum(Troops(), f') <= Ceiling(f', round + 1)
  {
    SameCounts(f, f', Home);
    SameCounts(f, f', Castle);
    SameCounts(f, f', Space);
    CeilingStep(Count(Castle, f), Count(Home, f) + Count(Castle, f), Count(Space, f), round,
                Sum(Troops(), f), Sum(Troops(), f'));
  }

  /** A round keeps the soldiers below the ceiling, which rises by one round. */
  lemma {:induction false} RoundBound(f: Field, round: nat, queues: seq<seq<Action>>)
    requires GoodField(f, |queues|) && Sum(Troops(), f) <= Ceiling(f, round)
    ensures var f' := PlayRound(f, round + 1, queues); Sum(Troops(), f') <= Ceiling(f', round + 1)
  {
    RoundKeeps(f, round + 1, queues);
    RoundGain(f, round + 1, queues);
    BoundStep(f, PlayRound(f, round + 1, queues), round);
  }

  /** No cell holds more than the whole map. */
  lemma {:induction false} CellBound(f: Field, round: nat, n: nat, x: int, y: int)
    requires GoodField(f, n) && Sum(Troops(), f) <= Ceiling(f, round) && Inside(f, x, y)
    ensures 0 <= f[x][y].soldiers <= Ceiling(f, round)
  {
    assert forall i, j | Inside(f, i, j) :: GoodCell(f[i][j], n);
    CellAtMostSum(Troops(), f, x, y);
  }

  lemma {:induction false} SameCeiling(f: Field, g: Field, round: nat)
    requires Evolves(f, g)
    ensures Ceiling(g, round) == Ceiling(f, round)
  {
    SameCounts(f, g, Home);
    SameCounts(f, g, Castle);
    SameCounts(f, g, Space);
  }

  /** A map between two rounds. */
  lemma {:induction false} TurnCell(f: Field, g: Field, round: nat, n: nat, x: int, y: int)
    requires Evolves(f, g) && GoodField(g, n) && Sum(Troops(), f) <= Ceiling(f, round) && Inside(g, x, y)
    requires Sum(Troops(), g) <= Sum(Troops(), f) + (Count(Home, f) + Count(Castle, f))
                                 + (if (round + 1) % SPACE_ROUND_NEED == 0 then Count(Space, f) else 0)
    ensures 0 <= g[x][y].soldiers <= Ceiling(f, round + 1)
  {
    BoundStep(f, g, round);
    SameCeiling(f, g, round + 1);
    CellBound(g, round + 1, n, x, y);
  }

  /** Nor does it at any time within a round: after the growth and any number of turns,
      which are all the values the source ever stores in a cell, it holds no more than the
      ceiling of that round. */
  lemma {:induction false} TurnBound(f: Field, round: nat, queues: seq<seq<Action>>, k: nat, x: int, y: int)
    requires GoodField(f, |queues|) && Sum(Troops(), f) <= Ceiling(f, round) && k <= |queues| && Inside(f, x, y)
    ensures var g := Play(Grow(f, round + 1), queues, k); 0 <= g[x][y].soldiers <= Ceiling(f, round + 1)
  {
    var g := TurnsGain(f, round + 1, queues, k);
    TurnsEvolve(f, round + 1, queues, k);
    TurnCell(f, g, round, |queues|, x, y);
  }
}
