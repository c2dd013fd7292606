/** One round of the game on the map: growth, then one action from every queue. */
module GameRound {
  import opened GameMap

  // ----- Growth -----

  const CASTLE_ROUND_NEED := 1
  const SPACE_ROUND_NEED := 25

  /** Whether a cell gains a soldier in a round. */
  predicate Grows(c: Cell, round: nat) {
    match c.kind
    case Home => round % CASTLE_ROUND_NEED == 0
    case Castle => round % CASTLE_ROUND_NEED == 0 && (c.owner != NEUTRAL || c.soldiers < CASTLE_DEFAULT)
    case Space => round % SPACE_ROUND_NEED == 0 && c.owner != NEUTRAL
    case Fog => false
    case Mountain => false
  }

  function GrowCell(c: Cell, round: nat): Cell {
    if Grows(c, round) then c.(soldiers := c.soldiers + 1) else c
  }

  function Grow(f: Field, round: nat): (f': Field)
    ensures SameShape(f, f')
    ensures forall x, y | Inside(f, x, y) :: f'[x][y] == GrowCell(f[x][y], round)
  {
    seq(|f|, x requires 0 <= x < |f| => seq(|f[x]|, y requires 0 <= y < |f[x]| => GrowCell(f[x][y], round)))
  }

  function Hungry(): Cell -> int {
    (c: Cell) => if c.kind == Castle && c.owner == NEUTRAL && c.soldiers < CASTLE_DEFAULT then 1 else 0
  }

  /** What a round gives an owner before the actions: one soldier for every home and
      castle, and in every 25th round one for every space. A neutral castle stops at
      40, and neutral spaces get none. */
  function Growth(f: Field, round: nat, owner: int): int {
    Sum(OwnedKind(owner, Home), f)
    + (if owner == NEUTRAL then Sum(Hungry(), f) else Sum(OwnedKind(owner, Castle), f))
    + (if owner != NEUTRAL && round % SPACE_ROUND_NEED == 0 then Sum(OwnedKind(owner, Space), f) else 0)
  }

  function Gains(owner: int, round: nat): Cell -> int {
    (c: Cell) => if c.owner == owner && Grows(c, round) then 1 else 0
  }

  lemma {:induction false} GrowthByCells(f: Field, round: nat, owner: int)
    ensures Sum(Gains(owner, round), f) == Growth(f, round, owner)
  {
    var homes := OwnedKind(owner, Home);
    var castles := if owner == NEUTRAL then Hungry() else OwnedKind(owner, Castle);
    var built := (c: Cell) => homes(c) + castles(c);
    SumAdd(built, f, homes, f, castles);
    if owner != NEUTRAL && round % SPACE_ROUND_NEED == 0 {
      SumAdd(Gains(owner, round), f, built, f, OwnedKind(owner, Space));
    } else {
      SumAtMost(Gains(owner, round), f, built, f);
      SumAtMost(built, f, Gains(owner, round), f);
    }
  }

  lemma {:induction false} GrowAccount(f: Field, round: nat, owner: int)
    ensures Sum(TroopsOf(owner), Grow(f, round)) == Sum(TroopsOf(owner), f) + Growth(f, round, owner)
  {
    SumAdd(TroopsOf(owner), Grow(f, round), TroopsOf(owner), f, Gains(owner, round));
    GrowthByCells(f, round, owner);
  }

  // ----- One action -----

  type Way = w: int | 0 <= w < 4

  datatype Action = Action(x: int, y: int, allOrHalf: int, way: Way)

  function DX(w: Way): int { if w == 0 then 1 else if w == 2 then -1 else 0 }

  function DY(w: Way): int { if w == 1 then 1 else if w == 3 then -1 else 0 }

  /** C division rounds towards zero. */
  function Halved(n: int): int {
    if n >= 0 then n / 2 else -(-n / 2)
  }

  function Sent(soldiers: int, allOrHalf: int): int {
    if allOrHalf != 0 then Halved(soldiers) else if soldiers - 1 > 0 then soldiers - 1 else 0
  }

  predicate Legal(f: Field, pid: int, a: Action) {
    var nx, ny := a.x + DX(a.way), a.y + DY(a.way);
    Inside(f, a.x, a.y) && Inside(f, nx, ny) && f[nx][ny].kind != Mountain && f[a.x][a.y].owner == pid
  }

  /** The cell that is moved to, after `sent` soldiers of `pid` arrive. */
  function Arrive(c: Cell, pid: int, sent: int): Cell {
    if c.owner == pid then c.(soldiers := c.soldiers + sent)
    else if sent > c.soldiers then c.(owner := pid, soldiers := sent - c.soldiers)
    else c.(soldiers := c.soldiers - sent)
  }

  function Move(f: Field, pid: int, a: Action): (f': Field)
    ensures |f'| == |f| && forall x | 0 <= x < |f| :: |f'[x]| == |f[x]|
  {
    if !Legal(f, pid, a) then f
    else
      var nx, ny := a.x + DX(a.way), a.y + DY(a.way);
      var from := f[a.x][a.y];
      var sent := Sent(from.soldiers, a.allOrHalf);
      Put(Put(f, a.x, a.y, from.(soldiers := from.soldiers - sent)), nx, ny, Arrive(f[nx][ny], pid, sent))
  }

  // ----- Battles -----

  /** An arrival at the cell x, y of another owner. */
  datatype Battle = Battle(attacker: int, defender: int, x: int, y: int, sent: int, held: int)

  function Fight(f: Field, pid: int, a: Action): seq<Battle> {
    var nx, ny := a.x + DX(a.way), a.y + DY(a.way);
    if Legal(f, pid, a) && f[nx][ny].owner != pid
    then [Battle(pid, f[nx][ny].owner, nx, ny, Sent(f[a.x][a.y].soldiers, a.allOrHalf), f[nx][ny].soldiers)]
    else []
  }

  function Loss(b: Battle): int {
    if b.sent < b.held then b.sent else b.held
  }

  /** What the battles cost one owner, and how many soldiers fell on either side. */
  function Casualties(log: seq<Battle>, owner: int): int {
    if log == [] then 0
    else
      var b := log[|log| - 1];
      Casualties(log[..|log| - 1], owner)
      + (if b.attacker == owner then Loss(b) else 0) + (if b.defender == owner then Loss(b) else 0)
  }

  function Losses(log: seq<Battle>): int {
    if log == [] then 0 else Losses(log[..|log| - 1]) + Loss(log[|log| - 1])
  }

  lemma {:induction false} MoveSum(weight: Cell -> int, f: Field, pid: int, a: Action)
    requires Legal(f, pid, a)
    ensures var from, c := f[a.x][a.y], f[a.x + DX(a.way)][a.y + DY(a.way)];
            var sent := Sent(from.soldiers, a.allOrHalf);
            Sum(weight, Move(f, pid, a))
            == Sum(weight, f) - weight(from) + weight(from.(soldiers := from.soldiers - sent))
               - weight(c) + weight(Arrive(c, pid, sent))
  {
    var nx, ny := a.x + DX(a.way), a.y + DY(a.way);
    var from := f[a.x][a.y];
    var sent := Sent(from.soldiers, a.allOrHalf);
    var left := from.(soldiers := from.soldiers - sent);
    SumPutTwo(weight, f, a.x, a.y, left, nx, ny, Arrive(f[nx][ny], pid, sent));
  }

  lemma {:induction false} CasualtiesOfOne(b: Battle, owner: int)
    ensures Casualties([b], owner)
            == (if b.attacker == owner then Loss(b) else 0) + (if b.defender == owner then Loss(b) else 0)
    ensures Losses([b]) == Loss(b)
  {
    assert [b][..0] == [];
  }

  /** An action takes the same number from attacker and defender, and nothing from
      anybody else; a move between two cells of one owner conserves its soldiers. */
  lemma {:induction false} MoveAccount(f: Field, pid: int, a: Action, owner: int)
    ensures Sum(TroopsOf(owner), Move(f, pid, a)) == Sum(TroopsOf(owner), f) - Casualties(Fight(f, pid, a), owner)
    ensures Sum(Troops(), Move(f, pid, a)) == Sum(Troops(), f) - 2 * Losses(Fight(f, pid, a))
  {
    if Legal(f, pid, a) {
      MoveSum(TroopsOf(owner), f, pid, a);
      MoveSum(Troops(), f, pid, a);
      if Fight(f, pid, a) != [] {
        CasualtiesOfOne(Fight(f, pid, a)[0], owner);
      }
    }
  }

  // ----- One action from every queue -----

  /** A player's turn: the first action in his queue, if there is one. */
  function Turn(f: Field, pid: int, queue: seq<Action>): (f': Field)
    ensures |f'| == |f| && forall x | 0 <= x < |f| :: |f'[x]| == |f[x]|
  {
    if queue == [] then f else Move(f, pid, queue[0])
  }

  function Clash(f: Field, pid: int, queue: seq<Action>): (log: seq<Battle>)
    ensures |log| <= 1
  {
    if queue == [] then [] else Fight(f, pid, queue[0])
  }

  /** The map after the players below `n` had their turn. */
  function Play(f: Field, queues: seq<seq<Action>>, n: nat): (f': Field)
    requires n <= |queues|
    ensures |f'| == |f| && forall x | 0 <= x < |f| :: |f'[x]| == |f[x]|
  {
    if n == 0 then f else Turn(Play(f, queues, n - 1), n - 1, queues[n - 1])
  }

  function Battles(f: Field, queues: seq<seq<Action>>, n: nat): seq<Battle>
    requires n <= |queues|
  {
    if n == 0 then [] else Battles(f, queues, n - 1) + Clash(Play(f, queues, n - 1), n - 1, queues[n - 1])
  }

  /** Turns are taken in the order of the players, and what is carried out, and fought, in
      a turn is the action at the front of the queue. */
  lemma {:induction false} FrontIsPlayed(f: Field, queues: seq<seq<Action>>, n: nat)
    requires n < |queues|
    ensures Play(f, queues, 0) == f && Battles(f, queues, 0) == []
    ensures queues[n] == [] ==> Play(f, queues, n + 1) == Play(f, queues, n)
                                && Battles(f, queues, n + 1) == Battles(f, queues, n)
    ensures queues[n] != [] ==> Play(f, queues, n + 1) == Move(Play(f, queues, n), n, queues[n][0])
                                && Battles(f, queues, n + 1)
                                   == Battles(f, queues, n) + Fight(Play(f, queues, n), n, queues[n][0])
  {
  }

  /** The queues after the players below `n` had their turn. */
  function Popped(queues: seq<seq<Action>>, n: nat): (q: seq<seq<Action>>)
    requires n <= |queues|
    ensures |q| == |queues|
    ensures forall i | 0 <= i < |q| :: q[i] == if i < n && queues[i] != [] then queues[i][1..] else queues[i]
  {
    seq(|queues|, i requires 0 <= i < |queues| => if i < n && queues[i] != [] then queues[i][1..] else queues[i])
  }

  lemma {:induction false} LogAppend(log: seq<Battle>, more: seq<Battle>, owner: int)
    requires |more| <= 1
    ensures Casualties(log + more, owner) == Casualties(log, owner) + Casualties(more, owner)
    ensures Losses(log + more) == Losses(log) + Losses(more)
  {
    if more == [] {
      assert log + more == log;
    } else {
      assert (log + more)[..|log + more| - 1] == log && more[..0] == [];
    }
  }

  lemma {:induction false} TurnAccount(g: Field, log: seq<Battle>, pid: int, queue: seq<Action>, owner: int)
    returns (h: Field, more: seq<Battle>)
    ensures h == Turn(g, pid, queue) && more == log + Clash(g, pid, queue)
    ensures Sum(TroopsOf(owner), h) + Casualties(more, owner) == Sum(TroopsOf(owner), g) + Casualties(log, owner)
    ensures Sum(Troops(), h) + 2 * Losses(more) == Sum(Troops(), g) + 2 * Losses(log)
  {
    h, more := Turn(g, pid, queue), log + Clash(g, pid, queue);
    LogAppend(log, Clash(g, pid, queue), owner);
    if queue != [] {
      MoveAccount(g, pid, queue[0], owner);
    }
  }

  /** The same over all turns of a round, with the log of its battles. */
  lemma {:induction false} PlayAccount(f: Field, queues: seq<seq<Action>>, n: nat, owner: int)
    returns (g: Field, log: seq<Battle>)
    requires n <= |queues|
    ensures g == Play(f, queues, n) && log == Battles(f, queues, n)
    ensures Sum(TroopsOf(owner), g) == Sum(TroopsOf(owner), f) - Casualties(log, owner)
    ensures Sum(Troops(), g) == Sum(Troops(), f) - 2 * Losses(log)
  {
    if n == 0 {
      g, log := f, [];
    } else {
      g, log := PlayAccount(f, queues, n - 1, owner);
      g, log := TurnAccount(g, log, n - 1, queues[n - 1], owner);
    }
  }

  function PlayRound(f: Field, round: nat, queues: seq<seq<Action>>): Field {
    Play(Grow(f, round), queues, |queues|)
  }

  function BattlesOf(f: Field, round: nat, queues: seq<seq<Action>>): seq<Battle> {
    Battles(Grow(f, round), queues, |queues|)
  }

  /** A round changes every owner's soldiers, the neutral ones too, by its growth
      minus its casualties. */
  lemma {:induction false} RoundAccount(f: Field, round: nat, queues: seq<seq<Action>>, owner: int)
    ensures Sum(TroopsOf(owner), PlayRound(f, round, queues))
            == Sum(TroopsOf(owner), f) + Growth(f, round, owner) - Casualties(BattlesOf(f, round, queues), owner)
  {
    GrowAccount(f, round, owner);
    var g, log := PlayAccount(Grow(f, round), queues, |queues|, owner);
  }

  /** One soldier for every home, castle and, every 25th round, space, except the
      neutral spaces and the neutral castles that are full. */
  function TotalGrowth(f: Field, round: nat): int {
    Sum((c: Cell) => if Grows(c, round) then 1 else 0, f)
  }

  lemma {:induction false} GrowTotal(f: Field, round: nat)
    ensures Sum(Troops(), Grow(f, round)) == Sum(Troops(), f) + TotalGrowth(f, round)
  {
    SumAdd(Troops(), Grow(f, round), Troops(), f, (c: Cell) => if Grows(c, round) then 1 else 0);
  }

  /** The whole map gains what grows and loses twice what falls. */
  lemma {:induction false} RoundTotal(f: Field, round: nat, queues: seq<seq<Action>>)
    ensures Sum(Troops(), PlayRound(f, round, queues))
            == Sum(Troops(), f) + TotalGrowth(f, round) - 2 * Losses(BattlesOf(f, round, queues))
  {
    GrowTotal(f, round);
    var g, log := PlayAccount(Grow(f, round), queues, |queues|, NEUTRAL);
  }

  /** A battle in the turn of the attacker, for a cell of the defender, another owner,
      that he held with so many soldiers when the turn came. */
  predicate Fought(f: Field, queues: seq<seq<Action>>, b: Battle) {
    && 0 <= b.attacker < |queues| && b.attacker != b.defender
    && Holds(Play(f, queues, b.attacker), b)
  }

  predicate Holds(g: Field, b: Battle) {
    Inside(g, b.x, b.y) && g[b.x][b.y].owner == b.defender && g[b.x][b.y].soldiers == b.held
  }

  lemma {:induction false} ClashSides(g: Field, pid: int, queue: seq<Action>)
    requires Clash(g, pid, queue) != []
    ensures var b := Clash(g, pid, queue)[0]; b.attacker == pid != b.defender && Holds(g, b)
  {
  }

  /** Nobody fights alone. */
  lemma {:induction false} BattleSides(f: Field, queues: seq<seq<Action>>, n: nat)
    requires n <= |queues|
    ensures forall i | 0 <= i < |Battles(f, queues, n)| :: Fought(f, queues, Battles(f, queues, n)[i])
  {
    if n > 0 {
      BattleSides(f, queues, n - 1);
      if Clash(Play(f, queues, n - 1), n - 1, queues[n - 1]) != [] {
        ClashSides(Play(f, queues, n - 1), n - 1, queues[n - 1]);
      }
    }
  }
}
