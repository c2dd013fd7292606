/** The grid of a game: its cells, and sums over them. */
module GameMap {
  const NEUTRAL := -1
  const CASTLE_DEFAULT := 40

  datatype Kind = Fog | Mountain | Castle | Space | Home

  datatype Cell = Cell(kind: Kind, owner: int, soldiers: int)

  /** Rows of cells, as the source's vector of vectors. */
  type Field = seq<seq<Cell>>

  predicate HasSize(f: Field, sizeX: nat, sizeY: nat) {
    |f| == sizeX && forall x | 0 <= x < |f| :: |f[x]| == sizeY
  }

  predicate Inside(f: Field, x: int, y: int) {
    0 <= x < |f| && 0 <= y < |f[x]|
  }

  predicate SameShape(f: Field, g: Field) {
    |g| == |f| && forall x | 0 <= x < |f| :: |g[x]| == |f[x]|
  }

  function Put(f: Field, x: int, y: int, c: Cell): (f': Field)
    requires Inside(f, x, y)
    ensures SameShape(f, f')
    ensures f'[x][y] == c
    ensures forall i, j | Inside(f, i, j) && (i != x || j != y) :: f'[i][j] == f[i][j]
  {
    f[x := f[x][y := c]]
  }

  // ----- Sums -----

  function RowSum(weight: Cell -> int, row: seq<Cell>): int {
    if row == [] then 0 else RowSum(weight, row[..|row| - 1]) + weight(row[|row| - 1])
  }

  function Sum(weight: Cell -> int, f: Field): int {
    if f == [] then 0 else Sum(weight, f[..|f| - 1]) + RowSum(weight, f[|f| - 1])
  }

  /** All soldiers, and those of one owner. */
  function Troops(): Cell -> int { (c: Cell) => c.soldiers }

  function TroopsOf(owner: int): Cell -> int { (c: Cell) => if c.owner == owner then c.soldiers else 0 }

  /** Cells of one owner, of one kind, and of both. */
  function CellsOf(owner: int): Cell -> int { (c: Cell) => if c.owner == owner then 1 else 0 }

  function OfKind(kind: Kind): Cell -> int { (c: Cell) => if c.kind == kind then 1 else 0 }

  function OwnedKind(owner: int, kind: Kind): Cell -> int {
    (c: Cell) => if c.owner == owner && c.kind == kind then 1 else 0
  }

  lemma {:induction false} RowSumPut(weight: Cell -> int, row: seq<Cell>, y: nat, c: Cell)
    requires y < |row|
    ensures RowSum(weight, row[y := c]) == RowSum(weight, row) - weight(row[y]) + weight(c)
  {
    var init := row[..|row| - 1];
    if y == |row| - 1 {
      assert row[y := c][..y] == init;
    } else {
      RowSumPut(weight, init, y, c);
      assert row[y := c][..|row| - 1] == init[y := c];
    }
  }

  lemma {:induction false} SumReplaceRow(weight: Cell -> int, f: Field, x: nat, row: seq<Cell>)
    requires x < |f|
    ensures Sum(weight, f[x := row]) == Sum(weight, f) - RowSum(weight, f[x]) + RowSum(weight, row)
  {
    var init := f[..|f| - 1];
    if x == |f| - 1 {
      assert f[x := row][..x] == init;
    } else {
      SumReplaceRow(weight, init, x, row);
      assert f[x := row][..|f| - 1] == init[x := row];
    }
  }

  /** Replacing one cell changes a sum by the difference of the weights. */
  lemma {:induction false} SumPut(weight: Cell -> int, f: Field, x: int, y: int, c: Cell)
    requires Inside(f, x, y)
    ensures Sum(weight, Put(f, x, y, c)) == Sum(weight, f) - weight(f[x][y]) + weight(c)
  {
    RowSumPut(weight, f[x], y, c);
    SumReplaceRow(weight, f, x, f[x][y := c]);
  }

  lemma {:induction false} SumPutTwo(weight: Cell -> int, f: Field, x: int, y: int, c: Cell, i: int, j: int, d: Cell)
    requires Inside(f, x, y) && Inside(f, i, j) && (i != x || j != y)
    ensures Sum(weight, Put(Put(f, x, y, c), i, j, d))
            == Sum(weight, f) - weight(f[x][y]) + weight(c) - weight(f[i][j]) + weight(d)
  {
    SumPut(weight, f, x, y, c);
    SumPut(weight, Put(f, x, y, c), i, j, d);
  }

  lemma {:induction false} RowSumAdd(w: Cell -> int, row: seq<Cell>, w1: Cell -> int, row1: seq<Cell>, w2: Cell -> int)
    requires |row| == |row1|
    requires forall y | 0 <= y < |row| :: w(row[y]) == w1(row1[y]) + w2(row1[y])
    ensures RowSum(w, row) == RowSum(w1, row1) + RowSum(w2, row1)
  {
    if row != [] {
      RowSumAdd(w, row[..|row| - 1], w1, row1[..|row| - 1], w2);
    }
  }

  /** A weight that is the sum of two others, cell by cell, sums to their sum. */
  lemma {:induction false} SumAdd(w: Cell -> int, f: Field, w1: Cell -> int, f1: Field, w2: Cell -> int)
    requires SameShape(f, f1)
    requires forall x, y | Inside(f, x, y) :: w(f[x][y]) == w1(f1[x][y]) + w2(f1[x][y])
    ensures Sum(w, f) == Sum(w1, f1) + Sum(w2, f1)
  {
    if f != [] {
      var n := |f| - 1;
      assert forall y | 0 <= y < |f[n]| :: Inside(f, n, y);
      assert forall x, y | Inside(f[..n], x, y) :: Inside(f, x, y);
      RowSumAdd(w, f[n], w1, f1[n], w2);
      SumAdd(w, f[..n], w1, f1[..n], w2);
    }
  }

  lemma {:induction false} RowSumAtMost(w: Cell -> int, row: seq<Cell>, w1: Cell -> int, row1: seq<Cell>)
    requires |row| == |row1| && forall y | 0 <= y < |row| :: w(row[y]) <= w1(row1[y])
    ensures RowSum(w, row) <= RowSum(w1, row1)
  {
    if row != [] {
      RowSumAtMost(w, row[..|row| - 1], w1, row1[..|row| - 1]);
    }
  }

  lemma {:induction false} SumAtMost(w: Cell -> int, f: Field, w1: Cell -> int, f1: Field)
    requires SameShape(f, f1)
    requires forall x, y | Inside(f, x, y) :: w(f[x][y]) <= w1(f1[x][y])
    ensures Sum(w, f) <= Sum(w1, f1)
  {
    if f != [] {
      var n := |f| - 1;
      assert forall y | 0 <= y < |f[n]| :: Inside(f, n, y);
      assert forall x, y | Inside(f[..n], x, y) :: Inside(f, x, y);
      RowSumAtMost(w, f[n], w1, f1[n]);
      SumAtMost(w, f[..n], w1, f1[..n]);
    }
  }

  lemma {:induction false} RowCellAtMostSum(w: Cell -> int, row: seq<Cell>, y: nat)
    requires y < |row| && forall j | 0 <= j < |row| :: w(row[j]) >= 0
    ensures 0 <= w(row[y]) <= RowSum(w, row)
  {
    var init := row[..|row| - 1];
    if y < |row| - 1 {
      RowCellAtMostSum(w, init, y);
    } else if init != [] {
      RowCellAtMostSum(w, init, 0);
    }
  }

  /** One cell of a field of non-negative weights weighs no more than the whole. */
  lemma {:induction false} CellAtMostSum(w: Cell -> int, f: Field, x: int, y: int)
    requires Inside(f, x, y) && forall i, j | Inside(f, i, j) :: w(f[i][j]) >= 0
    ensures w(f[x][y]) <= Sum(w, f)
  {
    var n := |f| - 1;
    SumNonNegative(w, f[..n]);
    assert forall j | 0 <= j < |f[n]| :: Inside(f, n, j);
    if x < n {
      assert Inside(f[..n], x, y);
      CellAtMostSum(w, f[..n], x, y);
      if f[n] != [] {
        RowCellAtMostSum(w, f[n], 0);
      }
    } else {
      RowCellAtMostSum(w, f[n], y);
    }
  }

  lemma {:induction false} SumNonNegative(w: Cell -> int, f: Field)
    requires forall i, j | Inside(f, i, j) :: w(f[i][j]) >= 0
    ensures Sum(w, f) >= 0
  {
    if f != [] {
      var n := |f| - 1;
      assert forall j | 0 <= j < |f[n]| :: Inside(f, n, j);
      assert forall i, j | Inside(f[..n], i, j) :: Inside(f, i, j);
      SumNonNegative(w, f[..n]);
      if f[n] != [] {
        RowCellAtMostSum(w, f[n], 0);
      }
    }
  }

  // ----- Totals of the owners -----

  /** The soldiers of the owners below `n`, neutral included. */
  function TotalOfOwners(f: Field, n: nat): int {
    if n == 0 then Sum(TroopsOf(NEUTRAL), f) else TotalOfOwners(f, n - 1) + Sum(TroopsOf(n - 1), f)
  }

  function TroopsBelow(n: nat): Cell -> int { (c: Cell) => if -1 <= c.owner < n then c.soldiers else 0 }

  lemma {:induction false} OwnersBelow(f: Field, n: nat)
    ensures TotalOfOwners(f, n) == Sum(TroopsBelow(n), f)
  {
    if n == 0 {
      SumAdd(TroopsBelow(0), f, TroopsOf(NEUTRAL), f, (c: Cell) => 0);
      SumAdd((c: Cell) => 0, f, (c: Cell) => 0, f, (c: Cell) => 0);
    } else {
      OwnersBelow(f, n - 1);
      SumAdd(TroopsBelow(n), f, TroopsBelow(n - 1), f, TroopsOf(n - 1));
    }
  }

  /** The owners' totals add up to the total of the map. */
  lemma {:induction false} OwnersAddUp(f: Field, n: nat)
    requires forall x, y | Inside(f, x, y) :: -1 <= f[x][y].owner < n
    ensures TotalOfOwners(f, n) == Sum(Troops(), f)
  {
    OwnersBelow(f, n);
    SumAtMost(TroopsBelow(n), f, Troops(), f);
    SumAtMost(Troops(), f, TroopsBelow(n), f);
  }
}
