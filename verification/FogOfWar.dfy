/** What a player may see of the map, and the figures everybody may see. */
module FogOfWar {
  import opened GameMap

  const HIDDEN := Cell(Fog, NEUTRAL, 0)

  /** Some cell of the player lies within one step, diagonals included. */
  predicate Near(f: Field, pid: int, x: int, y: int) {
    exists i, j | x - 1 <= i <= x + 1 && y - 1 <= j <= y + 1 :: Inside(f, i, j) && f[i][j].owner == pid
  }

  function Shown(f: Field, pid: int, x: int, y: int): Cell
    requires Inside(f, x, y)
  {
    if Near(f, pid, x, y) || f[x][y].kind == Mountain then f[x][y] else HIDDEN
  }

  function Mask(f: Field, pid: int): (m: Field)
    ensures SameShape(f, m)
    ensures forall x, y | Inside(f, x, y) :: m[x][y] == Shown(f, pid, x, y)
  {
    seq(|f|, x requires 0 <= x < |f| => seq(|f[x]|, y requires 0 <= y < |f[x]| => Shown(f, pid, x, y)))
  }

  /** Two maps a player cannot tell apart: he owns the same cells, the mountains are the
      same, and so is every cell within one step of his own. */
  ghost predicate Alike(f: Field, g: Field, pid: int) {
    && SameShape(f, g)
    && (forall x, y | Inside(f, x, y) :: f[x][y].owner == pid <==> g[x][y].owner == pid)
    && (forall x, y | Inside(f, x, y) && (f[x][y].kind == Mountain || g[x][y].kind == Mountain) :: f[x][y] == g[x][y])
    && forall x, y | Inside(f, x, y) && Near(f, pid, x, y) :: f[x][y] == g[x][y]
  }

  lemma {:induction false} NearAlike(f: Field, g: Field, pid: int, x: int, y: int)
    requires SameShape(f, g)
    requires forall i, j | Inside(f, i, j) :: f[i][j].owner == pid <==> g[i][j].owner == pid
    ensures Near(f, pid, x, y) <==> Near(g, pid, x, y)
  {
    if Near(f, pid, x, y) {
      var i, j :| x - 1 <= i <= x + 1 && y - 1 <= j <= y + 1 && Inside(f, i, j) && f[i][j].owner == pid;
      assert Inside(g, i, j);
    }
    if Near(g, pid, x, y) {
      var i, j :| x - 1 <= i <= x + 1 && y - 1 <= j <= y + 1 && Inside(g, i, j) && g[i][j].owner == pid;
      assert Inside(f, i, j);
    }
  }

  /** Maps that are alike to the player are masked alike. */
  lemma {:induction false} MaskDoesNotInterfere(f: Field, g: Field, pid: int)
    requires Alike(f, g, pid)
    ensures Mask(f, pid) == Mask(g, pid)
  {
    var m: Field, n: Field := Mask(f, pid), Mask(g, pid);
    forall x, y | Inside(m, x, y) ensures m[x][y] == n[x][y] {
      assert Inside(f, x, y) && Inside(g, x, y);
      NearAlike(f, g, pid, x, y);
    }
    forall x | 0 <= x < |m| ensures m[x] == n[x] {
      assert forall y | 0 <= y < |m[x]| :: Inside(m, x, y);
    }
  }

  /** The masked map keeps the player's own cells, and shows them. */
  lemma {:induction false} MaskKeepsOwn(f: Field, pid: int, x: int, y: int)
    requires pid >= 0 && Inside(f, x, y)
    ensures Mask(f, pid)[x][y].owner == pid <==> f[x][y].owner == pid
  {
    if f[x][y].owner == pid {
      assert Near(f, pid, x, y);
    }
  }

  /** The mask hides all it is ever going to hide: nothing is left to mask. */
  lemma {:induction false} MaskIsIdempotent(f: Field, pid: int)
    requires pid >= 0
    ensures Mask(Mask(f, pid), pid) == Mask(f, pid)
  {
    var m: Field := Mask(f, pid);
    forall x, y | Inside(f, x, y) ensures f[x][y].owner == pid <==> m[x][y].owner == pid {
      MaskKeepsOwn(f, pid, x, y);
    }
    var n: Field := Mask(m, pid);
    forall x, y | Inside(m, x, y) ensures n[x][y] == m[x][y] {
      assert Inside(f, x, y);
      NearAlike(f, m, pid, x, y);
    }
    forall x | 0 <= x < |m| ensures n[x] == m[x] {
      assert forall y | 0 <= y < |m[x]| :: Inside(m, x, y);
    }
  }

  ghost predicate NoFog(f: Field) {
    forall x, y | Inside(f, x, y) :: f[x][y].kind != Fog
  }

  lemma {:induction false} MaskTellsAll(f: Field, g: Field, pid: int)
    requires pid >= 0 && SameShape(f, g) && NoFog(f) && NoFog(g)
    requires Mask(f, pid) == Mask(g, pid)
    ensures Alike(f, g, pid)
  {
    forall x, y | Inside(f, x, y) ensures f[x][y].owner == pid <==> g[x][y].owner == pid {
      assert Inside(g, x, y);
      MaskKeepsOwn(f, pid, x, y);
      MaskKeepsOwn(g, pid, x, y);
    }
    forall x, y | Inside(f, x, y)
      ensures Near(f, pid, x, y) || f[x][y].kind == Mountain || g[x][y].kind == Mountain ==> f[x][y] == g[x][y]
    {
      assert Inside(g, x, y);
      assert Mask(f, pid)[x][y] == Shown(f, pid, x, y);
      assert Mask(g, pid)[x][y] == Shown(g, pid, x, y);
    }
  }

  /** The masked map shows a player his own cells, the mountains and the cells within
      one step of his own, and not a bit of the rest. */
  lemma {:induction false} MaskIsExact(f: Field, g: Field, pid: int)
    requires pid >= 0 && SameShape(f, g) && NoFog(f) && NoFog(g)
    ensures Mask(f, pid) == Mask(g, pid) <==> Alike(f, g, pid)
  {
    if Mask(f, pid) == Mask(g, pid) {
      MaskTellsAll(f, g, pid);
    }
    if Alike(f, g, pid) {
      MaskDoesNotInterfere(f, g, pid);
    }
  }

  // ----- The flat array -----

  /** The rows one behind the other. */
  function Flat(f: Field): seq<Cell> {
    if f == [] then [] else Flat(f[..|f| - 1]) + f[|f| - 1]
  }

  lemma {:induction false} Rows(x: nat, n: nat, sizeY: nat)
    requires x < n
    ensures x * sizeY + sizeY <= n * sizeY && (x + 1) * sizeY == x * sizeY + sizeY
  {
    var d := n - x - 1;
    assert n * sizeY == x * sizeY + sizeY + d * sizeY;
  }

  lemma {:induction false} FlatLength(f: Field, sizeY: nat)
    requires HasSize(f, |f|, sizeY)
    ensures |Flat(f)| == |f| * sizeY
  {
    if f != [] {
      FlatLength(f[..|f| - 1], sizeY);
      Rows(|f| - 1, |f|, sizeY);
    }
  }

  /** The cell at row x and column y stands at x * sizeY + y. */
  lemma {:induction false} FlatAt(f: Field, sizeY: nat, x: nat, y: nat)
    requires HasSize(f, |f|, sizeY) && x < |f| && y < sizeY
    ensures |Flat(f)| == |f| * sizeY
    ensures 0 <= x * sizeY + y < |Flat(f)| && Flat(f)[x * sizeY + y] == f[x][y]
  {
    var init := f[..|f| - 1];
    FlatLength(f, sizeY);
    FlatLength(init, sizeY);
    Rows(x, |f|, sizeY);
    if x < |f| - 1 {
      FlatAt(init, sizeY, x, y);
    }
  }
}
