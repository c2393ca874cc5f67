/** Locking a piece into the field: every filled tile of the piece is copied
    into the field cell under it, but only where that cell is still empty. */
module Placement {
  import opened Field

  /** Tile (r, c) comes before tile (row, col) in row-major order. */
  predicate Before(r: int, c: int, row: int, col: int)
  {
    r < row || (r == row && c < col)
  }

  /** The tile of a piece at (x, y) that covers field index i, as (row, col)
      inside the piece's bounding box (possibly outside it). */
  function TileRow(y: int, i: nat): int { i / W + OriginY - y }
  function TileCol(x: int, i: nat): int { i % W + OriginX - x }

  /** Field cell i after the lock has handled every tile before (row, col). */
  function LockedCell(f: seq<int>, x: int, y: int, w: nat, h: nat, m: seq<int>,
                      row: int, col: int, i: nat): int
    requires |f| == Size && |m| == w * h && i < |f|
  {
    var pr, pc := TileRow(y, i), TileCol(x, i);
    if 0 <= pr < h && 0 <= pc < w && Before(pr, pc, row, col) &&
       m[Cell(w, h, pr, pc)] > 0 && f[i] == 0
    then m[Cell(w, h, pr, pc)]
    else f[i]
  }

  /** The whole field after the lock has handled every tile before (row, col). */
  function LockedUpTo(f: seq<int>, x: int, y: int, w: nat, h: nat, m: seq<int>,
                      row: int, col: int): (g: seq<int>)
    requires |f| == Size && |m| == w * h
    ensures |g| == |f|
  {
    seq(|f|, i requires 0 <= i < |f| => LockedCell(f, x, y, w, h, m, row, col, i))
  }

  /** One step of the lock: tile (row, col) is written into the empty field
      cell under it, if the tile is filled and lies inside the grid. */
  function PlaceTile(g: seq<int>, x: int, y: int, w: nat, h: nat, m: seq<int>,
                     row: nat, col: nat): (placed: seq<int>)
    requires |g| == Size && |m| == w * h && row < h && col < w
  {
    var v := m[Cell(w, h, row, col)];
    if InGrid(x + col, y + row) && v > 0 && g[IndexAt(x + col, y + row)] == 0
    then g[IndexAt(x + col, y + row) := v]
    else g
  }

  /** Field index i lies under a filled tile of value v of the piece at (x, y). */
  ghost predicate TileCovers(x: int, y: int, w: nat, h: nat, m: seq<int>, i: int, v: int)
    requires |m| == w * h
  {
    exists r: nat, c: nat :: r < h && c < w && m[Cell(w, h, r, c)] > 0 &&
      InGrid(x + c, y + r) && IndexAt(x + c, y + r) == i && v == m[Cell(w, h, r, c)]
  }

  /** The field after a piece at (x, y) is locked into it: every tile of the
      piece handled in row-major order. */
  function Locked(f: seq<int>, x: int, y: int, w: nat, h: nat, m: seq<int>): (g: seq<int>)
    requires |f| == Size && |m| == w * h
    ensures |g| == |f|
  {
    LockedUpTo(f, x, y, w, h, m, h, 0)
  }

  /** What locking does. Cells that already held a wall or a locked tile are
      kept; every empty cell under a filled tile takes that tile's value; no
      other cell changes. */
  lemma LockedSpec(f: seq<int>, x: int, y: int, w: nat, h: nat, m: seq<int>)
    requires |f| == Size && |m| == w * h
    ensures forall i :: 0 <= i < |f| && f[i] != 0 ==> Locked(f, x, y, w, h, m)[i] == f[i]
    ensures forall r: nat, c: nat ::
      (r < h && c < w && m[Cell(w, h, r, c)] > 0 &&
       InGrid(x + c, y + r) && f[IndexAt(x + c, y + r)] == 0) ==>
      Locked(f, x, y, w, h, m)[IndexAt(x + c, y + r)] == m[Cell(w, h, r, c)]
    ensures forall i :: 0 <= i < |f| && Locked(f, x, y, w, h, m)[i] != f[i] ==>
      f[i] == 0 && TileCovers(x, y, w, h, m, i, Locked(f, x, y, w, h, m)[i])
  {
    var g := Locked(f, x, y, w, h, m);
    forall r: nat, c: nat | r < h && c < w && m[Cell(w, h, r, c)] > 0 &&
      InGrid(x + c, y + r) && f[IndexAt(x + c, y + r)] == 0
      ensures g[IndexAt(x + c, y + r)] == m[Cell(w, h, r, c)]
    {
      var i := IndexAt(x + c, y + r);
      assert TileRow(y, i) == r && TileCol(x, i) == c;
    }
    forall i | 0 <= i < |f| && g[i] != f[i]
      ensures f[i] == 0 && TileCovers(x, y, w, h, m, i, g[i])
    {
      var r: nat, c: nat := TileRow(y, i), TileCol(x, i);
      assert InGrid(x + c, y + r) && IndexAt(x + c, y + r) == i;
    }
  }

  /** Handling tile (row, col) turns the field after the earlier tiles into
      the field after the tiles up to and including it. */
  lemma LockStep(f: seq<int>, x: int, y: int, w: nat, h: nat, m: seq<int>, row: nat, col: nat)
    requires |f| == Size && |m| == w * h && row < h && col < w
    ensures LockedUpTo(f, x, y, w, h, m, row, col + 1) ==
            PlaceTile(LockedUpTo(f, x, y, w, h, m, row, col), x, y, w, h, m, row, col)
  {
    var g := LockedUpTo(f, x, y, w, h, m, row, col);
    var g' := LockedUpTo(f, x, y, w, h, m, row, col + 1);
    var p := PlaceTile(g, x, y, w, h, m, row, col);
    if InGrid(x + col, y + row) {
      var j := IndexAt(x + col, y + row);
      assert TileRow(y, j) == row && TileCol(x, j) == col;
      assert g[j] == f[j];
      forall i | 0 <= i < |f|
        ensures g'[i] == p[i]
      {
        if i != j {
          assert !(TileRow(y, i) == row && TileCol(x, i) == col);
        }
      }
    } else {
      forall i | 0 <= i < |f|
        ensures g'[i] == p[i]
      {
        assert !(TileRow(y, i) == row && TileCol(x, i) == col);
      }
    }
  }

  /** Finishing a row of tiles is starting the next one. */
  lemma LockRowDone(f: seq<int>, x: int, y: int, w: nat, h: nat, m: seq<int>, row: nat)
    requires |f| == Size && |m| == w * h
    ensures LockedUpTo(f, x, y, w, h, m, row, w) == LockedUpTo(f, x, y, w, h, m, row + 1, 0)
  {
    var g := LockedUpTo(f, x, y, w, h, m, row, w);
    var g' := LockedUpTo(f, x, y, w, h, m, row + 1, 0);
    forall i | 0 <= i < |f|
      ensures g[i] == g'[i]
    {
    }
  }

  /** Before any tile is handled the field is unchanged. */
  lemma LockNothing(f: seq<int>, x: int, y: int, w: nat, h: nat, m: seq<int>)
    requires |f| == Size && |m| == w * h
    ensures LockedUpTo(f, x, y, w, h, m, 0, 0) == f
  {
    var g := LockedUpTo(f, x, y, w, h, m, 0, 0);
    forall i | 0 <= i < |f|
      ensures g[i] == f[i]
    {
    }
  }

  /** Locking keeps the field well formed when every tile value lies in 0..8:
      walls are never overwritten and written values stay in range. */
  lemma LockedWellFormed(f: seq<int>, x: int, y: int, w: nat, h: nat, m: seq<int>)
    requires WellFormed(f) && |m| == w * h
    requires forall t :: 0 <= t < |m| ==> 0 <= m[t] <= 8
    ensures WellFormed(Locked(f, x, y, w, h, m))
  {
    var g := Locked(f, x, y, w, h, m);
    LockedSpec(f, x, y, w, h, m);
    forall i | 0 <= i < |g|
      ensures 0 <= g[i] <= Wall
    {
      if g[i] != f[i] {
        assert TileCovers(x, y, w, h, m, i, g[i]);
        var r: nat, c: nat :| r < h && c < w && m[Cell(w, h, r, c)] > 0 &&
          InGrid(x + c, y + r) && IndexAt(x + c, y + r) == i && g[i] == m[Cell(w, h, r, c)];
      }
    }
  }
}
