/** The playfield: a flat row-major list of W x H cells. Walls hold 9, empty
    cells 0, locked cells the colour id of the piece that was locked there.
    The game wraps the list in a piece placed at (OriginX, OriginY), so field
    cell (row, col) sits at absolute coordinate (col, row - 2). */
module Field {

  /** FIELD_W and FIELD_H. */
  const W: int := 12
  const H: int := 21
  const Size: int := W * H

  /** Position of the field wrapper piece. */
  const OriginX: int := 0
  const OriginY: int := -2

  /** Marker written into border cells. */
  const Wall: int := 9

  /** a * w <= b * w whenever a <= b. */
  lemma MulMonotone(a: nat, b: nat, w: nat)
    requires a <= b
    ensures a * w <= b * w
  {
  }

  /** Flat index of (row, col) in a row-major list of width w and height h. */
  function Cell(w: nat, h: nat, row: nat, col: nat): (i: nat)
    requires row < h && col < w
    ensures i < w * h
  {
    MulMonotone(row + 1, h, w);
    row * w + col
  }

  /** Distinct cells of a row-major grid have distinct flat indices. */
  lemma CellInjective(w: nat, h: nat, r1: nat, c1: nat, r2: nat, c2: nat)
    requires r1 < h && c1 < w && r2 < h && c2 < w
    requires Cell(w, h, r1, c1) == Cell(w, h, r2, c2)
    ensures r1 == r2 && c1 == c2
  {
    if r1 < r2 {
      MulMonotone(r1 + 1, r2, w);
    } else if r2 < r1 {
      MulMonotone(r2 + 1, r1, w);
    }
  }

  /** Whether a cell of a w x h grid is a border cell: first or last column,
      or the bottom row. */
  predicate IsBorder(w: nat, h: nat, row: nat, col: nat)
  {
    col == 0 || col == w - 1 || row == h - 1
  }

  /** The cells of a w x h list filled so far: border cells before (row, col)
      in row-major order hold the wall marker, every other cell 0. */
  ghost predicate FilledUpTo(s: seq<int>, w: nat, h: nat, row: nat, col: nat)
  {
    |s| == w * h &&
    forall r: nat, c: nat :: r < h && c < w ==>
      s[Cell(w, h, r, c)] == if (r < row || (r == row && c < col)) && IsBorder(w, h, r, c) then Wall else 0
  }

  /** Handling cell (row, col) extends the filled part by one cell. */
  lemma FillStep(s: seq<int>, w: nat, h: nat, row: nat, col: nat)
    requires row < h && col < w && FilledUpTo(s, w, h, row, col)
    ensures FilledUpTo(if IsBorder(w, h, row, col) then s[Cell(w, h, row, col) := Wall] else s,
                       w, h, row, col + 1)
  {
    var index := Cell(w, h, row, col);
    forall r: nat, c: nat | r < h && c < w && Cell(w, h, r, c) == index
      ensures r == row && c == col
    {
      CellInjective(w, h, r, c, row, col);
    }
  }

  /** create_field: a w*h list whose border cells hold 9 and whose other cells
      hold 0. */
  method CreateField(w: nat, h: nat) returns (f: seq<int>)
    ensures |f| == w * h
    ensures forall row: nat, col: nat :: row < h && col < w ==>
      f[Cell(w, h, row, col)] == if IsBorder(w, h, row, col) then Wall else 0
  {
    var a := new int[w * h](_ => 0);
    for row := 0 to h
      invariant FilledUpTo(a[..], w, h, row, 0)
    {
      for col := 0 to w
        invariant FilledUpTo(a[..], w, h, row, col)
      {
        var index := Cell(w, h, row, col);
        FillStep(a[..], w, h, row, col);
        if col == 0 || col == w - 1 || row == h - 1 {
          a[index] := Wall;
        }
      }
    }
    f := a[..];
  }

  /** Whether absolute coordinate (ax, ay) is inside the field grid. */
  predicate InGrid(ax: int, ay: int)
  {
    0 <= ax - OriginX < W && 0 <= ay - OriginY < H
  }

  /** Flat index of the field cell at absolute coordinate (ax, ay). */
  function IndexAt(ax: int, ay: int): (i: nat)
    requires InGrid(ax, ay)
    ensures i < Size
  {
    Cell(W, H, ay - OriginY, ax - OriginX)
  }

  /** The invariant every field of a running game keeps: W*H cells, border
      cells hold the wall marker, and every cell holds a value in 0..9. */
  ghost predicate WellFormed(f: seq<int>)
  {
    |f| == Size &&
    (forall row: nat, col: nat :: row < H && col < W && IsBorder(W, H, row, col) ==>
      f[Cell(W, H, row, col)] == Wall) &&
    (forall i :: 0 <= i < |f| ==> 0 <= f[i] <= Wall)
  }

  /** The field create_field(FIELD_W, FIELD_H) builds is well formed. */
  lemma NewFieldWellFormed(f: seq<int>)
    requires |f| == W * H
    requires forall row: nat, col: nat :: row < H && col < W ==>
      f[Cell(W, H, row, col)] == if IsBorder(W, H, row, col) then Wall else 0
    ensures WellFormed(f)
  {
    forall i | 0 <= i < |f|
      ensures 0 <= f[i] <= Wall
    {
      assert i == Cell(W, H, i / W, i % W);
    }
  }
}
