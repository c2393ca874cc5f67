/** Overlap of a piece pose with the filled cells of the field. A pose is the
    piece's top-left absolute position (x, y), its bounding box w x h and its
    current flat tile list m. */
module Collision {
  import opened Field

  /** Piece tile (r, c) is filled and lands on a filled cell of the field grid. */
  predicate TileHits(f: seq<int>, x: int, y: int, w: nat, h: nat, m: seq<int>, r: nat, c: nat)
    requires |f| == Size && |m| == w * h && r < h && c < w
  {
    m[Cell(w, h, r, c)] > 0 && InGrid(x + c, y + r) && f[IndexAt(x + c, y + r)] > 0
  }

  /** Direct lookup: some filled piece tile lies on a filled field cell. Tiles
      outside the field grid touch nothing. */
  predicate Overlaps(f: seq<int>, x: int, y: int, w: nat, h: nat, m: seq<int>)
    requires |f| == Size && |m| == w * h
  {
    exists r: nat, c: nat :: r < h && c < w && TileHits(f, x, y, w, h, m, r, c)
  }

  /** Filled piece tile (pr, pc) and filled field cell (fr, fc) share one
      absolute coordinate, the field cell sitting at (OriginX + fc, OriginY + fr). */
  predicate SharesCell(f: seq<int>, x: int, y: int, w: nat, h: nat, m: seq<int>,
                       pr: nat, pc: nat, fr: nat, fc: nat)
    requires |f| == Size && |m| == w * h
  {
    pr < h && pc < w && fr < H && fc < W &&
    x + pc == OriginX + fc && y + pr == OriginY + fr &&
    m[Cell(w, h, pr, pc)] > 0 && f[Cell(W, H, fr, fc)] > 0
  }

  /** The source's formulation: some filled piece tile and some filled field
      cell share the same absolute coordinate. */
  ghost predicate SharedCoordinate(f: seq<int>, x: int, y: int, w: nat, h: nat, m: seq<int>)
    requires |f| == Size && |m| == w * h
  {
    exists pr: nat, pc: nat, fr: nat, fc: nat :: SharesCell(f, x, y, w, h, m, pr, pc, fr, fc)
  }

  /** A shared filled coordinate is a filled tile over a filled cell. */
  lemma SharesCellHits(f: seq<int>, x: int, y: int, w: nat, h: nat, m: seq<int>,
                       pr: nat, pc: nat, fr: nat, fc: nat)
    requires |f| == Size && |m| == w * h
    requires SharesCell(f, x, y, w, h, m, pr, pc, fr, fc)
    ensures TileHits(f, x, y, w, h, m, pr, pc)
  {
    assert IndexAt(x + pc, y + pr) == Cell(W, H, fr, fc);
  }

  /** The cross product over piece tiles and field cells finds a shared filled
      coordinate exactly when the direct lookup does. */
  lemma SharedCoordinateIsLookup(f: seq<int>, x: int, y: int, w: nat, h: nat, m: seq<int>)
    requires |f| == Size && |m| == w * h
    ensures SharedCoordinate(f, x, y, w, h, m) <==> Overlaps(f, x, y, w, h, m)
  {
    if SharedCoordinate(f, x, y, w, h, m) {
      var pr: nat, pc: nat, fr: nat, fc: nat :| SharesCell(f, x, y, w, h, m, pr, pc, fr, fc);
      SharesCellHits(f, x, y, w, h, m, pr, pc, fr, fc);
    }
    if Overlaps(f, x, y, w, h, m) {
      var r: nat, c: nat :| r < h && c < w && TileHits(f, x, y, w, h, m, r, c);
      var fr: nat, fc: nat := y + r - OriginY, x + c - OriginX;
      assert SharesCell(f, x, y, w, h, m, r, c, fr, fc);
    }
  }

  /** A pose whose filled tiles all lie on empty cells, or outside the grid,
      does not collide. */
  lemma EmptyUnderneathNoCollision(f: seq<int>, x: int, y: int, w: nat, h: nat, m: seq<int>)
    requires |f| == Size && |m| == w * h
    requires forall r: nat, c: nat :: r < h && c < w && m[Cell(w, h, r, c)] > 0 && InGrid(x + c, y + r) ==>
      f[IndexAt(x + c, y + r)] == 0
    ensures !Overlaps(f, x, y, w, h, m)
  {
  }
}
