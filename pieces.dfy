/** The seven tetromino kinds, their rotation tables, and the Tetromino object
    (a position, a rotation index into its table, and the current tile list). */
module Pieces {

  /** The piece names create_piece chooses from. */
  datatype Kind = L | J | S | Z | T | O | I

  /** Colour id written into every filled tile of a kind. */
  function Colour(k: Kind): (c: int)
    ensures 2 <= c <= 8
  {
    match k
    case L => 2
    case J => 3
    case S => 4
    case Z => 5
    case T => 6
    case O => 7
    case I => 8
  }

  /** Width of the bounding box: 2 for O, 4 for I, 3 for the others. */
  function Width(k: Kind): (w: nat)
  {
    match k
    case O => 2
    case I => 4
    case _ => 3
  }

  /** Height of the bounding box (always equal to the width). */
  function Height(k: Kind): (h: nat)
  {
    Width(k)
  }

  /** Number of rotation states in the table of a kind. */
  function StateCount(k: Kind): (n: nat)
  {
    match k
    case O => 1
    case S => 2
    case Z => 2
    case I => 2
    case _ => 4
  }

  /** Flat positions of the filled tiles of a tile list. */
  function Filled(s: seq<int>): set<int>
  {
    set i | 0 <= i < |s| && s[i] != 0
  }

  /** A tile list is one tetromino of colour c: every entry is 0 or c,
      and exactly four entries are filled. */
  predicate IsTetromino(s: seq<int>, c: int)
  {
    (forall v :: v in s ==> v == 0 || v == c) && |Filled(s)| == 4
  }

  /** The rotation tables of create_piece, one flat row-major tile list per state. */
  function Tiles(k: Kind): (t: seq<seq<int>>)
    ensures |t| == StateCount(k)
  {
    match k
    case L =>
      [[0, 2, 0, 0, 2, 0, 0, 2, 2],
       [0, 0, 0, 2, 2, 2, 2, 0, 0],
       [2, 2, 0, 0, 2, 0, 0, 2, 0],
       [0, 0, 2, 2, 2, 2, 0, 0, 0]]
    case J =>
      [[0, 3, 0, 0, 3, 0, 3, 3, 0],
       [3, 0, 0, 3, 3, 3, 0, 0, 0],
       [0, 3, 3, 0, 3, 0, 0, 3, 0],
       [0, 0, 0, 3, 3, 3, 0, 0, 3]]
    case S =>
      [[0, 4, 4, 4, 4, 0, 0, 0, 0],
       [4, 0, 0, 4, 4, 0, 0, 4, 0]]
    case Z =>
      [[5, 5, 0, 0, 5, 5, 0, 0, 0],
       [0, 0, 5, 0, 5, 5, 0, 5, 0]]
    case T =>
      [[0, 0, 0, 6, 6, 6, 0, 6, 0],
       [0, 6, 0, 6, 6, 0, 0, 6, 0],
       [0, 6, 0, 6, 6, 6, 0, 0, 0],
       [0, 6, 0, 0, 6, 6, 0, 6, 0]]
    case O =>
      [[7, 7, 7, 7]]
    case I =>
      [[0, 8, 0, 0, 0, 8, 0, 0, 0, 8, 0, 0, 0, 8, 0, 0],
       [0, 0, 0, 0, 8, 8, 8, 8, 0, 0, 0, 0, 0, 0, 0, 0]]
  }

  /** State `j` of the table of kind `k` has w*h tiles and is one tetromino in
      the colour of its kind. */
  lemma StateIsTetromino(k: Kind, j: nat)
    requires j < |Tiles(k)|
    ensures |Tiles(k)[j]| == Width(k) * Height(k) && IsTetromino(Tiles(k)[j], Colour(k))
  {
    match k
    case L => LCells(j);
    case J => JCells(j);
    case S => SCells(j);
    case Z => ZCells(j);
    case T => TCells(j);
    case O => OCells(j);
    case I => ICells(j);
  }

  /** The four filled positions of each state of the L table. */
  lemma LCells(j: nat)
    requires j < |Tiles(L)|
    ensures |Tiles(L)[j]| == Width(L) * Height(L) && IsTetromino(Tiles(L)[j], 2)
  {
    if j == 0 {
      assert Filled(Tiles(L)[0]) == {1, 4, 7, 8};
    } else if j == 1 {
      assert Filled(Tiles(L)[1]) == {3, 4, 5, 6};
    } else if j == 2 {
      assert Filled(Tiles(L)[2]) == {0, 1, 4, 7};
    } else {
      assert Filled(Tiles(L)[3]) == {2, 3, 4, 5};
    }
  }

  /** The four filled positions of each state of the J table. */
  lemma JCells(j: nat)
    requires j < |Tiles(J)|
    ensures |Tiles(J)[j]| == Width(J) * Height(J) && IsTetromino(Tiles(J)[j], 3)
  {
    if j == 0 {
      assert Filled(Tiles(J)[0]) == {1, 4, 6, 7};
    } else if j == 1 {
      assert Filled(Tiles(J)[1]) == {0, 3, 4, 5};
    } else if j == 2 {
      assert Filled(Tiles(J)[2]) == {1, 2, 4, 7};
    } else {
      assert Filled(Tiles(J)[3]) == {3, 4, 5, 8};
    }
  }

  /** The four filled positions of each state of the S table. */
  lemma SCells(j: nat)
    requires j < |Tiles(S)|
    ensures |Tiles(S)[j]| == Width(S) * Height(S) && IsTetromino(Tiles(S)[j], 4)
  {
    if j == 0 {
      assert Filled(Tiles(S)[0]) == {1, 2, 3, 4};
    } else {
      assert Filled(Tiles(S)[1]) == {0, 3, 4, 7};
    }
  }

  /** The four filled positions of each state of the Z table. */
  lemma ZCells(j: nat)
    requires j < |Tiles(Z)|
    ensures |Tiles(Z)[j]| == Width(Z) * Height(Z) && IsTetromino(Tiles(Z)[j], 5)
  {
    if j == 0 {
      assert Filled(Tiles(Z)[0]) == {0, 1, 4, 5};
    } else {
      assert Filled(Tiles(Z)[1]) == {2, 4, 5, 7};
    }
  }

  /** The four filled positions of each state of the T table. */
  lemma TCells(j: nat)
    requires j < |Tiles(T)|
    ensures |Tiles(T)[j]| == Width(T) * Height(T) && IsTetromino(Tiles(T)[j], 6)
  {
    if j == 0 {
      assert Filled(Tiles(T)[0]) == {3, 4, 5, 7};
    } else if j == 1 {
      assert Filled(Tiles(T)[1]) == {1, 3, 4, 7};
    } else if j == 2 {
      assert Filled(Tiles(T)[2]) == {1, 3, 4, 5};
    } else {
      assert Filled(Tiles(T)[3]) == {1, 4, 5, 7};
    }
  }

  /** The four filled positions of each state of the O table. */
  lemma OCells(j: nat)
    requires j < |Tiles(O)|
    ensures |Tiles(O)[j]| == Width(O) * Height(O) && IsTetromino(Tiles(O)[j], 7)
  {
    assert Filled(Tiles(O)[0]) == {0, 1, 2, 3};
  }

  /** The four filled positions of each state of the I table. */
  lemma ICells(j: nat)
    requires j < |Tiles(I)|
    ensures |Tiles(I)[j]| == Width(I) * Height(I) && IsTetromino(Tiles(I)[j], 8)
  {
    if j == 0 {
      assert Filled(Tiles(I)[0]) == {1, 5, 9, 13};
    } else {
      assert Filled(Tiles(I)[1]) == {4, 5, 6, 7};
    }
  }

  /** Every state of every table is a tetromino of the kind's colour. */
  lemma TablesAreTetrominoes(k: Kind)
    ensures forall j :: 0 <= j < |Tiles(k)| ==>
      |Tiles(k)[j]| == Width(k) * Height(k) && IsTetromino(Tiles(k)[j], Colour(k))
  {
    forall j | 0 <= j < |Tiles(k)|
      ensures |Tiles(k)[j]| == Width(k) * Height(k) && IsTetromino(Tiles(k)[j], Colour(k))
    {
      StateIsTetromino(k, j);
    }
  }

  /** What a Tetromino needs of its table: 1, 2 or 4 states, each with w*h
      tiles valued 0..8. */
  lemma TablesWellFormed(k: Kind)
    ensures |Tiles(k)| in {1, 2, 4}
    ensures forall j :: 0 <= j < |Tiles(k)| ==>
      |Tiles(k)[j]| == Width(k) * Height(k) &&
      forall t :: 0 <= t < |Tiles(k)[j]| ==> 0 <= Tiles(k)[j][t] <= 8
  {
    forall j | 0 <= j < |Tiles(k)|
      ensures |Tiles(k)[j]| == Width(k) * Height(k) &&
        forall t :: 0 <= t < |Tiles(k)[j]| ==> 0 <= Tiles(k)[j][t] <= 8
    {
      var s := Tiles(k)[j];
      StateIsTetromino(k, j);
      forall t | 0 <= t < |s|
        ensures 0 <= s[t] <= 8
      {
        assert s[t] in s;
      }
    }
  }

  /** The index reached from `i` after `k` rotations of a table with `n` states. */
  function RotatedIndex(i: nat, n: nat, k: nat): (r: nat)
    requires i < n
    ensures r < n
    decreases k
  {
    if k == 0 then i else RotatedIndex(if i + 1 < n then i + 1 else 0, n, k - 1)
  }

  /** Closed form of up to `n` rotations: the index wraps to 0 exactly once it
      passes the last state. */
  lemma {:induction false} RotatedIndexWraps(i: nat, n: nat, k: nat)
    requires i < n && k <= n
    ensures RotatedIndex(i, n, k) == if i + k < n then i + k else i + k - n
    decreases k
  {
    if k > 0 {
      if i + 1 < n {
        RotatedIndexWraps(i + 1, n, k - 1);
      } else {
        RotatedIndexWraps(0, n, k - 1);
      }
    }
  }

  /** `a` rotations followed by `b` rotations are `a + b` rotations. */
  lemma {:induction false} RotatedIndexAdds(i: nat, n: nat, a: nat, b: nat)
    requires i < n
    ensures RotatedIndex(RotatedIndex(i, n, a), n, b) == RotatedIndex(i, n, a + b)
    decreases a
  {
    if a > 0 {
      RotatedIndexAdds(if i + 1 < n then i + 1 else 0, n, a - 1, b);
    }
  }

  /** Rotating as many times as the table has states restores the start index. */
  lemma FullTurn(i: nat, n: nat)
    requires i < n
    ensures RotatedIndex(i, n, n) == i
  {
    RotatedIndexWraps(i, n, n);
  }

  /** One rotation followed by three more is the identity on every table of
      1, 2 or 4 states, the only sizes create_piece produces. */
  lemma {:induction false} FourTurns(i: nat, n: nat)
    requires i < n && n in {1, 2, 4}
    ensures RotatedIndex(i, n, 4) == i
  {
    if n == 4 {
      FullTurn(i, n);
    } else if n == 2 {
      FullTurn(i, n);
      RotatedIndexAdds(i, n, 2, 2);
    } else {
      FullTurn(i, n);
      RotatedIndexAdds(i, n, 1, 1);
      RotatedIndexAdds(i, n, 2, 2);
    }
  }

  /** The up-key handler's undo: after one rotation, three single rotations
      lead back to the start index on every table of 1, 2 or 4 states. */
  lemma TurnBack(i: nat, n: nat)
    requires i < n && n in {1, 2, 4}
    ensures RotatedIndex(RotatedIndex(RotatedIndex(RotatedIndex(i, n, 1), n, 1), n, 1), n, 1) == i
  {
    RotatedIndexAdds(i, n, 1, 1);
    RotatedIndexAdds(i, n, 2, 1);
    RotatedIndexAdds(i, n, 3, 1);
    FourTurns(i, n);
  }

  /** A live piece: its top-left position, bounding box, rotation table,
      current rotation index and the tile list of that rotation. */
  class Tetromino {
    var x: int
    var y: int
    const w: nat
    const h: nat
    var index: nat
    const tiles: seq<seq<int>>
    var matrix: seq<int>

    /** `matrix` is the current rotation state of a table of 1, 2 or 4 states,
        each with w*h tiles valued 0..8. */
    ghost predicate Valid()
      reads this`index, this`matrix
    {
      |tiles| in {1, 2, 4} && index < |tiles| && matrix == tiles[index] &&
      (forall j :: 0 <= j < |tiles| ==>
        |tiles[j]| == w * h && forall t :: 0 <= t < |tiles[j]| ==> 0 <= tiles[j][t] <= 8) &&
      |matrix| == w * h && (forall t :: 0 <= t < |matrix| ==> 0 <= matrix[t] <= 8)
    }

    constructor (tiles: seq<seq<int>>, startX: int, startY: int, width: nat, height: nat)
      requires |tiles| > 0
      ensures this.tiles == tiles && w == width && h == height
      ensures x == startX && y == startY
      ensures index == 0 && matrix == tiles[0]
    {
      x := startX;
      y := startY;
      w := width;
      h := height;
      index := 0;
      this.tiles := tiles;
      matrix := tiles[0];
    }

    /** Advances to the next rotation state, wrapping to the first. */
    method Rotate()
      requires Valid()
      modifies this`index, this`matrix
      ensures Valid()
      ensures index == RotatedIndex(old(index), |tiles|, 1)
    {
      index := index + 1;
      if index >= |tiles| {
        index := 0;
      }
      matrix := tiles[index];
    }
  }

  /** create_piece: a fresh piece of the given kind in rotation state 0, at the
      spawn position (4, -2) or, as the preview, at (13, 2). */
  method CreatePiece(k: Kind, nextPiece: bool) returns (p: Tetromino)
    ensures fresh(p) && p.Valid()
    ensures p.tiles == Tiles(k) && p.w == Width(k) && p.h == Height(k)
    ensures p.index == 0
    ensures if nextPiece then p.x == 13 && p.y == 2 else p.x == 4 && p.y == -2
  {
    TablesWellFormed(k);
    var tiles := Tiles(k);
    var w := Width(k);
    var h := Height(k);
    var x, y := 4, -2;
    if nextPiece {
      x, y := 13, 2;
    }
    p := new Tetromino(tiles, x, y, w, h);
  }
}
