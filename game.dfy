/** The game state and the operations that drive it: commands, gravity and
    locking, line clears, scoring, holding and the game-over test. */
module Tetris {
  import opened Pieces
  import opened Field
  import opened Collision
  import opened Placement
  import opened LineClear
  import opened Score
  import opened GameOver

  /** The inputs the game reacts to: the arrow keys, space (hold), and
      escape or closing the window (quit). */
  datatype Command = Left | Right | Down | Up | Hold | Quit

  class TetrisGame {
    /** The field grid, placed at (OriginX, OriginY). */
    var field: seq<int>
    var active: Tetromino
    var next: Tetromino
    var holding: Tetromino?
    var points: int
    /** The speed level last chosen by add_points. */
    var gameSpeed: int
    var gameOver: bool
    var running: bool

    /** The field keeps its walls and its cell values. */
    ghost predicate FieldValid()
      reads this`field
    {
      WellFormed(field)
    }

    /** The three pieces are valid and distinct, the score is non-negative
        and the speed is one of the eight levels. */
    ghost predicate PiecesValid()
      reads this`active, this`next, this`holding, this`points, this`gameSpeed
      reads Movable()`index, Movable()`matrix
    {
      active.Valid() && next.Valid() && active != next &&
      (holding != null ==> holding.Valid() && holding != active && holding != next) &&
      points >= 0 && 1 <= gameSpeed <= 8
    }

    /** The invariant of a running game. */
    ghost predicate Valid()
      reads this`field, this`active, this`next, this`holding, this`points, this`gameSpeed
      reads Movable()`index, Movable()`matrix
    {
      FieldValid() && PiecesValid()
    }

    /** Whether the active piece overlaps a filled field cell. */
    ghost predicate ActiveCollides()
      reads this`field, this`active, active
      requires |field| == Size && |active.matrix| == active.w * active.h
    {
      Overlaps(field, active.x, active.y, active.w, active.h, active.matrix)
    }

    /** Whether the active piece is free one row further down. */
    ghost predicate CanFall()
      reads this`field, this`active, active
      requires |field| == Size && |active.matrix| == active.w * active.h
    {
      !Overlaps(field, active.x, active.y + 1, active.w, active.h, active.matrix)
    }

    /** The field with the active piece locked in where it stands. */
    ghost function Landed(): seq<int>
      reads this`field, this`active, active
      requires |field| == Size && |active.matrix| == active.w * active.h
    {
      Locked(field, active.x, active.y, active.w, active.h, active.matrix)
    }

    /** setup: a new field, an active piece at the spawn position, a preview
        piece, an empty hold slot, score 0 and speed 1. The two random piece
        choices are the parameters. */
    constructor (first: Kind, second: Kind)
      ensures Valid() && fresh(active) && fresh(next)
      ensures active.tiles == Tiles(first) && active.index == 0 && active.x == 4 && active.y == -2
      ensures active.w == Width(first) && active.h == Height(first)
      ensures next.tiles == Tiles(second) && next.index == 0 && next.x == 13 && next.y == 2
      ensures next.w == Width(second) && next.h == Height(second)
      ensures forall row: nat, col: nat :: row < H && col < W ==>
        field[Cell(W, H, row, col)] == if IsBorder(W, H, row, col) then Wall else 0
      ensures holding == null && points == 0 && gameSpeed == 1
      ensures !gameOver && running
    {
      var a := CreatePiece(first, false);
      var n := CreatePiece(second, true);
      var f := CreateField(W, H);
      NewFieldWellFormed(f);
      active := a;
      next := n;
      field := f;
      holding := null;
      points := 0;
      gameSpeed := 1;
      gameOver := false;
      running := true;
    }

    /** collides: for every piece tile and every field cell, a hit is a filled
        tile and a filled cell at the same absolute coordinate. */
    method Collides() returns (hit: bool)
      requires Valid()
      ensures hit == Overlaps(field, active.x, active.y, active.w, active.h, active.matrix)
    {
      var piece := active;
      for pRow := 0 to piece.h
        invariant forall r: nat, c: nat :: r < pRow && c < piece.w ==>
          !TileHits(field, piece.x, piece.y, piece.w, piece.h, piece.matrix, r, c)
      {
        for pCol := 0 to piece.w
          invariant forall r: nat, c: nat :: Before(r, c, pRow, pCol) && r < piece.h && c < piece.w ==>
            !TileHits(field, piece.x, piece.y, piece.w, piece.h, piece.matrix, r, c)
        {
          var px := piece.x + pCol;
          var py := piece.y + pRow;
          var pv := piece.matrix[Cell(piece.w, piece.h, pRow, pCol)];
          for fRow := 0 to H
            invariant forall fr: nat, fc: nat :: fr < fRow && fc < W ==>
              !(px == OriginX + fc && py == OriginY + fr && pv > 0 && field[Cell(W, H, fr, fc)] > 0)
          {
            for fCol := 0 to W
              invariant forall fr: nat, fc: nat :: Before(fr, fc, fRow, fCol) && fr < H && fc < W ==>
                !(px == OriginX + fc && py == OriginY + fr && pv > 0 && field[Cell(W, H, fr, fc)] > 0)
            {
              var fx := OriginX + fCol;
              var fy := OriginY + fRow;
              var fv := field[Cell(W, H, fRow, fCol)];
              if px == fx && py == fy && pv > 0 && fv > 0 {
                assert TileHits(field, piece.x, piece.y, piece.w, piece.h, piece.matrix, pRow, pCol);
                return true;
              }
            }
          }
          if InGrid(px, py) {
            assert field[Cell(W, H, py - OriginY, px - OriginX)] == field[IndexAt(px, py)];
          }
        }
      }
      return false;
    }

    /** The active piece, which stood at (x0, y0), now stands at
        (x0 + dx, y0 + dy) when that pose does not overlap the field, and
        is back at (x0, y0) when it does. */
    ghost predicate MovedOrBlocked(x0: int, y0: int, dx: int, dy: int)
      reads this`field, this`active, active
      requires |field| == Size && |active.matrix| == active.w * active.h
    {
      if Overlaps(field, x0 + dx, y0 + dy, active.w, active.h, active.matrix)
      then active.x == x0 && active.y == y0
      else active.x == x0 + dx && active.y == y0 + dy
    }

    /** try_move: shift the active piece by (dx, dy), and shift it back if it
        then overlaps the field. */
    method TryMove(dx: int, dy: int)
      requires Valid()
      modifies active`x, active`y
      ensures Valid()
      ensures MovedOrBlocked(old(active.x), old(active.y), dx, dy)
      ensures !old(ActiveCollides()) ==> !ActiveCollides()
    {
      active.x := active.x + dx;
      active.y := active.y + dy;
      var hit := Collides();
      if hit {
        active.x := active.x - dx;
        active.y := active.y - dy;
      }
    }

    /** The up-key handler: rotate the active piece, and if it then overlaps
        the field rotate it three more times, which for tables of 1, 2 or 4
        states restores the previous state. */
    method RotateActive()
      requires Valid()
      modifies active`index, active`matrix
      ensures Valid()
      ensures var turned := RotatedIndex(old(active.index), |active.tiles|, 1);
        if Overlaps(field, active.x, active.y, active.w, active.h, active.tiles[turned])
        then active.index == old(active.index)
        else active.index == turned
      ensures active.matrix == active.tiles[active.index]
      ensures !old(ActiveCollides()) ==> !ActiveCollides()
    {
      TurnBack(active.index, |active.tiles|);
      active.Rotate();
      var hit := Collides();
      if hit {
        active.Rotate();
        active.Rotate();
        active.Rotate();
      }
    }

    /** The pieces whose position a command may change. */
    ghost function Movable(): set<Tetromino>
      reads this`active, this`next, this`holding
    {
      if holding == null then {active, next}
      else var held: Tetromino := holding; {active, next, held}
    }

    /** The placement loops of try_move_or_place: every filled tile of the
        active piece is written into the field cell at its coordinate when
        that cell is still empty. */
    method Place()
      requires Valid()
      modifies this`field
      ensures Valid()
      ensures field == Locked(old(field), active.x, active.y, active.w, active.h, active.matrix)
    {
      ghost var f0 := field;
      var piece := active;
      LockNothing(f0, piece.x, piece.y, piece.w, piece.h, piece.matrix);
      for pRow := 0 to piece.h
        invariant field == LockedUpTo(f0, piece.x, piece.y, piece.w, piece.h, piece.matrix, pRow, 0)
      {
        for pCol := 0 to piece.w
          invariant field == LockedUpTo(f0, piece.x, piece.y, piece.w, piece.h, piece.matrix, pRow, pCol)
        {
          var px := piece.x + pCol;
          var py := piece.y + pRow;
          var pv := piece.matrix[Cell(piece.w, piece.h, pRow, pCol)];
          ghost var g0 := field;
          ghost var placed := PlaceTile(g0, piece.x, piece.y, piece.w, piece.h, piece.matrix, pRow, pCol);
          for fRow := 0 to H
            invariant field == if InGrid(px, py) && py - OriginY < fRow then placed else g0
          {
            for fCol := 0 to W
              invariant field ==
                if InGrid(px, py) && Before(py - OriginY, px - OriginX, fRow, fCol) then placed else g0
            {
              var fx := OriginX + fCol;
              var fy := OriginY + fRow;
              var fv := field[Cell(W, H, fRow, fCol)];
              if px == fx && py == fy {
                assert Cell(W, H, fRow, fCol) == IndexAt(px, py);
                if pv > 0 && fv == 0 {
                  var fIndex := Cell(W, H, fRow, fCol);
                  field := field[fIndex := pv];
                }
              }
            }
          }
          LockStep(f0, piece.x, piece.y, piece.w, piece.h, piece.matrix, pRow, pCol);
        }
        LockRowDone(f0, piece.x, piece.y, piece.w, piece.h, piece.matrix, pRow);
      }
      LockedWellFormed(f0, piece.x, piece.y, piece.w, piece.h, piece.matrix);
    }

    /** get_next_piece: the preview piece becomes the active piece at the
        spawn position, and a new preview piece of the given kind is made. */
    method GetNextPiece(kind: Kind)
      requires next.Valid()
      modifies this`active, this`next, next`x, next`y
      ensures active == old(next) && active.Valid() && active.x == 4 && active.y == -2
      ensures fresh(next) && next.Valid() && next.tiles == Tiles(kind) && next.index == 0
      ensures next.w == Width(kind) && next.h == Height(kind) && next.x == 13 && next.y == 2
    {
      active := next;
      active.x := 4;
      active.y := -2;
      next := CreatePiece(kind, true);
    }

    /** try_move_or_place: move the active piece one row down; if it then
        overlaps, move it back, lock it into the field and bring in the next
        piece. */
    method TryMoveOrPlace(kind: Kind)
      requires Valid()
      modifies this`field, this`active, this`next, active`y, next`x, next`y
      ensures Valid()
      ensures old(CanFall()) ==>
        active == old(active) && active.x == old(active.x) && active.y == old(active.y) + 1 &&
        field == old(field) && next == old(next) && next.x == old(next.x) && next.y == old(next.y)
      ensures !old(CanFall()) ==>
        field == old(Landed()) && active == old(next) && active.x == 4 && active.y == -2 &&
        fresh(next) && next.tiles == Tiles(kind) && next.index == 0 && next.x == 13 && next.y == 2 &&
        next.w == Width(kind) && next.h == Height(kind)
    {
      active.y := active.y + 1;
      var hit := Collides();
      if hit {
        active.y := active.y - 1;
        Place();
        GetNextPiece(kind);
      }
    }

    /** add_points: the speed band is chosen from the score before the award,
        and the award is scaled by the band's factor. */
    method AddPoints(amount: int)
      modifies this`points, this`gameSpeed
      ensures gameSpeed == ScoreBand(old(points)).speed
      ensures points == old(points) + Awarded(old(points), amount)
    {
      var award := amount;
      if points < 5000 {
        gameSpeed := 1;
      } else if points >= 5000 && points < 10000 {
        gameSpeed := 2;
      } else if points >= 10000 && points < 25000 {
        gameSpeed := 3;
        award := award * 2;
      } else if points >= 25000 && points < 50000 {
        gameSpeed := 4;
        award := award * 5;
      } else if points >= 75000 && points < 100000 {
        gameSpeed := 5;
        award := award * 10;
      } else if points >= 200000 && points < 300000 {
        gameSpeed := 6;
        award := award * 20;
      } else if points >= 300000 && points < 500000 {
        gameSpeed := 7;
        award := award * 25;
      } else {
        award := award * 50;
        gameSpeed := 8;
      }
      points := points + award;
    }

    /** check_tetris: flag the full rows, award 100 points per full row, then
        remove the full rows. */
    method CheckTetris()
      requires Valid()
      modifies this`field, this`points, this`gameSpeed
      ensures Valid()
      ensures field == Cleared(old(field), FullFlags(old(field)))
      ensures gameSpeed == ScoreBand(old(points)).speed
      ensures points == old(points) + Awarded(old(points), 100 * CountFlags(FullFlags(old(field))))
    {
      var tetris := FlagFullRows(field);
      assert tetris == FullFlags(field);
      var tetrisCount := CountFlags(tetris);
      AddPoints(100 * tetrisCount);
      ClearedWellFormed(field, tetris);
      field := RemoveFullRows(field, tetris);
    }

    /** check_game_over: the game is over once the top row holds a tile; the
        flag is never reset. */
    method CheckGameOver()
      requires Valid()
      modifies this`gameOver
      ensures Valid()
      ensures gameOver == (old(gameOver) || ToppedOut(field))
    {
      if Sum(field[1..11]) > 0 {
        gameOver := true;
      }
    }

    /** The piece a hold brings into play: the preview piece when the hold
        slot is empty, the held piece otherwise. */
    ghost function HoldCandidate(): Tetromino
      reads this`holding, this`next
    {
      if holding == null then next else holding
    }

    /** hold_piece with an empty hold slot: the active piece goes to the
        slot, the preview piece takes its position and a new preview piece
        of the given kind is made. */
    method HoldIntoEmpty(kind: Kind)
      requires Valid() && holding == null
      modifies this`active, this`next, this`holding, Movable()`x, Movable()`y
      ensures Valid()
      ensures active == old(next) && holding == old(active)
      ensures active.x == old(active.x) && active.y == old(active.y)
      ensures holding.x == 13 && holding.y == 8
      ensures fresh(next) && next.tiles == Tiles(kind) && next.index == 0 && next.x == 13 && next.y == 2 &&
        next.w == Width(kind) && next.h == Height(kind)
    {
      holding := active;
      GetNextPiece(kind);
      active.x := holding.x;
      active.y := holding.y;
      holding.x := 13;
      holding.y := 8;
    }

    /** hold_piece with a held piece: the held piece takes the position of
        the active piece, which goes to the hold slot. */
    method SwapWithHeld()
      requires Valid() && holding != null
      modifies this`active, this`holding, Movable()`x, Movable()`y
      ensures Valid()
      ensures active == old(holding) && holding == old(active)
      ensures active.x == old(active.x) && active.y == old(active.y)
      ensures holding.x == 13 && holding.y == 8
      ensures next.x == old(next.x) && next.y == old(next.y)
    {
      var temp := active;
      active := holding;
      active.x := temp.x;
      active.y := temp.y;
      holding := temp;
      holding.x := 13;
      holding.y := 8;
    }

    /** One run of hold_piece before its overlap test: the active piece goes
        to the hold slot at (13, 8) and the hold candidate takes its position.
        With an empty slot the candidate is the preview piece, and a new
        preview piece of the given kind is made. */
    method SwapHold(kind: Kind)
      requires Valid()
      modifies this`active, this`next, this`holding, Movable()`x, Movable()`y
      ensures Valid()
      ensures active == old(HoldCandidate()) && holding == old(active)
      ensures active.x == old(active.x) && active.y == old(active.y)
      ensures holding.x == 13 && holding.y == 8
      ensures old(holding) == null ==>
        fresh(next) && next.tiles == Tiles(kind) && next.index == 0 && next.x == 13 && next.y == 2 &&
        next.w == Width(kind) && next.h == Height(kind)
      ensures old(holding) != null ==> next == old(next) && next.x == old(next.x) && next.y == old(next.y)
    {
      if holding == null {
        HoldIntoEmpty(kind);
      } else {
        SwapWithHeld();
      }
    }

    /** hold_piece: swap the active piece with the hold slot, and run again
        while the new active piece overlaps the field. The recursion is
        modelled with a bound `retries` on the number of repeated runs;
        `settled` says whether the final active piece is free. */
    method HoldPiece(kind: Kind, retries: nat) returns (settled: bool)
      requires Valid()
      modifies this`active, this`next, this`holding, Movable()`x, Movable()`y
      decreases retries
      ensures Valid()
      ensures settled <==> !ActiveCollides()
      ensures active.x == old(active.x) && active.y == old(active.y)
      ensures holding != null && holding.x == 13 && holding.y == 8
      ensures (active == old(active) && holding == old(HoldCandidate())) ||
              (active == old(HoldCandidate()) && holding == old(active))
      ensures old(holding) == null ==>
        fresh(next) && next.tiles == Tiles(kind) && next.index == 0 && next.x == 13 && next.y == 2 &&
        next.w == Width(kind) && next.h == Height(kind)
      ensures old(holding) != null ==> next == old(next) && next.x == old(next.x) && next.y == old(next.y)
      ensures var c := old(HoldCandidate());
        !Overlaps(field, old(active.x), old(active.y), c.w, c.h, c.matrix) ==> settled && active == c
      ensures var c := old(HoldCandidate());
        (Overlaps(field, old(active.x), old(active.y), c.w, c.h, c.matrix) && retries >= 1 &&
         !old(ActiveCollides())) ==> settled && active == old(active)
      ensures var c := old(HoldCandidate());
        (Overlaps(field, old(active.x), old(active.y), c.w, c.h, c.matrix) && old(ActiveCollides())) ==>
        !settled
      ensures retries == 0 ==> active == old(HoldCandidate()) && holding == old(active)
      ensures var c := old(HoldCandidate());
        (Overlaps(field, old(active.x), old(active.y), c.w, c.h, c.matrix) && retries == 1) ==>
        active == old(active) && holding == c
    {
      SwapHold(kind);
      var hit := Collides();
      if hit && retries > 0 {
        settled := HoldPiece(kind, retries - 1);
      } else {
        settled := !hit;
      }
    }

    /** The space-key handler: hold_piece with one repeated run. The active
        piece keeps its position and goes to the hold slot unless the hold
        candidate overlaps there, in which case the swap is undone. */
    method HoldKey(kind: Kind)
      requires Valid()
      modifies this`active, this`next, this`holding, Movable()`x, Movable()`y
      ensures Valid()
      ensures active.x == old(active.x) && active.y == old(active.y)
      ensures holding != null && holding.x == 13 && holding.y == 8
      ensures var c := old(HoldCandidate());
        if Overlaps(field, old(active.x), old(active.y), c.w, c.h, c.matrix)
        then active == old(active) && holding == c
        else active == c && holding == old(active)
      ensures old(holding) == null ==>
        fresh(next) && next.tiles == Tiles(kind) && next.index == 0 && next.x == 13 && next.y == 2 &&
        next.w == Width(kind) && next.h == Height(kind)
      ensures old(holding) != null ==> next == old(next) && next.x == old(next.x) && next.y == old(next.y)
      ensures !old(ActiveCollides()) ==> !ActiveCollides()
    {
      var _ := HoldPiece(kind, 1);
    }

    /** The arrow-key handlers: up rotates with undo; down, left and right
        move the active piece by (0, 1), (-1, 0) and (1, 0) unless that
        overlaps. Nothing but the active piece's pose changes. */
    method Steer(cmd: Command)
      requires Valid() && (cmd.Up? || cmd.Down? || cmd.Left? || cmd.Right?)
      modifies active`x, active`y, active`index, active`matrix
      ensures Valid()
      ensures !cmd.Up? ==> active.index == old(active.index)
      ensures cmd.Up? ==> active.x == old(active.x) && active.y == old(active.y)
      ensures cmd.Down? ==> MovedOrBlocked(old(active.x), old(active.y), 0, 1)
      ensures cmd.Left? ==> MovedOrBlocked(old(active.x), old(active.y), -1, 0)
      ensures cmd.Right? ==> MovedOrBlocked(old(active.x), old(active.y), 1, 0)
      ensures cmd.Up? ==>
        var turned := RotatedIndex(old(active.index), |active.tiles|, 1);
        (if Overlaps(field, active.x, active.y, active.w, active.h, active.tiles[turned])
         then active.index == old(active.index)
         else active.index == turned) &&
        active.matrix == active.tiles[active.index]
      ensures !old(ActiveCollides()) ==> !ActiveCollides()
    {
      if cmd.Up? {
        RotateActive();
      } else if cmd.Down? {
        TryMove(0, 1);
      } else if cmd.Left? {
        TryMove(-1, 0);
      } else {
        TryMove(1, 0);
      }
    }

    /** event: quit stops the game loop; space holds (one repeated run is
        enough when the active piece was free); up rotates with undo; down,
        left and right move the active piece by (0, 1), (-1, 0) and (1, 0)
        unless that overlaps. */
    method Event(cmd: Command, kind: Kind)
      requires Valid()
      modifies this`running, this`active, this`next, this`holding, Movable()`x, Movable()`y
      modifies active`index, active`matrix
      ensures Valid()
      ensures running == (old(running) && !cmd.Quit?)
      ensures !cmd.Hold? ==> active == old(active) && next == old(next) && holding == old(holding)
      ensures !cmd.Up? && !cmd.Hold? ==> active.index == old(active.index)
      ensures !(cmd.Left? || cmd.Right? || cmd.Down?) ==>
        active.x == old(active.x) && active.y == old(active.y)
      ensures cmd.Down? ==> MovedOrBlocked(old(active.x), old(active.y), 0, 1)
      ensures cmd.Left? ==> MovedOrBlocked(old(active.x), old(active.y), -1, 0)
      ensures cmd.Right? ==> MovedOrBlocked(old(active.x), old(active.y), 1, 0)
      ensures cmd.Up? ==>
        var turned := RotatedIndex(old(active.index), |active.tiles|, 1);
        (if Overlaps(field, active.x, active.y, active.w, active.h, active.tiles[turned])
         then active.index == old(active.index)
         else active.index == turned) &&
        active.matrix == active.tiles[active.index]
      ensures cmd.Hold? ==> holding != null && holding.x == 13 && holding.y == 8
      ensures cmd.Hold? ==> var c := old(HoldCandidate());
        if Overlaps(field, old(active.x), old(active.y), c.w, c.h, c.matrix)
        then active == old(active) && holding == c
        else active == c && holding == old(active)
      ensures cmd.Hold? && old(holding) == null ==>
        fresh(next) && next.tiles == Tiles(kind) && next.index == 0 && next.x == 13 && next.y == 2 &&
        next.w == Width(kind) && next.h == Height(kind)
      ensures cmd.Hold? && old(holding) != null ==>
        next == old(next) && next.x == old(next.x) && next.y == old(next.y)
      ensures !cmd.Hold? ==>
        next.x == old(next.x) && next.y == old(next.y) &&
        (holding != null ==> holding.x == old(holding.x) && holding.y == old(holding.y))
      ensures !cmd.Up? ==> old(active).index == old(active.index) && old(active).matrix == old(active.matrix)
      ensures cmd.Hold? ==> var c := old(HoldCandidate());
        c.index == old(c.index) && c.matrix == old(c.matrix)
      ensures !old(ActiveCollides()) ==> !ActiveCollides()
    {
      if cmd.Quit? {
        running := false;
      } else if cmd.Hold? {
        HoldKey(kind);
      } else {
        Steer(cmd);
      }
    }

    /** The timed step of update: gravity or lock, then line clears and
        scoring, then the game-over test. */
    method Tick(kind: Kind)
      requires Valid()
      modifies this`field, this`active, this`next, this`points, this`gameSpeed, this`gameOver
      modifies active`y, next`x, next`y
      ensures Valid()
      ensures old(CanFall()) ==>
        field == Cleared(old(field), FullFlags(old(field))) &&
        points == old(points) + Awarded(old(points), 100 * CountFlags(FullFlags(old(field)))) &&
        active == old(active) && active.y == old(active.y) + 1 &&
        next == old(next) && next.x == old(next.x) && next.y == old(next.y)
      ensures !old(CanFall()) ==>
        field == Cleared(old(Landed()), FullFlags(old(Landed()))) &&
        points == old(points) + Awarded(old(points), 100 * CountFlags(FullFlags(old(Landed())))) &&
        active == old(next) && active.x == 4 && active.y == -2 &&
        fresh(next) && next.tiles == Tiles(kind) && next.index == 0 && next.x == 13 && next.y == 2 &&
        next.w == Width(kind) && next.h == Height(kind)
      ensures gameSpeed == ScoreBand(old(points)).speed
      ensures points >= old(points)
      ensures gameOver == (old(gameOver) || ToppedOut(field))
    {
      ghost var fell, landed := CanFall(), Landed();
      ghost var f0, p0 := field, points;
      TryMoveOrPlace(kind);
      ghost var settled := field;
      assert fell ==> settled == f0;
      assert !fell ==> settled == landed;
      CheckTetris();
      assert field == Cleared(settled, FullFlags(settled));
      assert points == p0 + Awarded(p0, 100 * CountFlags(FullFlags(settled)));
      assert gameOver == old(gameOver);
      CheckGameOver();
    }

    /** update: once the game is over the loop is told to stop; when the fall
        timer is due (`due`, standing for the elapsed-time test) the game
        takes one tick. */
    method Update(kind: Kind, due: bool)
      requires Valid()
      modifies this`running, this`field, this`active, this`next, this`points, this`gameSpeed, this`gameOver
      modifies active`y, next`x, next`y
      ensures Valid()
      ensures running == (old(running) && !old(gameOver))
      ensures !due ==>
        field == old(field) && points == old(points) && gameSpeed == old(gameSpeed) &&
        active == old(active) && active.y == old(active.y) &&
        next == old(next) && next.x == old(next.x) && next.y == old(next.y) && gameOver == old(gameOver)
      ensures due && old(CanFall()) ==>
        field == Cleared(old(field), FullFlags(old(field))) &&
        points == old(points) + Awarded(old(points), 100 * CountFlags(FullFlags(old(field)))) &&
        active == old(active) && active.y == old(active.y) + 1 &&
        next == old(next) && next.x == old(next.x) && next.y == old(next.y)
      ensures due && !old(CanFall()) ==>
        field == Cleared(old(Landed()), FullFlags(old(Landed()))) &&
        points == old(points) + Awarded(old(points), 100 * CountFlags(FullFlags(old(Landed())))) &&
        active == old(next) && active.x == 4 && active.y == -2 &&
        fresh(next) && next.tiles == Tiles(kind) && next.index == 0 && next.x == 13 && next.y == 2 &&
        next.w == Width(kind) && next.h == Height(kind)
      ensures due ==>
        gameSpeed == ScoreBand(old(points)).speed && points >= old(points) &&
        gameOver == (old(gameOver) || ToppedOut(field))
      ensures old(gameOver) ==> gameOver
    {
      if gameOver {
        running := false;
      }
      if due {
        Tick(kind);
      }
    }
  }
}
