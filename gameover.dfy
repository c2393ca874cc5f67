/** The game-over test: the sum of the interior cells of the top field row. */
module GameOver {
  import opened Field

  /** Sum of a list of cells. */
  function Sum(s: seq<int>): (total: int)
  {
    if s == [] then 0 else Sum(s[..|s| - 1]) + s[|s| - 1]
  }

  /** The slice the test sums: flat indices 1 to 10, the interior cells of
      the top row. */
  function TopInterior(f: seq<int>): (s: seq<int>)
    requires |f| == Size
    ensures |s| == W - 2
    ensures forall col :: 1 <= col < W - 1 ==> s[col - 1] == f[Cell(W, H, 0, col)]
  {
    f[1..11]
  }

  /** check_game_over's condition. */
  predicate ToppedOut(f: seq<int>)
    requires |f| == Size
  {
    Sum(TopInterior(f)) > 0
  }

  /** A list of non-negative cells sums to a positive number exactly when
      some cell is not zero. */
  lemma {:induction false} SumPositiveIffNonZero(s: seq<int>)
    requires forall i :: 0 <= i < |s| ==> s[i] >= 0
    ensures Sum(s) >= 0
    ensures Sum(s) > 0 <==> exists i :: 0 <= i < |s| && s[i] != 0
  {
    if s != [] {
      var t := s[..|s| - 1];
      SumPositiveIffNonZero(t);
      if exists i :: 0 <= i < |t| && t[i] != 0 {
        var i :| 0 <= i < |t| && t[i] != 0;
        assert s[i] != 0;
      }
      if exists i :: 0 <= i < |s| && s[i] != 0 {
        var i :| 0 <= i < |s| && s[i] != 0;
        if i < |t| {
          assert t[i] != 0;
        }
      }
    }
  }

  /** On a well-formed field the game is over exactly when some interior
      cell of the top row is filled. */
  lemma ToppedOutIffTopRowFilled(f: seq<int>)
    requires WellFormed(f)
    ensures ToppedOut(f) <==> exists col :: 1 <= col < W - 1 && f[Cell(W, H, 0, col)] != 0
  {
    var s := TopInterior(f);
    SumPositiveIffNonZero(s);
    if exists i :: 0 <= i < |s| && s[i] != 0 {
      var i :| 0 <= i < |s| && s[i] != 0;
      assert f[Cell(W, H, 0, i + 1)] != 0;
    }
  }

  /** A freshly created field does not end the game. */
  lemma NewFieldNotToppedOut(f: seq<int>)
    requires |f| == W * H
    requires forall row: nat, col: nat :: row < H && col < W ==>
      f[Cell(W, H, row, col)] == if IsBorder(W, H, row, col) then Wall else 0
    ensures !ToppedOut(f)
  {
    NewFieldWellFormed(f);
    ToppedOutIffTopRowFilled(f);
  }
}
