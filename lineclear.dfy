/** Full-row detection and simultaneous removal of the full rows, with the
    rows above shifted down and fresh walled rows prepended at the top. */
module LineClear {
  import opened Field

  /** The row prepended for every removed row. It is written out 12 wide,
      independently of W. */
  const NewLine: seq<int> := [9, 0, 0, 0, 0, 0, 0, 0, 0, 0, 0, 9]

  /** Row `row` (one of the rows above the bottom wall) has every interior
      column filled. */
  predicate RowFull(f: seq<int>, row: nat)
    requires |f| == Size && row < H - 1
  {
    forall col: nat :: 1 <= col < W - 1 ==> f[Cell(W, H, row, col)] != 0
  }

  /** One flag per row above the bottom wall, set when the row is full. */
  function FullFlags(f: seq<int>): (flags: seq<bool>)
    requires |f| == Size
    ensures |flags| == H - 1
  {
    seq(H - 1, r requires 0 <= r < H - 1 => RowFull(f, r))
  }

  /** The row flags of check_tetris, computed before any row is removed: a row
      starts flagged and loses its flag at the first empty interior cell. */
  method FlagFullRows(f: seq<int>) returns (tetris: seq<bool>)
    requires |f| == Size
    ensures |tetris| == H - 1
    ensures forall row :: 0 <= row < H - 1 ==> (tetris[row] <==> RowFull(f, row))
  {
    tetris := seq(H - 1, _ => true);
    for row := 0 to H - 1
      invariant |tetris| == H - 1
      invariant forall r :: 0 <= r < row ==> (tetris[r] <==> RowFull(f, r))
      invariant forall r :: row <= r < H - 1 ==> tetris[r]
    {
      ghost var before := tetris;
      for col := 1 to W - 1
        invariant |tetris| == H - 1
        invariant tetris[row] <==> forall c: nat :: 1 <= c < col ==> f[Cell(W, H, row, c)] != 0
        invariant forall r :: 0 <= r < H - 1 && r != row ==> tetris[r] == before[r]
      {
        var index := Cell(W, H, row, col);
        if f[index] == 0 {
          tetris := tetris[row := false];
          break;
        }
      }
    }
  }

  /** Number of set flags (sum over booleans). */
  function CountFlags(flags: seq<bool>): (n: nat)
    ensures n <= |flags|
  {
    if flags == [] then 0
    else CountFlags(flags[..|flags| - 1]) + (if flags[|flags| - 1] then 1 else 0)
  }

  /** Counting distributes over concatenation. */
  lemma {:induction false} CountFlagsAppend(a: seq<bool>, b: seq<bool>)
    ensures CountFlags(a + b) == CountFlags(a) + CountFlags(b)
    decreases |b|
  {
    if b != [] {
      assert (a + b)[..|a + b| - 1] == a + b[..|b| - 1];
      CountFlagsAppend(a, b[..|b| - 1]);
    } else {
      assert a + b == a;
    }
  }

  /** k copies of the new row. */
  function Blank(k: nat): (s: seq<int>)
    ensures |s| == k * W
  {
    if k == 0 then [] else NewLine + Blank(k - 1)
  }

  /** The unflagged rows among the first n, in order, as one flat list. */
  function Kept(f: seq<int>, flags: seq<bool>, n: nat): (s: seq<int>)
    requires |f| == Size && |flags| == H - 1 && n <= H - 1
    ensures |s| == (n - CountFlags(flags[..n])) * W
  {
    if n == 0 then []
    else
      assert flags[..n][..n - 1] == flags[..n - 1];
      Kept(f, flags, n - 1) + (if flags[n - 1] then [] else f[(n - 1) * W .. n * W])
  }

  /** The field after the flagged rows are removed: one new row per removed
      row on top, then the unflagged rows in their old order, then the bottom
      wall row. */
  function Cleared(f: seq<int>, flags: seq<bool>): (g: seq<int>)
    requires |f| == Size && |flags| == H - 1
  {
    assert flags[..H - 1] == flags;
    Blank(CountFlags(flags)) + Kept(f, flags, H - 1) + f[(H - 1) * W ..]
  }

  /** The compaction loop of check_tetris: rows are visited top to bottom, and
      each flagged row is deleted and a new row prepended. Deleting a row and
      prepending one leaves the rows below at their indices, so each flagged
      row is still found at its original index. */
  method RemoveFullRows(f: seq<int>, tetris: seq<bool>) returns (g: seq<int>)
    requires |f| == Size && |tetris| == H - 1
    ensures g == Cleared(f, tetris)
  {
    g := f;
    for row := 0 to H - 1
      invariant g == Blank(CountFlags(tetris[..row])) + Kept(f, tetris, row) + f[row * W ..]
    {
      CompactStep(f, tetris, row, g);
      if tetris[row] {
        var index := row * W;
        g := g[..index] + g[index + W ..];
        g := NewLine + g;
      }
    }
    assert tetris[..H - 1] == tetris;
  }

  /** One iteration of the compaction loop keeps its invariant. */
  lemma CompactStep(f: seq<int>, tetris: seq<bool>, row: nat, g: seq<int>)
    requires |f| == Size && |tetris| == H - 1 && row < H - 1
    requires g == Blank(CountFlags(tetris[..row])) + Kept(f, tetris, row) + f[row * W ..]
    ensures row * W + W <= |g|
    ensures tetris[row] ==>
      NewLine + (g[..row * W] + g[row * W + W ..]) ==
      Blank(CountFlags(tetris[..row + 1])) + Kept(f, tetris, row + 1) + f[(row + 1) * W ..]
    ensures !tetris[row] ==>
      g == Blank(CountFlags(tetris[..row + 1])) + Kept(f, tetris, row + 1) + f[(row + 1) * W ..]
  {
    var c := CountFlags(tetris[..row]);
    assert tetris[..row + 1] == tetris[..row] + [tetris[row]];
    CountFlagsAppend(tetris[..row], [tetris[row]]);
    assert [tetris[row]][..0] == [];
    var kept := Kept(f, tetris, row);
    var top := Blank(c) + kept;
    var rest := f[(row + 1) * W ..];
    if tetris[row] {
      assert CountFlags(tetris[..row + 1]) == c + 1;
      assert Kept(f, tetris, row + 1) == kept;
      RemovedRowStep(f, top, row, g);
      assert NewLine + top == Blank(c + 1) + kept;
    } else {
      assert CountFlags(tetris[..row + 1]) == c;
      var line := f[row * W .. (row + 1) * W];
      assert Kept(f, tetris, row + 1) == kept + line;
      KeptRowStep(f, top, row, g);
      assert top + line == Blank(c) + (kept + line);
    }
  }

  /** A flagged row is cut out and a new row put on top. */
  lemma RemovedRowStep(f: seq<int>, top: seq<int>, row: nat, g: seq<int>)
    requires |f| == Size && row < H - 1 && |top| == row * W
    requires g == top + f[row * W ..]
    ensures row * W + W <= |g|
    ensures NewLine + (g[..row * W] + g[row * W + W ..]) == NewLine + top + f[(row + 1) * W ..]
  {
    assert g[..row * W] == top;
    assert g[row * W + W ..] == f[(row + 1) * W ..];
  }

  /** An unflagged row stays where it is. */
  lemma KeptRowStep(f: seq<int>, top: seq<int>, row: nat, g: seq<int>)
    requires |f| == Size && row < H - 1 && |top| == row * W
    requires g == top + f[row * W ..]
    ensures g == top + f[row * W .. (row + 1) * W] + f[(row + 1) * W ..]
  {
    assert f[row * W ..] == f[row * W .. (row + 1) * W] + f[(row + 1) * W ..];
  }

  /** Every new row sits at the top. */
  lemma {:induction false} BlankRows(k: nat, q: nat, c: nat)
    requires q < k && c < W
    ensures Blank(k)[q * W + c] == NewLine[c]
  {
    if q > 0 {
      BlankRows(k - 1, q - 1, c);
    }
  }

  /** Unflagged row r (r < n) sits in Kept(f, flags, n) after the unflagged
      rows above it. */
  lemma {:induction false} KeptRow(f: seq<int>, flags: seq<bool>, n: nat, r: nat, c: nat)
    requires |f| == Size && |flags| == H - 1 && r < n <= H - 1 && c < W && !flags[r]
    ensures 0 <= r - CountFlags(flags[..r]) < n - CountFlags(flags[..n])
    ensures Kept(f, flags, n)[(r - CountFlags(flags[..r])) * W + c] == f[r * W + c]
  {
    assert flags[..n][..n - 1] == flags[..n - 1];
    if r < n - 1 {
      KeptRow(f, flags, n - 1, r, c);
    }
  }

  /** The positions of a flag list that are set. */
  ghost function Flagged(flags: seq<bool>): set<int>
  {
    set r | 0 <= r < |flags| && flags[r]
  }

  /** Counting the flags counts the set positions. */
  lemma {:induction false} CountFlagsIsFlagged(flags: seq<bool>)
    ensures CountFlags(flags) == |Flagged(flags)|
  {
    if flags != [] {
      var n := |flags| - 1;
      CountFlagsIsFlagged(flags[..n]);
      assert Flagged(flags) == Flagged(flags[..n]) + (if flags[n] then {n} else {});
    }
  }

  /** The number of removed rows, which check_tetris scores, is the number
      of full rows above the bottom wall. */
  lemma ClearedCount(f: seq<int>)
    requires |f| == Size
    ensures CountFlags(FullFlags(f)) == |set r | 0 <= r < H - 1 && RowFull(f, r)|
  {
    CountFlagsIsFlagged(FullFlags(f));
    assert Flagged(FullFlags(f)) == set r | 0 <= r < H - 1 && RowFull(f, r);
  }

  /** Index of the bottom wall row. */
  const Bottom: int := H - 1

  /** Where unflagged row r lands: it moves down by the number of flagged rows
      below it. */
  function Landing(flags: seq<bool>, r: nat): (row: nat)
    requires r < |flags|
  {
    r + CountFlags(flags[r + 1..])
  }

  /** Clearing keeps the field size. */
  lemma ClearedSize(f: seq<int>, flags: seq<bool>)
    requires |f| == Size && |flags| == H - 1
    ensures |Cleared(f, flags)| == Size
  {
    assert flags[..H - 1] == flags;
  }

  /** After clearing k rows, the top k rows are new rows. */
  lemma ClearedTop(f: seq<int>, flags: seq<bool>)
    requires |f| == Size && |flags| == H - 1
    ensures |Cleared(f, flags)| == Size
    ensures forall q: nat, c: nat :: q < CountFlags(flags) && c < W ==>
      Cleared(f, flags)[Cell(W, H, q, c)] == NewLine[c]
  {
    ClearedSize(f, flags);
    forall q: nat, c: nat | q < CountFlags(flags) && c < W
      ensures Cleared(f, flags)[Cell(W, H, q, c)] == NewLine[c]
    {
      BlankRows(CountFlags(flags), q, c);
    }
  }

  /** Clearing does not touch the bottom wall row. */
  lemma ClearedBottom(f: seq<int>, flags: seq<bool>)
    requires |f| == Size && |flags| == H - 1
    ensures |Cleared(f, flags)| == Size
    ensures forall c: nat :: c < W ==> Cleared(f, flags)[Cell(W, H, Bottom, c)] == f[Cell(W, H, Bottom, c)]
  {
    ClearedSize(f, flags);
  }

  /** Every row that is not removed moves down by the number of removed rows
      below it. */
  lemma ClearedShift(f: seq<int>, flags: seq<bool>, r: nat, c: nat)
    requires |f| == Size && |flags| == H - 1
    requires r < H - 1 && c < W && !flags[r]
    ensures |Cleared(f, flags)| == Size
    ensures Landing(flags, r) < H - 1
    ensures Cleared(f, flags)[Cell(W, H, Landing(flags, r), c)] == f[Cell(W, H, r, c)]
  {
    ClearedSize(f, flags);
    assert flags[..H - 1] == flags;
    KeptRow(f, flags, H - 1, r, c);
    assert flags == flags[..r] + [flags[r]] + flags[r + 1..];
    CountFlagsAppend(flags[..r] + [flags[r]], flags[r + 1..]);
    CountFlagsAppend(flags[..r], [flags[r]]);
    assert CountFlags([flags[r]]) == 0 by {
      assert [flags[r]][..0] == [];
    }
    var blank := Blank(CountFlags(flags));
    var kept := Kept(f, flags, H - 1);
    var k := (r - CountFlags(flags[..r])) * W + c;
    assert Cleared(f, flags) == blank + kept + f[(H - 1) * W ..];
    assert |blank| + k == Cell(W, H, Landing(flags, r), c);
    assert (blank + kept + f[(H - 1) * W ..])[|blank| + k] == kept[k];
  }

  /** With no row flagged, clearing changes nothing. */
  lemma ClearedNothing(f: seq<int>, flags: seq<bool>)
    requires |f| == Size && |flags| == H - 1
    requires forall r :: 0 <= r < H - 1 ==> !flags[r]
    ensures Cleared(f, flags) == f
  {
    var g := Cleared(f, flags);
    ClearedBottom(f, flags);
    forall i | 0 <= i < Size
      ensures g[i] == f[i]
    {
      var r: nat, c: nat := i / W, i % W;
      assert i == Cell(W, H, r, c);
      if r < H - 1 {
        UnflaggedRowStays(f, flags, r, c);
      }
    }
  }

  /** With no row flagged below it, an unflagged row keeps its place. */
  lemma UnflaggedRowStays(f: seq<int>, flags: seq<bool>, r: nat, c: nat)
    requires |f| == Size && |flags| == H - 1
    requires forall r :: 0 <= r < H - 1 ==> !flags[r]
    requires r < H - 1 && c < W
    ensures |Cleared(f, flags)| == Size
    ensures Cleared(f, flags)[Cell(W, H, r, c)] == f[Cell(W, H, r, c)]
  {
    NoFlagsCountZero(flags[r + 1..]);
    ClearedShift(f, flags, r, c);
  }

  /** A list of unset flags counts zero. */
  lemma {:induction false} NoFlagsCountZero(flags: seq<bool>)
    requires forall r :: 0 <= r < |flags| ==> !flags[r]
    ensures CountFlags(flags) == 0
  {
    if flags != [] {
      NoFlagsCountZero(flags[..|flags| - 1]);
    }
  }

  /** A flat list of whole rows whose side cells hold the wall marker and whose
      cells all hold values in 0..9. */
  ghost predicate Walled(s: seq<int>)
  {
    |s| % W == 0 &&
    forall i :: 0 <= i < |s| ==> 0 <= s[i] <= Wall && (i % W == 0 || i % W == W - 1 ==> s[i] == Wall)
  }

  lemma WalledAppend(a: seq<int>, b: seq<int>)
    requires Walled(a) && Walled(b)
    ensures Walled(a + b)
  {
    forall i | |a| <= i < |a + b|
      ensures (i - |a|) % W == i % W
    {
    }
  }

  lemma {:induction false} BlankWalled(k: nat)
    ensures Walled(Blank(k))
  {
    if k > 0 {
      BlankWalled(k - 1);
      WalledAppend(NewLine, Blank(k - 1));
    }
  }

  lemma {:induction false} KeptWalled(f: seq<int>, flags: seq<bool>, n: nat)
    requires WellFormed(f) && |flags| == H - 1 && n <= H - 1
    ensures Walled(Kept(f, flags, n))
  {
    if n > 0 {
      KeptWalled(f, flags, n - 1);
      if !flags[n - 1] {
        var row := f[(n - 1) * W .. n * W];
        assert f[Cell(W, H, n - 1, 0)] == Wall && f[Cell(W, H, n - 1, W - 1)] == Wall;
        assert Walled(row);
        WalledAppend(Kept(f, flags, n - 1), row);
      } else {
        assert Kept(f, flags, n) == Kept(f, flags, n - 1);
      }
    }
  }

  /** Clearing keeps the field well formed: the side walls come with every
      kept and every new row, and the bottom wall row is not touched. */
  lemma ClearedWellFormed(f: seq<int>, flags: seq<bool>)
    requires WellFormed(f) && |flags| == H - 1
    ensures WellFormed(Cleared(f, flags))
  {
    var g := Cleared(f, flags);
    assert flags[..H - 1] == flags;
    BlankWalled(CountFlags(flags));
    KeptWalled(f, flags, H - 1);
    var bottom := f[(H - 1) * W ..];
    forall i | 0 <= i < W
      ensures bottom[i] == Wall
    {
      assert f[Cell(W, H, H - 1, i)] == Wall;
    }
    WalledAppend(Blank(CountFlags(flags)), Kept(f, flags, H - 1));
    WalledAppend(Blank(CountFlags(flags)) + Kept(f, flags, H - 1), bottom);
    ClearedBottom(f, flags);
    forall row: nat, col: nat | row < H && col < W && IsBorder(W, H, row, col)
      ensures g[Cell(W, H, row, col)] == Wall
    {
      var i := Cell(W, H, row, col);
      assert i % W == col;
    }
  }
}
