/**
 * The board validator of the Sudoku solver: the duplicate check on one set of
 * nine cells, the extraction of a column and of a 3x3 sub-grid, and the check
 * of a whole board.  The whole-board check is modelled as the source writes
 * it: rows and columns are all checked, but of the nine sub-grids only the
 * three in columns 0-2 are.
 */
module Validator {

  /** The marker of a cell that holds no digit yet. */
  const Blank: char := '.'

  /** A digit a filled cell holds. */
  predicate IsDigit(c: char) {
    '1' <= c <= '9'
  }

  /**
   * The characters validateSet counts: parseInt turns '0'..'9' into an index
   * into its ten counters, and every other character into NaN, whose counter
   * never compares greater than 1, so such a character is never reported.
   */
  predicate IsCounted(c: char) {
    '0' <= c <= '9'
  }

  /** The counter index parseInt gives a counted character. */
  function CounterIndex(c: char): (d: int)
    requires IsCounted(c)
    ensures 0 <= d < 10
  {
    c as int - '0' as int
  }

  /** No counted character occurs twice in `s`. */
  predicate NoRepeats(s: seq<char>) {
    forall j, k :: 0 <= j < k < |s| && IsCounted(s[j]) ==> s[j] != s[k]
  }

  /** The board as a value: nine rows of nine cells. */
  type Grid = seq<seq<char>>

  predicate IsGrid(g: Grid) {
    |g| == 9 && forall r :: 0 <= r < 9 ==> |g[r]| == 9
  }

  /** The contents of a 9x9 board, row by row. */
  function Snapshot(board: array2<char>): (g: Grid)
    requires board.Length0 == 9 && board.Length1 == 9
    reads board
    ensures IsGrid(g)
    ensures forall r, c :: 0 <= r < 9 && 0 <= c < 9 ==> g[r][c] == board[r, c]
  {
    seq(9, r requires 0 <= r < 9 reads board =>
      seq(9, c requires 0 <= c < 9 reads board => board[r, c]))
  }

  /**
   * validateSet: walks the set with ten counters, skips blanks, and answers
   * false as soon as a counter exceeds 1.
   */
  method ValidateSet(s: seq<char>) returns (ok: bool)
    ensures ok <==> NoRepeats(s)
  {
    var counts := new int[10](_ => 0);
    for n := 0 to |s|
      invariant forall d :: 0 <= d < 10 ==> 0 <= counts[d] <= 1
      invariant forall d :: 0 <= d < 10 ==>
        (counts[d] == 1 <==> exists k :: 0 <= k < n && IsCounted(s[k]) && CounterIndex(s[k]) == d)
      invariant NoRepeats(s[..n])
    {
      if s[n] == Blank {
        continue;
      }
      if IsCounted(s[n]) {
        var d := CounterIndex(s[n]);
        counts[d] := counts[d] + 1;
        if counts[d] > 1 {
          var k :| 0 <= k < n && IsCounted(s[k]) && CounterIndex(s[k]) == d;
          assert s[k] == s[n];
          return false;
        }
        assert forall k :: 0 <= k < n && IsCounted(s[k]) ==> s[k] != s[n];
      }
      assert s[..n + 1] == s[..n] + [s[n]];
    }
    assert s[..|s|] == s;
    return true;
  }

  /** getCol: the n-th cell of every row, top to bottom. */
  function GetCol(g: Grid, n: nat): (col: seq<char>)
    requires forall r :: 0 <= r < |g| ==> n < |g[r]|
    ensures |col| == |g|
    ensures forall r :: 0 <= r < |g| ==> col[r] == g[r][n]
  {
    seq(|g|, r requires 0 <= r < |g| => g[r][n])
  }

  /**
   * getGrid: rows (y % 3) * 3 .. (y % 3) * 3 + 2, each cut down to columns
   * (x % 3) * 3 .. (x % 3) * 3 + 2.
   */
  function GetGrid(g: Grid, x: nat, y: nat): (block: seq<seq<char>>)
    requires IsGrid(g)
    ensures |block| == 3 && forall k :: 0 <= k < 3 ==> |block[k]| == 3
    ensures forall k, j :: 0 <= k < 3 && 0 <= j < 3 ==>
      block[k][j] == g[(y % 3) * 3 + k][(x % 3) * 3 + j]
  {
    var top, left := (y % 3) * 3, (x % 3) * 3;
    var rows := g[top..top + 3];
    seq(3, k requires 0 <= k < 3 => rows[k][left..left + 3])
  }

  /** Array.prototype.flat: the rows joined end to end. */
  function Flat(rows: seq<seq<char>>): seq<char> {
    if rows == [] then [] else rows[0] + Flat(rows[1..])
  }

  lemma {:induction false} FlatLength(rows: seq<seq<char>>, w: nat)
    requires forall r :: 0 <= r < |rows| ==> |rows[r]| == w
    ensures |Flat(rows)| == w * |rows|
  {
    if rows != [] {
      FlatLength(rows[1..], w);
      assert w * |rows| == w + w * (|rows| - 1);
    }
  }

  /** Cell j of row k of a list of rows of width w is cell w * k + j of the flattened list. */
  lemma {:induction false} FlatAt(rows: seq<seq<char>>, w: nat, k: nat, j: nat)
    requires forall r :: 0 <= r < |rows| ==> |rows[r]| == w
    requires k < |rows| && j < w
    ensures w * k + j < |Flat(rows)|
    ensures Flat(rows)[w * k + j] == rows[k][j]
  {
    FlatLength(rows, w);
    if k > 0 {
      var i := w * (k - 1) + j;
      assert w * k + j == w + i;
      FlatAt(rows[1..], w, k - 1, j);
    }
  }

  /** The nine cells of the sub-grid at (x, y), as validateBoard hands them to validateSet. */
  lemma BlockAt(g: Grid, x: nat, y: nat, k: nat)
    requires IsGrid(g) && k < 9
    ensures |Flat(GetGrid(g, x, y))| == 9
    ensures Flat(GetGrid(g, x, y))[k] == g[(y % 3) * 3 + k / 3][(x % 3) * 3 + k % 3]
  {
    FlatLength(GetGrid(g, x, y), 3);
    FlatAt(GetGrid(g, x, y), 3, k / 3, k % 3);
  }

  /** getGrid only looks at its coordinates modulo 3. */
  lemma GetGridPeriodic(g: Grid, x: nat, y: nat)
    requires IsGrid(g)
    ensures GetGrid(g, x + 3, y) == GetGrid(g, x, y)
    ensures GetGrid(g, x, y + 3) == GetGrid(g, x, y)
  {
  }

  predicate RowsOk(g: Grid)
    requires IsGrid(g)
  {
    forall i :: 0 <= i < 9 ==> NoRepeats(g[i])
  }

  predicate ColsOk(g: Grid)
    requires IsGrid(g)
  {
    forall i :: 0 <= i < 9 ==> NoRepeats(GetCol(g, i))
  }

  predicate BlockOk(g: Grid, x: nat, y: nat)
    requires IsGrid(g)
  {
    NoRepeats(Flat(GetGrid(g, x, y)))
  }

  /**
   * What validateBoard accepts: every row and every column free of repeats,
   * and the three sub-grids with x = 0 (columns 0-2) free of repeats.
   */
  predicate BoardAccepted(g: Grid)
    requires IsGrid(g)
  {
    RowsOk(g) && ColsOk(g) && forall y :: 0 <= y < 3 ==> BlockOk(g, 0, y)
  }

  /** The rule of Sudoku the source's comments describe: all nine sub-grids free of repeats too. */
  predicate IsValidSudoku(g: Grid)
    requires IsGrid(g)
  {
    RowsOk(g) && ColsOk(g) && forall x, y :: 0 <= x < 3 && 0 <= y < 3 ==> BlockOk(g, x, y)
  }

  /**
   * validateBoard: rows and columns in one loop, then the sub-grids.  In the
   * source the loop over x ends its first pass with `return true`, so only
   * x = 0 is ever visited; the model visits exactly that pass.
   */
  method ValidateBoard(board: array2<char>) returns (ok: bool)
    requires board.Length0 == 9 && board.Length1 == 9
    ensures ok <==> BoardAccepted(Snapshot(board))
  {
    var g := Snapshot(board);
    for i := 0 to 9
      invariant forall k :: 0 <= k < i ==> NoRepeats(g[k]) && NoRepeats(GetCol(g, k))
    {
      ok := ValidateSet(g[i]);
      if !ok {
        assert !RowsOk(g);
        return;
      }
      ok := ValidateSet(GetCol(g, i));
      if !ok {
        assert !ColsOk(g);
        return;
      }
    }
    assert RowsOk(g) && ColsOk(g);
    var x := 0;
    for y := 0 to 3
      invariant forall k :: 0 <= k < y ==> BlockOk(g, x, k)
    {
      ok := ValidateSet(Flat(GetGrid(g, x, y)));
      if !ok {
        assert !BlockOk(g, x, y);
        return;
      }
    }
    return true;
  }

  /** A board that obeys the full rule of Sudoku is accepted by validateBoard. */
  lemma ValidSudokuIsAccepted(g: Grid)
    requires IsGrid(g) && IsValidSudoku(g)
    ensures BoardAccepted(g)
  {
  }

  /** The board with '1' at (0, 3) and at (1, 4), and blanks elsewhere. */
  function TwoOnesInTopMiddleBlock(): (g: Grid)
    ensures IsGrid(g)
  {
    seq(9, r => seq(9, c => if (r == 0 && c == 3) || (r == 1 && c == 4) then '1' else Blank))
  }

  /**
   * validateBoard accepts a board whose top-middle sub-grid holds '1' twice:
   * the sub-grids in columns 3-8 are never checked.
   */
  lemma RightBlocksUnchecked()
    ensures BoardAccepted(TwoOnesInTopMiddleBlock())
    ensures !BlockOk(TwoOnesInTopMiddleBlock(), 1, 0)
    ensures !IsValidSudoku(TwoOnesInTopMiddleBlock())
  {
    var g := TwoOnesInTopMiddleBlock();
    forall y | 0 <= y < 3 ensures BlockOk(g, 0, y) {
      BlockAt(g, 0, y, 0);
      forall k | 0 <= k < 9 ensures Flat(GetGrid(g, 0, y))[k] == Blank {
        BlockAt(g, 0, y, k);
      }
    }
    BlockAt(g, 1, 0, 0);
    BlockAt(g, 1, 0, 4);
  }

  /** `t` is `s` with some cells blanked. */
  predicate BlankedFrom(t: seq<char>, s: seq<char>) {
    |t| == |s| && forall k :: 0 <= k < |t| ==> t[k] == s[k] || t[k] == Blank
  }

  /** `h` is the board `g` with some cells blanked. */
  predicate GridBlankedFrom(h: Grid, g: Grid)
    requires IsGrid(h) && IsGrid(g)
  {
    forall r, c :: 0 <= r < 9 && 0 <= c < 9 ==> h[r][c] == g[r][c] || h[r][c] == Blank
  }

  lemma NoRepeatsWhenBlanked(t: seq<char>, s: seq<char>)
    requires BlankedFrom(t, s) && NoRepeats(s)
    ensures NoRepeats(t)
  {
  }

  /**
   * Blanking cells never makes validateBoard reject a board it accepted: the
   * check only ever compares non-blank cells.
   */
  lemma AcceptedWhenBlanked(h: Grid, g: Grid)
    requires IsGrid(h) && IsGrid(g) && GridBlankedFrom(h, g)
    requires BoardAccepted(g)
    ensures BoardAccepted(h)
  {
    forall i | 0 <= i < 9 ensures NoRepeats(h[i]) && NoRepeats(GetCol(h, i)) {
      NoRepeatsWhenBlanked(h[i], g[i]);
      NoRepeatsWhenBlanked(GetCol(h, i), GetCol(g, i));
    }
    forall y | 0 <= y < 3 ensures BlockOk(h, 0, y) {
      var t, u := Flat(GetGrid(h, 0, y)), Flat(GetGrid(g, 0, y));
      BlockAt(h, 0, y, 0);
      BlockAt(g, 0, y, 0);
      forall k | 0 <= k < 9 ensures t[k] == u[k] || t[k] == Blank {
        BlockAt(h, 0, y, k);
        BlockAt(g, 0, y, k);
      }
      assert BlockOk(g, 0, y);
      NoRepeatsWhenBlanked(t, u);
    }
  }

  /** Nine items drawn from fewer than nine values repeat one. */
  lemma {:induction false} Pigeonhole(s: seq<char>, values: set<char>)
    requires forall k :: 0 <= k < |s| ==> s[k] in values
    requires |values| < |s|
    ensures exists j, k :: 0 <= j < k < |s| && s[j] == s[k]
  {
    if s[0] in s[1..] {
      var k :| 0 <= k < |s| - 1 && s[1..][k] == s[0];
      assert s[0] == s[k + 1];
    } else {
      Pigeonhole(s[1..], values - {s[0]});
      var j, k :| 0 <= j < k < |s| - 1 && s[1..][j] == s[1..][k];
      assert s[j + 1] == s[k + 1];
    }
  }

  /**
   * validateSet rejects a complete set of nine digits that lacks a digit; so
   * a complete row, column or sub-grid that passes the check holds each of
   * '1'..'9' exactly once.
   */
  lemma CompleteSetMissingDigitRejected(s: seq<char>, d: char)
    requires |s| == 9 && forall k :: 0 <= k < 9 ==> IsDigit(s[k])
    requires IsDigit(d) && d !in s
    ensures !NoRepeats(s)
  {
    var digits := {'1', '2', '3', '4', '5', '6', '7', '8', '9'};
    assert |digits - {d}| == 8;
    Pigeonhole(s, digits - {d});
    var j, k :| 0 <= j < k < |s| && s[j] == s[k];
    assert IsCounted(s[j]);
  }
}
