/**
 * The backtracking solver: the scan that lists the blank cells, and the
 * depth-first search that writes '1'..'9' into one blank per frame, asks the
 * validator after every write, and writes the blank back when every digit
 * has failed.
 */
module Solver {
  import opened Validator

  /** indexOf: the first position at or after `from` that holds `c`, or -1. */
  function IndexOf(s: seq<char>, c: char, from: nat): (r: int)
    decreases |s| - from
    ensures r == -1 || (from <= r < |s| && s[r] == c)
    ensures forall k :: from <= k < |s| && (r == -1 || k < r) ==> s[k] != c
  {
    if from >= |s| then -1
    else if s[from] == c then from
    else IndexOf(s, c, from + 1)
  }

  predicate Increasing(ps: seq<int>) {
    forall j, k :: 0 <= j < k < |ps| ==> ps[j] < ps[k]
  }

  /**
   * `ps` lists, in increasing order, the flat index 9 * r + c of every blank
   * cell (r, c) of `g`, and nothing else.
   */
  predicate ListsBlanks(g: Grid, ps: seq<int>)
    requires IsGrid(g)
  {
    && (forall j :: 0 <= j < |ps| ==> 0 <= ps[j] < 81)
    && Increasing(ps)
    && (forall r, c :: 0 <= r < 9 && 0 <= c < 9 ==> (g[r][c] == Blank <==> 9 * r + c in ps))
  }

  /**
   * emptyIndices: flattens the board and collects, with repeated calls of
   * indexOf, the position of every blank.
   */
  method EmptyIndices(board: array2<char>) returns (indices: seq<int>)
    requires board.Length0 == 9 && board.Length1 == 9
    ensures ListsBlanks(Snapshot(board), indices)
  {
    var g := Snapshot(board);
    var flat := Flat(g);
    FlatLength(g, 9);
    indices := [];
    var i := IndexOf(flat, Blank, 0);
    while i != -1
      invariant -1 <= i < 81
      invariant forall j :: 0 <= j < |indices| ==> 0 <= indices[j] < 81 && flat[indices[j]] == Blank
      invariant Increasing(indices)
      invariant i != -1 ==> flat[i] == Blank && forall j :: 0 <= j < |indices| ==> indices[j] < i
      invariant forall p :: 0 <= p < 81 && flat[p] == Blank && (i == -1 || p < i) ==> p in indices
      decreases if i == -1 then 0 else 81 - i
    {
      indices := indices + [i];
      i := IndexOf(flat, Blank, i + 1);
    }
    forall r, c | 0 <= r < 9 && 0 <= c < 9
      ensures g[r][c] == Blank <==> 9 * r + c in indices
    {
      FlatAt(g, 9, r, c);
    }
  }

  function Elements(ps: seq<int>): set<int> {
    set p | p in ps
  }

  /** An increasing list has as many elements as entries. */
  lemma {:induction false} IncreasingCard(ps: seq<int>)
    requires Increasing(ps)
    ensures |Elements(ps)| == |ps|
  {
    if ps != [] {
      IncreasingCard(ps[1..]);
      assert Elements(ps) == {ps[0]} + Elements(ps[1..]);
      assert ps[0] !in Elements(ps[1..]);
    }
  }

  /** Two increasing lists of one length with the same elements are the same list. */
  lemma {:induction false} IncreasingListsEqual(a: seq<int>, b: seq<int>)
    requires Increasing(a) && Increasing(b) && |a| == |b|
    requires forall p :: p in a <==> p in b
    ensures a == b
  {
    if a != [] {
      assert a[0] in b && b[0] in a;
      assert a[0] == b[0];
      forall p ensures p in a[1..] <==> p in b[1..] {
        assert p in a[1..] <==> p in a && p != a[0];
        assert p in b[1..] <==> p in b && p != b[0];
      }
      IncreasingListsEqual(a[1..], b[1..]);
      assert a == [a[0]] + a[1..] && b == [b[0]] + b[1..];
    }
  }

  /** The list of blank positions of a board is unique: emptyIndices has only one possible answer. */
  lemma ListsBlanksUnique(g: Grid, a: seq<int>, b: seq<int>)
    requires IsGrid(g) && ListsBlanks(g, a) && ListsBlanks(g, b)
    ensures a == b
  {
    forall p ensures p in a <==> p in b {
      if 0 <= p < 81 {
        assert 9 * (p / 9) + p % 9 == p;
        assert g[p / 9][p % 9] == Blank <==> p in a;
      }
    }
    assert Elements(a) == Elements(b);
    IncreasingCard(a);
    IncreasingCard(b);
    IncreasingListsEqual(a, b);
  }

  /** The character x.toString() gives for a digit value x. */
  function DigitChar(x: int): char
    requires 0 <= x <= 9
  {
    ('0' as int + x) as char
  }

  /** `g` with cell (r, c) set to `v`. */
  function Put(g: Grid, r: nat, c: nat, v: char): (g': Grid)
    requires IsGrid(g) && r < 9 && c < 9
    ensures IsGrid(g')
  {
    g[r := g[r][c := v]]
  }

  lemma GridsEqual(g: Grid, h: Grid)
    requires IsGrid(g) && IsGrid(h)
    requires forall r, c :: 0 <= r < 9 && 0 <= c < 9 ==> g[r][c] == h[r][c]
    ensures g == h
  {
    forall r | 0 <= r < 9 ensures g[r] == h[r] {
      assert forall c :: 0 <= c < 9 ==> g[r][c] == h[r][c];
    }
  }

  /**
   * `h` completes `g`: validateBoard accepts `h`, every blank of `g` holds a
   * digit in `h`, and every other cell of `h` is as in `g`.
   */
  predicate IsSolution(h: Grid, g: Grid)
    requires IsGrid(g)
  {
    && IsGrid(h)
    && BoardAccepted(h)
    && forall r, c :: 0 <= r < 9 && 0 <= c < 9 ==>
         if g[r][c] == Blank then IsDigit(h[r][c]) else h[r][c] == g[r][c]
  }

  /** `h1` and `h2` agree on every cell before flat index `p`. */
  predicate SameBefore(h1: Grid, h2: Grid, p: int)
    requires IsGrid(h1) && IsGrid(h2)
  {
    forall r, c :: 0 <= r < 9 && 0 <= c < 9 && 9 * r + c < p ==> h1[r][c] == h2[r][c]
  }

  /** `h1` comes before `h2` when both are read cell by cell in row-major order. */
  predicate RowMajorLess(h1: Grid, h2: Grid)
    requires IsGrid(h1) && IsGrid(h2)
  {
    exists r, c :: 0 <= r < 9 && 0 <= c < 9 && h1[r][c] < h2[r][c] && SameBefore(h1, h2, 9 * r + c)
  }

  /** `hs` is the solution of `g` that comes first in row-major order. */
  ghost predicate IsLeastSolution(hs: Grid, g: Grid)
    requires IsGrid(g)
  {
    IsSolution(hs, g) && forall h :: IsSolution(h, g) ==> !RowMajorLess(h, hs)
  }

  /** No board completes `g`. */
  ghost predicate HasNoSolution(g: Grid)
    requires IsGrid(g)
  {
    forall h :: !IsSolution(h, g)
  }

  /** No solution of `g` holds a digit below DigitChar(x) in cell (r, c). */
  ghost predicate TriedBelow(g: Grid, r: nat, c: nat, x: int)
    requires IsGrid(g) && r < 9 && c < 9
  {
    forall h :: IsSolution(h, g) ==> h[r][c] as int >= '0' as int + x
  }

  /** A solution holds no blank. */
  lemma SolutionHasNoBlank(h: Grid, g: Grid)
    requires IsGrid(g) && IsSolution(h, g)
    ensures forall r, c :: 0 <= r < 9 && 0 <= c < 9 ==> h[r][c] != Blank
  {
  }

  /** The first listed blank is a blank, and no blank comes before it in row-major order. */
  lemma FirstBlank(g: Grid, ps: seq<int>)
    requires IsGrid(g) && |ps| > 0 && ListsBlanks(g, ps)
    ensures 0 <= ps[0] < 81 && g[ps[0] / 9][ps[0] % 9] == Blank
    ensures forall r, c :: 0 <= r < 9 && 0 <= c < 9 && g[r][c] == Blank ==> ps[0] <= 9 * r + c
  {
    assert 9 * (ps[0] / 9) + ps[0] % 9 == ps[0];
  }

  /** Filling the first listed blank leaves the rest of the list as the list of blanks. */
  lemma BlanksAfterPut(g: Grid, ps: seq<int>, d: char)
    requires IsGrid(g) && |ps| > 0 && ListsBlanks(g, ps) && d != Blank
    ensures 0 <= ps[0] < 81
    ensures ListsBlanks(Put(g, ps[0] / 9, ps[0] % 9, d), ps[1..])
  {
    var pos := ps[0];
    var g1 := Put(g, pos / 9, pos % 9, d);
    assert forall p :: p in ps[1..] <==> p in ps && p != pos by {
      assert ps == [pos] + ps[1..];
      forall p | p in ps[1..] ensures p != pos {
        var k :| 0 <= k < |ps| - 1 && ps[1..][k] == p;
        assert ps[k + 1] == p;
      }
    }
    forall r, c | 0 <= r < 9 && 0 <= c < 9
      ensures g1[r][c] == Blank <==> 9 * r + c in ps[1..]
    {
      if r == pos / 9 && c == pos % 9 {
        assert 9 * r + c == pos;
      } else {
        assert 9 * r + c != pos;
      }
    }
  }

  /** The solutions of `g` with `d` at a blank (r, c) are the solutions of `g` with (r, c) set to `d`. */
  lemma SolutionsAfterPut(g: Grid, r: nat, c: nat, d: char, h: Grid)
    requires IsGrid(g) && r < 9 && c < 9 && g[r][c] == Blank && IsDigit(d)
    ensures IsSolution(h, Put(g, r, c, d)) <==> IsSolution(h, g) && h[r][c] == d
  {
  }

  /**
   * If validateBoard rejects `g` with `d` written into the blank (r, c), no
   * solution of `g` has `d` there: a solution is that board with more cells
   * filled, and filling cells never turns a rejected board into an accepted one.
   */
  lemma PrunedDigit(g: Grid, r: nat, c: nat, d: char, h: Grid)
    requires IsGrid(g) && r < 9 && c < 9 && g[r][c] == Blank
    ensures IsSolution(h, g) && h[r][c] == d ==> BoardAccepted(Put(g, r, c, d))
  {
    if IsSolution(h, g) && h[r][c] == d {
      AcceptedWhenBlanked(Put(g, r, c, d), h);
    }
  }

  /**
   * A digit is ruled out at a blank when validateBoard rejects the board with
   * the digit written there, or when that board has no solution.
   */
  lemma DigitRuledOut(g: Grid, r: nat, c: nat, x: int)
    requires IsGrid(g) && r < 9 && c < 9 && g[r][c] == Blank && 1 <= x <= 9
    requires TriedBelow(g, r, c, x)
    requires !BoardAccepted(Put(g, r, c, DigitChar(x))) || HasNoSolution(Put(g, r, c, DigitChar(x)))
    ensures TriedBelow(g, r, c, x + 1)
  {
    forall h | IsSolution(h, g) ensures h[r][c] as int >= '0' as int + x + 1 {
      PrunedDigit(g, r, c, DigitChar(x), h);
      SolutionsAfterPut(g, r, c, DigitChar(x), h);
    }
  }

  /** Once all nine digits are ruled out at a blank, the board has no solution. */
  lemma AllDigitsTried(g: Grid, r: nat, c: nat)
    requires IsGrid(g) && r < 9 && c < 9 && g[r][c] == Blank
    requires TriedBelow(g, r, c, 10)
    ensures HasNoSolution(g)
  {
  }

  /** A board with no blank that validateBoard accepts is its own least solution. */
  lemma FilledBoardOnlySolution(g: Grid)
    requires IsGrid(g) && BoardAccepted(g)
    requires forall r, c :: 0 <= r < 9 && 0 <= c < 9 ==> g[r][c] != Blank
    ensures IsLeastSolution(g, g)
  {
  }

  /**
   * The step that makes the first solution found the least one: when (row,
   * col) is the first blank of `g`, no solution of `g` has a digit below
   * DigitChar(x) there, and `hs` is the least solution of `g` with that digit
   * written at (row, col), then `hs` is the least solution of `g`.
   */
  lemma LeastAfterPut(g: Grid, row: nat, col: nat, x: int, hs: Grid)
    requires IsGrid(g) && row < 9 && col < 9 && g[row][col] == Blank && 1 <= x <= 9
    requires forall r, c :: 0 <= r < 9 && 0 <= c < 9 && g[r][c] == Blank ==> 9 * row + col <= 9 * r + c
    requires TriedBelow(g, row, col, x)
    requires IsLeastSolution(hs, Put(g, row, col, DigitChar(x)))
    ensures IsLeastSolution(hs, g)
  {
    var d := DigitChar(x);
    SolutionsAfterPut(g, row, col, d, hs);
    forall h | IsSolution(h, g) ensures !RowMajorLess(h, hs) {
      SolutionsAfterPut(g, row, col, d, h);
      forall r, c | 0 <= r < 9 && 0 <= c < 9 && SameBefore(h, hs, 9 * r + c)
        ensures !(h[r][c] < hs[r][c])
      {
        if 9 * r + c < 9 * row + col {
          assert g[r][c] != Blank;
        } else if 9 * r + c == 9 * row + col {
          assert r == row && c == col;
        } else {
          assert h[row][col] == hs[row][col];
        }
      }
    }
  }

  /**
   * backtrack: tries '1'..'9' in the cell of empty[i]; after each write asks
   * validateBoard, and on acceptance either stops (the last listed blank) or
   * recurses on i + 1.  When every digit fails it writes the blank back.
   * Success leaves the least solution in row-major order; failure leaves the
   * board as it was and means there is no solution at all.
   */
  method Backtrack(board: array2<char>, empty: seq<int>, i: nat) returns (solved: bool)
    requires board.Length0 == 9 && board.Length1 == 9
    requires i < |empty|
    requires ListsBlanks(Snapshot(board), empty[i..])
    modifies board
    decreases |empty| - i
    ensures solved ==> IsLeastSolution(Snapshot(board), old(Snapshot(board)))
    ensures !solved ==> Snapshot(board) == old(Snapshot(board))
    ensures !solved ==> HasNoSolution(old(Snapshot(board)))
  {
    var pos := empty[i];
    var row, col := pos / 9, pos % 9;
    ghost var g0 := Snapshot(board);
    FirstBlank(g0, empty[i..]);
    assert empty[i..][1..] == empty[i + 1..];
    for x := 1 to 10
      invariant forall r, c :: 0 <= r < 9 && 0 <= c < 9 && (r != row || c != col) ==> board[r, c] == g0[r][c]
      invariant TriedBelow(g0, row, col, x)
    {
      var d := DigitChar(x);
      board[row, col] := d;
      ghost var g1 := Put(g0, row, col, d);
      GridsEqual(Snapshot(board), g1);
      BlanksAfterPut(g0, empty[i..], d);
      var ok := ValidateBoard(board);
      if ok {
        if i == |empty| - 1 {
          assert empty[i + 1..] == [];
          FilledBoardOnlySolution(g1);
          LeastAfterPut(g0, row, col, x, g1);
          return true;
        }
        solved := Backtrack(board, empty, i + 1);
        if solved {
          LeastAfterPut(g0, row, col, x, Snapshot(board));
          return;
        }
      }
      DigitRuledOut(g0, row, col, x);
    }
    board[row, col] := Blank;
    GridsEqual(Snapshot(board), g0);
    AllDigitsTried(g0, row, col);
    return false;
  }

  /** What solveSudoku leaves behind. */
  datatype Outcome =
    | Solved       // backtrack answered true: every blank now holds a digit
    | Unsolvable   // backtrack answered false: the board is as it was
    | NoBlankCell  // the board has no blank: the source throws a TypeError before writing

  /**
   * solveSudoku: lists the blanks and runs backtrack from the first.  The
   * source discards backtrack's answer; the model returns it.  On a board
   * with no blank the source reads empty[0] as undefined and throws when it
   * writes board[NaN][NaN]; the model reports that as NoBlankCell.
   */
  method SolveSudoku(board: array2<char>) returns (outcome: Outcome)
    requires board.Length0 == 9 && board.Length1 == 9
    modifies board
    ensures outcome == NoBlankCell <==>
      forall r, c :: 0 <= r < 9 && 0 <= c < 9 ==> old(board[r, c]) != Blank
    ensures outcome != Solved ==> Snapshot(board) == old(Snapshot(board))
    ensures outcome == Solved ==> IsLeastSolution(Snapshot(board), old(Snapshot(board)))
    ensures outcome == Unsolvable ==> HasNoSolution(old(Snapshot(board)))
  {
    var empty := EmptyIndices(board);
    if |empty| == 0 {
      return NoBlankCell;
    }
    assert empty[0..] == empty;
    FirstBlank(Snapshot(board), empty);
    var solved := Backtrack(board, empty, 0);
    outcome := if solved then Solved else Unsolvable;
  }

  /**
   * A blank whose row already holds the other eight digits gets the missing
   * one in every solution.
   */
  lemma ForcedDigit(h: Grid, g: Grid, r: nat, c: nat, d: char)
    requires IsGrid(g) && r < 9 && c < 9 && g[r][c] == Blank && IsDigit(d)
    requires forall e :: IsDigit(e) && e != d ==> e in g[r]
    requires IsSolution(h, g)
    ensures h[r][c] == d
  {
    forall c' | 0 <= c' < 9 && c' != c && g[r][c'] != Blank
      ensures h[r][c] != g[r][c']
    {
      assert NoRepeats(h[r]);
      assert h[r][c'] == g[r][c'];
      assert IsCounted(h[r][c]);
      if c < c' {
        assert h[r][c] != h[r][c'];
      } else {
        assert h[r][c'] != h[r][c];
      }
    }
  }
}
