/** The board operations of solver.py, on a mutable m×m array of integers
    (0 = empty). The box size n, a module global in solver.py, is passed
    explicitly. */
module Solver {
  import opened SudokuGrid

  datatype Option<T> = None | Some(value: T)

  /** The board has m rows and m columns, m = n*n. */
  predicate IsBoard(bo: array2<int>, n: nat) {
    bo.Length0 == n * n && bo.Length1 == n * n
  }

  /** The current contents of the array, as a value. */
  ghost function Cells(bo: array2<int>): (g: Grid)
    reads bo
    ensures |g| == bo.Length0
    ensures forall i :: 0 <= i < bo.Length0 ==> |g[i]| == bo.Length1
    ensures forall i, j :: 0 <= i < bo.Length0 && 0 <= j < bo.Length1 ==> g[i][j] == bo[i, j]
  {
    seq(bo.Length0, i reads bo => seq(bo.Length1, j reads bo =>
      if 0 <= i < bo.Length0 && 0 <= j < bo.Length1 then bo[i, j] else 0))
  }

  lemma BoardShape(bo: array2<int>, n: nat)
    requires IsBoard(bo, n)
    ensures IsSquare(Cells(bo), n)
    ensures forall i, j :: InGrid(Cells(bo), i, j) <==> 0 <= i < n * n && 0 <= j < n * n
  {
  }

  lemma GridExt(g: Grid, h: Grid)
    requires SameShape(g, h)
    requires forall i, j :: 0 <= i < |g| && 0 <= j < |g[i]| ==> g[i][j] == h[i][j]
    ensures g == h
  {
    forall i | 0 <= i < |g| ensures g[i] == h[i] {
      assert forall j :: 0 <= j < |g[i]| ==> g[i][j] == h[i][j];
    }
  }

  /** `bo[row][col] = v`. */
  method Place(bo: array2<int>, row: nat, col: nat, v: int)
    requires row < bo.Length0 && col < bo.Length1
    modifies bo
    ensures Cells(bo) == Set(old(Cells(bo)), row, col, v)
  {
    ghost var g := Cells(bo);
    bo[row, col] := v;
    GridExt(Cells(bo), Set(g, row, col, v));
  }

  /** `valid(bo, num, pos)`: false exactly when another cell in pos's row,
      column or n×n box holds num. */
  method Valid(bo: array2<int>, n: nat, num: int, row: nat, col: nat) returns (ok: bool)
    requires IsBoard(bo, n) && row < n * n && col < n * n
    ensures ok <==> !Clashes(Cells(bo), n, num, row, col)
  {
    ghost var g := Cells(bo);
    // row
    for i := 0 to bo.Length1
      invariant forall j :: 0 <= j < i && j != col ==> bo[row, j] != num
    {
      if bo[row, i] == num && col != i {
        assert Peer(n, row, col, row, i) && g[row][i] == num;
        return false;
      }
    }
    // column
    for i := 0 to bo.Length0
      invariant forall k :: 0 <= k < i && k != row ==> bo[k, col] != num
    {
      if bo[i, col] == num && row != i {
        assert Peer(n, row, col, i, col) && g[i][col] == num;
        return false;
      }
    }
    // box
    var boxX := BoxStart(n, col);
    var boxY := BoxStart(n, row);
    for i := boxY to boxY + n
      invariant forall a, b :: boxY <= a < i && boxX <= b < boxX + n && (a != row || b != col) ==> bo[a, b] != num
    {
      for j := boxX to boxX + n
        invariant forall a, b :: boxY <= a < i && boxX <= b < boxX + n && (a != row || b != col) ==> bo[a, b] != num
        invariant forall b :: boxX <= b < j && (i != row || b != col) ==> bo[i, b] != num
      {
        if bo[i, j] == num && (i != row || j != col) {
          BoxSpan(n, row, i);
          BoxSpan(n, col, j);
          assert Peer(n, row, col, i, j) && g[i][j] == num;
          return false;
        }
      }
    }
    forall i, j | 0 <= i < |g| && 0 <= j < |g[i]| && Peer(n, row, col, i, j)
      ensures g[i][j] != num
    {
      if i != row && j != col {
        BoxSpan(n, row, i);
        BoxSpan(n, col, j);
      }
    }
    return true;
  }

  /** (a, b) comes before (i, j) in row-major order. */
  predicate Before(a: int, b: int, i: int, j: int) {
    a < i || (a == i && b < j)
  }

  /** `find_empty(bo)`: the first zero cell in row-major order, or None. */
  method FindEmpty(bo: array2<int>) returns (r: Option<(nat, nat)>)
    ensures r.None? <==> Complete(Cells(bo))
    ensures r.Some? ==> var (i, j) := r.value;
      i < bo.Length0 && j < bo.Length1 && bo[i, j] == 0 &&
      forall a, b :: 0 <= a < bo.Length0 && 0 <= b < bo.Length1 && Before(a, b, i, j) ==> bo[a, b] != 0
  {
    for i := 0 to bo.Length0
      invariant forall a, b :: 0 <= a < i && 0 <= b < bo.Length1 ==> bo[a, b] != 0
    {
      for j := 0 to bo.Length1
        invariant forall b :: 0 <= b < j ==> bo[i, b] != 0
      {
        if bo[i, j] == 0 {
          assert !Complete(Cells(bo)) by {
            assert Cells(bo)[i][j] == 0;
          }
          return Some((i, j));
        }
      }
    }
    return None;
  }

  /** `count_squares(bo)`: the number of non-zero cells. */
  method CountSquares(bo: array2<int>) returns (count: nat)
    ensures count == Filled(Cells(bo))
    ensures count <= bo.Length0 * bo.Length1
    ensures count == bo.Length0 * bo.Length1 <==> Complete(Cells(bo))
  {
    ghost var g := Cells(bo);
    count := 0;
    for i := 0 to bo.Length0
      invariant count == Filled(g[..i])
    {
      for j := 0 to bo.Length1
        invariant count == Filled(g[..i]) + RowFilled(g[i][..j])
      {
        assert g[i][..j + 1][..j] == g[i][..j];
        if bo[i, j] != 0 {
          count := count + 1;
        }
      }
      assert g[i][..bo.Length1] == g[i];
      assert g[..i + 1][..i] == g[..i];
    }
    assert g[..bo.Length0] == g;
    FilledBound(g, bo.Length1);
  }

  /** The candidate list `1..m` in ascending order. */
  function Ascending(m: nat): (s: seq<int>)
    ensures |s| == m
    ensures forall k :: 0 <= k < m ==> s[k] == k + 1
  {
    if m == 0 then [] else Ascending(m - 1) + [m]
  }

  /** A shuffle of the candidate list `1..m`. */
  predicate IsCandidateOrder(p: seq<int>, m: nat) {
    multiset(p) == multiset(Ascending(m))
  }

  lemma CandidateInRange(p: seq<int>, m: nat, k: nat)
    requires IsCandidateOrder(p, m) && k < |p|
    ensures 1 <= p[k] <= m
  {
    assert p[k] in multiset(p);
    assert p[k] in Ascending(m);
  }

  /** `make_board(bo)`: depth-first search that fills the first empty cell with
      each candidate, in the order drawn for this call, that passes the
      validity check, and recurses. `order(k)` is the k-th shuffle of `1..m`;
      `draw` is the number of shuffles made before this call, `next` the
      number made after it. On success the board is a completion of the entry
      board; on failure it is exactly the entry board. */
  method MakeBoard(bo: array2<int>, n: nat, order: nat -> seq<int>, draw: nat) returns (solved: bool, next: nat)
    requires IsBoard(bo, n)
    requires forall k :: IsCandidateOrder(order(k), n * n)
    modifies bo
    decreases n * n * (n * n) - Filled(Cells(bo))
    ensures solved ==> Completes(old(Cells(bo)), Cells(bo), n)
    ensures !solved ==> Cells(bo) == old(Cells(bo))
    ensures Complete(old(Cells(bo))) ==> solved && next == draw
    ensures !Complete(old(Cells(bo))) ==> next > draw
  {
    ghost var g := Cells(bo);
    BoardShape(bo, n);
    FilledBound(g, n * n);
    var find := FindEmpty(bo);
    if find.None? {
      return true, draw;
    }
    var (row, col) := find.value;
    var candidates := order(draw);
    next := draw + 1;
    for k := 0 to |candidates|
      invariant Cells(bo) == g
      invariant next > draw
    {
      var i := candidates[k];
      CandidateInRange(candidates, n * n, k);
      var ok := Valid(bo, n, i, row, col);
      if ok {
        Place(bo, row, col, i);
        FilledSet(g, row, col, i);
        FilledBound(Cells(bo), n * n);
        var done;
        done, next := MakeBoard(bo, n, order, next);
        if done {
          ExtendCompletion(g, n, row, col, i, Cells(bo));
          return true, next;
        }
        Place(bo, row, col, 0);
        SetUndo(g, row, col, i);
      }
    }
    return false, next;
  }

  /** `solve(bo)`: the same search with the candidates tried in ascending
      order at every cell. */
  method Solve(bo: array2<int>, n: nat) returns (solved: bool)
    requires IsBoard(bo, n)
    modifies bo
    ensures solved ==> Completes(old(Cells(bo)), Cells(bo), n)
    ensures solved && Consistent(old(Cells(bo)), n) && InRange(old(Cells(bo)), n) ==> Solved(Cells(bo), n)
    ensures !solved ==> Cells(bo) == old(Cells(bo))
    ensures Complete(old(Cells(bo))) ==> solved && Cells(bo) == old(Cells(bo))
  {
    ghost var g := Cells(bo);
    var ascending := (k: nat) => Ascending(n * n);
    var draws;
    solved, draws := MakeBoard(bo, n, ascending, 0);
    if solved {
      BoardShape(bo, n);
      if Consistent(g, n) && InRange(g, n) {
        CompletionIsSolved(g, Cells(bo), n);
      }
      if Complete(g) {
        GridExt(g, Cells(bo));
      }
    }
  }
}
