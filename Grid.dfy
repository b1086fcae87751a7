/** The pure Sudoku model: a board is an m×m grid of integers with m = n*n,
    where 0 marks an empty cell. Everything the solver and the generator
    promise is stated over these values. */
module SudokuGrid {

  type Grid = seq<seq<int>>

  /** `g` has m rows of m cells each, m = n*n. */
  predicate IsSquare(g: Grid, n: nat) {
    |g| == n * n && forall i :: 0 <= i < |g| ==> |g[i]| == n * n
  }

  predicate InGrid(g: Grid, i: int, j: int) {
    0 <= i < |g| && 0 <= j < |g[i]|
  }

  /** First row (or column) of the n×n box that holds row (or column) p. */
  function BoxStart(n: nat, p: nat): (s: nat)
    requires p < n * n
    ensures s % n == 0
    ensures s <= p < s + n <= n * n
  {
    BoxFits(n, p);
    p / n * n
  }

  lemma BoxFits(n: nat, p: nat)
    requires p < n * n
    ensures n > 0 && p / n * n <= p < p / n * n + n && p / n < n
    ensures p / n * n + n <= n * n && (p / n * n) % n == 0
  {
    var q, r := p / n, p % n;
    DivMod(n, p);
    if q >= n {
      MulMono(n, q, n);
    }
    MulMono(q + 1, n, n);
    DivUnique(n, q, 0, q * n);
  }

  /** Euclidean division by a positive n. */
  lemma DivMod(n: nat, p: int)
    requires n > 0
    ensures p == p / n * n + p % n && 0 <= p % n < n
  {
  }

  lemma MulMono(a: int, b: int, n: nat)
    requires a <= b
    ensures a * n <= b * n
  {
  }

  /** The box scanned for row (or column) p is exactly the rows i with
      i / n == p / n: the box origin is what `//n*n` computes. */
  lemma BoxSpan(n: nat, p: nat, i: int)
    requires p < n * n
    ensures BoxStart(n, p) <= i < BoxStart(n, p) + n <==> 0 <= i && i / n == p / n
  {
    var q := p / n;
    assert BoxStart(n, p) == q * n;
    if q * n <= i < q * n + n {
      DivUnique(n, q, i - q * n, i);
    }
    if 0 <= i && i / n == q {
      DivMod(n, i);
    }
  }

  lemma DivUnique(n: nat, q: int, r: int, i: int)
    requires n > 0 && 0 <= r < n && i == q * n + r
    ensures i / n == q && i % n == r
  {
    var q', r' := i / n, i % n;
    DivMod(n, i);
    if q' > q {
      MulMono(q + 1, q', n);
    } else if q' < q {
      MulMono(q' + 1, q, n);
    }
  }

  predicate SameBox(n: nat, r: int, c: int, i: int, j: int) {
    n > 0 && i / n == r / n && j / n == c / n
  }

  /** (i, j) is another cell in the row, column or box of (r, c). */
  predicate Peer(n: nat, r: int, c: int, i: int, j: int) {
    (i != r || j != c) && (i == r || j == c || SameBox(n, r, c, i, j))
  }

  /** Some cell other than (r, c) in its row, column or box holds `num`. */
  predicate Clashes(g: Grid, n: nat, num: int, r: int, c: int) {
    exists i, j :: 0 <= i < |g| && 0 <= j < |g[i]| && Peer(n, r, c, i, j) && g[i][j] == num
  }

  /** No cell holds 0. */
  predicate Complete(g: Grid) {
    forall i, j :: 0 <= i < |g| && 0 <= j < |g[i]| ==> g[i][j] != 0
  }

  /** Every cell holds 0 (empty) or a value in 1..m. */
  predicate InRange(g: Grid, n: nat) {
    forall i, j :: 0 <= i < |g| && 0 <= j < |g[i]| ==> 0 <= g[i][j] <= n * n
  }

  /** Every filled cell passes the validity check with its own value. */
  predicate Consistent(g: Grid, n: nat) {
    forall i, j :: 0 <= i < |g| && 0 <= j < |g[i]| && g[i][j] != 0 ==> !Clashes(g, n, g[i][j], i, j)
  }

  /** A finished Sudoku: full, values in 1..m, no two equal values share a unit. */
  predicate Solved(g: Grid, n: nat) {
    IsSquare(g, n) && Complete(g) && InRange(g, n) && Consistent(g, n)
  }

  function Set(g: Grid, r: int, c: int, v: int): Grid
    requires InGrid(g, r, c)
  {
    g[r := g[r][c := v]]
  }

  /** Writing back the old value of a cell undoes a write to it. */
  lemma SetUndo(g: Grid, r: int, c: int, v: int)
    requires InGrid(g, r, c)
    ensures Set(Set(g, r, c, v), r, c, g[r][c]) == g
  {
    assert Set(Set(g, r, c, v), r, c, g[r][c])[r] == g[r];
  }

  predicate SameShape(g: Grid, h: Grid) {
    |h| == |g| && forall i :: 0 <= i < |g| ==> |h[i]| == |g[i]|
  }

  /** h keeps every filled cell of g. */
  predicate Keeps(g: Grid, h: Grid) {
    SameShape(g, h) &&
    forall i, j :: 0 <= i < |g| && 0 <= j < |g[i]| && g[i][j] != 0 ==> h[i][j] == g[i][j]
  }

  /** h is g with some cells cleared to 0. */
  predicate CarvedFrom(h: Grid, g: Grid) {
    SameShape(g, h) &&
    forall i, j :: 0 <= i < |g| && 0 <= j < |g[i]| ==> h[i][j] == g[i][j] || h[i][j] == 0
  }

  lemma CarvedTrans(a: Grid, b: Grid, c: Grid)
    requires CarvedFrom(a, b) && CarvedFrom(b, c)
    ensures CarvedFrom(a, c)
  {
  }

  /** Cells carved from a board in range stay in range. */
  lemma CarvedInRange(h: Grid, g: Grid, n: nat)
    requires CarvedFrom(h, g) && InRange(g, n)
    ensures InRange(h, n)
  {
  }

  /** What a successful search produces from g: a full board that keeps g's
      filled cells, and in which every cell that g left empty holds a value
      in 1..m that passes the validity check. */
  predicate Completes(g: Grid, h: Grid, n: nat) {
    Keeps(g, h) && Complete(h) &&
    forall i, j :: 0 <= i < |g| && 0 <= j < |g[i]| && g[i][j] == 0 ==>
      1 <= h[i][j] <= n * n && !Clashes(h, n, h[i][j], i, j)
  }

  // ---------------------------------------------------------------- counting

  /** Number of non-zero entries of one row. */
  function RowFilled(s: seq<int>): (k: nat)
    ensures k <= |s|
    ensures k == |s| <==> forall j :: 0 <= j < |s| ==> s[j] != 0
  {
    if s == [] then 0
    else RowFilled(s[..|s| - 1]) + (if s[|s| - 1] != 0 then 1 else 0)
  }

  /** Number of non-zero cells of the board. */
  function Filled(g: Grid): nat {
    if g == [] then 0 else Filled(g[..|g| - 1]) + RowFilled(g[|g| - 1])
  }

  lemma {:induction false} FilledBound(g: Grid, w: nat)
    requires forall i :: 0 <= i < |g| ==> |g[i]| == w
    ensures Filled(g) <= |g| * w
    ensures Filled(g) == |g| * w <==> Complete(g)
  {
    if g != [] {
      var k := |g| - 1;
      FilledBound(g[..k], w);
      assert |g| * w == k * w + w;
      if Complete(g) {
        assert Complete(g[..k]) by {
          forall i, j | 0 <= i < k && 0 <= j < |g[..k][i]| ensures g[..k][i][j] != 0 {
            assert g[..k][i] == g[i];
          }
        }
        assert forall j :: 0 <= j < |g[k]| ==> g[k][j] != 0;
      }
      if Filled(g) == |g| * w {
        assert RowFilled(g[k]) == w by {
          assert Filled(g[..k]) <= k * w;
        }
        forall i, j | 0 <= i < |g| && 0 <= j < |g[i]| ensures g[i][j] != 0 {
          if i < k {
            assert g[..k][i] == g[i];
          }
        }
      }
    }
  }

  lemma {:induction false} RowFilledSet(s: seq<int>, c: int, v: int)
    requires 0 <= c < |s|
    ensures RowFilled(s[c := v]) == RowFilled(s) - (if s[c] != 0 then 1 else 0) + (if v != 0 then 1 else 0)
  {
    var k := |s| - 1;
    var t := s[c := v];
    if c < k {
      assert t[..k] == s[..k][c := v];
      RowFilledSet(s[..k], c, v);
    } else {
      assert t[..k] == s[..k];
    }
  }

  /** Writing v over cell (r, c) changes the fill count only by that cell. */
  lemma {:induction false} FilledSet(g: Grid, r: int, c: int, v: int)
    requires InGrid(g, r, c)
    ensures Filled(Set(g, r, c, v)) == Filled(g) - (if g[r][c] != 0 then 1 else 0) + (if v != 0 then 1 else 0)
  {
    var k := |g| - 1;
    var h := Set(g, r, c, v);
    if r < k {
      assert h[..k] == Set(g[..k], r, c, v);
      FilledSet(g[..k], r, c, v);
    } else {
      assert h[..k] == g[..k];
      RowFilledSet(g[k], c, v);
    }
  }

  // ------------------------------------------------------------ consistency

  /** The checked cell never counts against itself: whatever (r, c) holds,
      the answer for (r, c) is the same. */
  lemma SelfExcluded(g: Grid, n: nat, num: int, r: int, c: int, w: int)
    requires InGrid(g, r, c)
    ensures Clashes(Set(g, r, c, w), n, num, r, c) <==> Clashes(g, n, num, r, c)
  {
  }

  /** Placing a value that passes the validity check into an empty cell keeps
      a consistent board consistent. */
  lemma PlaceKeepsConsistent(g: Grid, n: nat, r: int, c: int, v: int)
    requires InGrid(g, r, c) && g[r][c] == 0 && v != 0
    requires Consistent(g, n) && !Clashes(g, n, v, r, c)
    ensures Consistent(Set(g, r, c, v), n)
  {
  }

  /** Clearing a cell keeps a consistent board consistent (the carving loop
      relies on this). */
  lemma ClearKeepsConsistent(g: Grid, n: nat, r: int, c: int)
    requires InGrid(g, r, c)
    ensures Consistent(g, n) ==> Consistent(Set(g, r, c, 0), n)
  {
  }

  /** One step of the search: if the board with v placed at the empty cell
      (r, c) is completed by h, and v passed the validity check, then h
      completes the board before the placement too. */
  lemma ExtendCompletion(g: Grid, n: nat, r: int, c: int, v: int, h: Grid)
    requires InGrid(g, r, c) && g[r][c] == 0 && 1 <= v <= n * n
    requires !Clashes(g, n, v, r, c)
    requires Completes(Set(g, r, c, v), h, n)
    ensures Completes(g, h, n)
  {
  }

  /** A completion of a consistent board is a solved board. */
  lemma CompletionIsSolved(g: Grid, h: Grid, n: nat)
    requires IsSquare(g, n) && InRange(g, n) && Consistent(g, n)
    requires Completes(g, h, n)
    ensures Solved(h, n)
  {
  }

  /** A solved 4×4 board (n = 2): the top-left cell passes the check with
      its own value, and once a second 1 is written into row 0 that cell
      fails it. */
  lemma FourByFourScenario()
    ensures Solved([[1, 2, 3, 4], [3, 4, 1, 2], [2, 1, 4, 3], [4, 3, 2, 1]], 2)
    ensures !Clashes([[1, 2, 3, 4], [3, 4, 1, 2], [2, 1, 4, 3], [4, 3, 2, 1]], 2, 1, 0, 0)
    ensures Clashes([[1, 1, 3, 4], [3, 4, 1, 2], [2, 1, 4, 3], [4, 3, 2, 1]], 2, 1, 0, 1)
  {
    var g := [[1, 2, 3, 4], [3, 4, 1, 2], [2, 1, 4, 3], [4, 3, 2, 1]];
    forall r, c | 0 <= r < 4 && 0 <= c < 4 ensures !Clashes(g, 2, g[r][c], r, c) {
      forall i, j | 0 <= i < 4 && 0 <= j < 4 && Peer(2, r, c, i, j) ensures g[i][j] != g[r][c] {
        assert r / 2 == (if r < 2 then 0 else 1) && c / 2 == (if c < 2 then 0 else 1);
        assert i / 2 == (if i < 2 then 0 else 1) && j / 2 == (if j < 2 then 0 else 1);
      }
    }
    var dup := [[1, 1, 3, 4], [3, 4, 1, 2], [2, 1, 4, 3], [4, 3, 2, 1]];
    assert Peer(2, 0, 1, 0, 0) && dup[0][0] == 1;
  }
}
