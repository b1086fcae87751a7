/** `generate_board` of solver.py: resolve the (size, difficulty) labels,
    fill a blank board with the randomised search, then clear cells while
    more than the target number remain filled. The random choices are
    supplied by the caller: `order(k)` is the k-th shuffle of the candidates
    and `picks` the successive random cells of the carving loop. */
module Generator {
  import opened SudokuGrid
  import opened Solver

  /** The labels "Easy", "Medium" and "Hard", used both for the board size
      and for the difficulty. */
  datatype Level = Easy | Medium | Hard

  /** Cells kept filled, per difficulty, on 4×4, 9×9 and 16×16 boards. */
  const SmallLevels: map<Level, nat> := map[Easy := 10, Medium := 7, Hard := 4]
  const MediumLevels: map<Level, nat> := map[Easy := 35, Medium := 30, Hard := 24]
  const LargeLevels: map<Level, nat> := map[Easy := 150, Medium := 110, Hard := 83]

  /** The box size n selected by the size label. */
  function BoxSize(size: Level): (n: nat)
    ensures 2 <= n <= 4
  {
    match size
    case Easy => 2
    case Medium => 3
    case Hard => 4
  }

  /** The number of cells carving keeps filled: a positive number below
      the m*m cells of the board. */
  function Target(size: Level, diff: Level): (t: nat)
    ensures 0 < t < BoxSize(size) * BoxSize(size) * (BoxSize(size) * BoxSize(size))
  {
    assert diff == Easy || diff == Medium || diff == Hard;
    match size
    case Easy => assert SmallLevels[diff] in {10, 7, 4}; SmallLevels[diff]
    case Medium => assert MediumLevels[diff] in {35, 30, 24}; MediumLevels[diff]
    case Hard => assert LargeLevels[diff] in {150, 110, 83}; LargeLevels[diff]
  }

  /** A harder difficulty keeps strictly fewer cells, and a larger board
      keeps more cells at the same difficulty. */
  lemma TargetOrdering(size: Level, diff: Level)
    ensures Target(size, Hard) < Target(size, Medium) < Target(size, Easy)
    ensures Target(Easy, diff) < Target(Medium, diff) < Target(Hard, diff)
  {
  }

  /** The medium-sized board at medium difficulty: a 9×9 board carved down
      to 30 filled cells. */
  lemma MediumMedium()
    ensures BoxSize(Medium) == 3 && Target(Medium, Medium) == 30
  {
  }

  /** A board with every cell empty. */
  predicate Blank(g: Grid) {
    forall i, j :: 0 <= i < |g| && 0 <= j < |g[i]| ==> g[i][j] == 0
  }

  lemma BlankIsConsistent(g: Grid, n: nat)
    requires Blank(g)
    ensures Consistent(g, n) && InRange(g, n)
  {
  }

  /** One pass of the carving loop on the board's value: cell (x, y) is
      cleared when its current value passes the validity check there. At
      most that one cell is cleared, and a consistent board stays
      consistent. */
  function CarveCell(g: Grid, n: nat, x: nat, y: nat): (h: Grid)
    requires InGrid(g, x, y)
    ensures CarvedFrom(h, g)
    ensures Filled(h) <= Filled(g) <= Filled(h) + 1
    ensures forall i, j :: InGrid(g, i, j) && (i != x || j != y) ==> h[i][j] == g[i][j]
    ensures h[x][y] == 0 <==> g[x][y] == 0 || !Clashes(g, n, g[x][y], x, y)
    ensures Consistent(g, n) ==> Consistent(h, n)
  {
    FilledSet(g, x, y, 0);
    if Clashes(g, n, g[x][y], x, y) then g
    else
      ClearKeepsConsistent(g, n, x, y);
      Set(g, x, y, 0)
  }

  /** The carving loop run over the picks `ps`, in order, on the board's
      value. */
  function Carve(g: Grid, n: nat, ps: seq<(nat, nat)>): (h: Grid)
    requires IsSquare(g, n)
    requires forall k :: 0 <= k < |ps| ==> ps[k].0 < n * n && ps[k].1 < n * n
    ensures IsSquare(h, n) && CarvedFrom(h, g)
    ensures Filled(h) <= Filled(g)
    ensures Consistent(g, n) ==> Consistent(h, n)
    decreases |ps|
  {
    if ps == [] then g
    else
      var h := Carve(g, n, ps[..|ps| - 1]);
      var (x, y) := ps[|ps| - 1];
      CarvedTrans(CarveCell(h, n, x, y), h, g);
      CarveCell(h, n, x, y)
  }

  /** Carving one more pick carves the board left by the earlier picks. */
  lemma CarveNext(g: Grid, n: nat, ps: seq<(nat, nat)>, k: nat)
    requires IsSquare(g, n) && k < |ps|
    requires forall i :: 0 <= i < |ps| ==> ps[i].0 < n * n && ps[i].1 < n * n
    ensures Carve(g, n, ps[..k + 1]) == CarveCell(Carve(g, n, ps[..k]), n, ps[k].0, ps[k].1)
  {
    assert ps[..k + 1][..k] == ps[..k];
  }

  /** Every prefix of `ps` shorter than `k` leaves more than `target` cells
      filled. */
  predicate AboveUntil(g: Grid, n: nat, target: nat, ps: seq<(nat, nat)>, k: nat)
    requires IsSquare(g, n) && k <= |ps|
    requires forall i :: 0 <= i < |ps| ==> ps[i].0 < n * n && ps[i].1 < n * n
  {
    forall i :: 0 <= i < k ==> Filled(Carve(g, n, ps[..i])) > target
  }

  lemma AboveNext(g: Grid, n: nat, target: nat, ps: seq<(nat, nat)>, k: nat)
    requires IsSquare(g, n) && k < |ps|
    requires forall i :: 0 <= i < |ps| ==> ps[i].0 < n * n && ps[i].1 < n * n
    requires AboveUntil(g, n, target, ps, k) && Filled(Carve(g, n, ps[..k])) > target
    ensures AboveUntil(g, n, target, ps, k + 1)
  {
  }

  /** One pass of the carving loop: clear cell (x, y) when its current value
      passes the validity check at that cell. */
  method CarveStep(bo: array2<int>, n: nat, x: nat, y: nat)
    requires IsBoard(bo, n) && x < n * n && y < n * n
    modifies bo
    ensures Cells(bo) == if Clashes(old(Cells(bo)), n, old(bo[x, y]), x, y) then old(Cells(bo))
                         else Set(old(Cells(bo)), x, y, 0)
    ensures Cells(bo) == CarveCell(old(Cells(bo)), n, x, y)
  {
    var ok := Valid(bo, n, bo[x, y], x, y);
    if ok {
      Place(bo, x, y, 0);
    }
  }

  /** The carving loop of `generate_board`: while more than `target` cells
      are filled, take the next pick and carve it. `used` is the number of
      picks consumed; the loop stops at the first prefix of the picks that
      leaves at most `target` cells filled, or when the picks run out. */
  method CarveDown(bo: array2<int>, n: nat, target: nat, picks: seq<(nat, nat)>) returns (used: nat)
    requires IsBoard(bo, n)
    requires forall k :: 0 <= k < |picks| ==> picks[k].0 < n * n && picks[k].1 < n * n
    modifies bo
    ensures used <= |picks|
    ensures IsSquare(old(Cells(bo)), n) && Cells(bo) == Carve(old(Cells(bo)), n, picks[..used])
    ensures AboveUntil(old(Cells(bo)), n, target, picks, used)
    ensures Filled(Cells(bo)) <= target || used == |picks|
    ensures Filled(old(Cells(bo))) >= target ==> Filled(Cells(bo)) >= target
  {
    ghost var start := Cells(bo);
    BoardShape(bo, n);
    var count := CountSquares(bo);
    used := 0;
    assert picks[..0] == [];
    while count > target && used < |picks|
      invariant used <= |picks|
      invariant count == Filled(Cells(bo))
      invariant Cells(bo) == Carve(start, n, picks[..used])
      invariant AboveUntil(start, n, target, picks, used)
      invariant Filled(start) >= target ==> count >= target
      decreases |picks| - used
    {
      var (x, y) := picks[used];
      AboveNext(start, n, target, picks, used);
      CarveStep(bo, n, x, y);
      CarveNext(start, n, picks, used);
      used := used + 1;
      count := CountSquares(bo);
    }
  }

  /** `generate_board((size, diff))`: returns the carved board and n. `used`
      is the number of picks the carving loop consumed; the loop stops once
      at most `Target(size, diff)` cells are filled, or when the supplied
      picks run out. `solution` is the board that the search produced before
      carving: a solved board, or the blank board if the search failed. */
  method GenerateBoard(size: Level, diff: Level, order: nat -> seq<int>, picks: seq<(nat, nat)>)
      returns (bo: array2<int>, n: nat, used: nat, ghost solution: Grid)
    requires forall k :: IsCandidateOrder(order(k), BoxSize(size) * BoxSize(size))
    requires forall k :: 0 <= k < |picks| ==>
      picks[k].0 < BoxSize(size) * BoxSize(size) && picks[k].1 < BoxSize(size) * BoxSize(size)
    ensures fresh(bo)
    ensures n == BoxSize(size) && IsBoard(bo, n)
    ensures Solved(solution, n) || (IsSquare(solution, n) && Blank(solution))
    ensures used <= |picks| && Cells(bo) == Carve(solution, n, picks[..used])
    ensures CarvedFrom(Cells(bo), solution)
    ensures Consistent(Cells(bo), n) && InRange(Cells(bo), n)
    ensures AboveUntil(solution, n, Target(size, diff), picks, used)
    ensures Filled(Cells(bo)) <= Target(size, diff) || used == |picks|
    ensures Filled(solution) >= Target(size, diff) ==> Filled(Cells(bo)) >= Target(size, diff)
    ensures Solved(solution, n) && used < |picks| ==> Filled(Cells(bo)) == Target(size, diff)
  {
    n := BoxSize(size);
    var difficulty := Target(size, diff);
    var m := n * n;
    bo := new int[m, m]((i, j) => 0);
    ghost var blank := Cells(bo);
    BoardShape(bo, n);
    assert Blank(blank);
    BlankIsConsistent(blank, n);
    var filled, draws := MakeBoard(bo, n, order, 0);
    solution := Cells(bo);
    BoardShape(bo, n);
    if filled {
      CompletionIsSolved(blank, solution, n);
    }
    FilledBound(solution, m);
    assert InRange(solution, n) && Consistent(solution, n);
    assert difficulty < m * m;
    assert Solved(solution, n) ==> Filled(solution) > difficulty;
    used := CarveDown(bo, n, difficulty, picks);
    CarvedInRange(Cells(bo), solution, n);
  }
}
