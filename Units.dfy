/** On a solved board every row, every column and every n×n box holds each
    of the values 1..m exactly once: "at most once" is consistency itself,
    "at least once" follows by counting (m distinct values drawn from 1..m). */
module SudokuUnits {
  import opened SudokuGrid

  predicate Distinct(s: seq<int>) {
    forall a, b :: 0 <= a < b < |s| ==> s[a] != s[b]
  }

  function Elems(s: seq<int>): set<int> {
    set k | 0 <= k < |s| :: s[k]
  }

  /** The set {1, ..., m}. */
  function Values(m: nat): (r: set<int>)
    ensures forall v :: v in r <==> 1 <= v <= m
    ensures |r| == m
  {
    if m == 0 then {} else Values(m - 1) + {m}
  }

  lemma {:induction false} DistinctElems(s: seq<int>)
    requires Distinct(s)
    ensures |Elems(s)| == |s|
  {
    if s != [] {
      var k := |s| - 1;
      DistinctElems(s[..k]);
      assert Elems(s) == Elems(s[..k]) + {s[k]};
      assert s[k] !in Elems(s[..k]);
    }
  }

  /** m distinct values in 1..m take every value in 1..m. */
  lemma Pigeonhole(s: seq<int>, m: nat)
    requires |s| == m && Distinct(s)
    requires forall k :: 0 <= k < |s| ==> 1 <= s[k] <= m
    ensures forall v :: 1 <= v <= m ==> v in s
  {
    DistinctElems(s);
    var e, r := Elems(s), Values(m);
    assert e <= r;
    assert |r| == |e| + |r - e| by {
      assert r == e + (r - e);
    }
    assert r - e == {};
    forall v | 1 <= v <= m ensures v in s {
      assert v in r;
      assert v in e;
    }
  }

  /** Every row of a solved board holds every value in 1..m. */
  lemma SolvedRow(g: Grid, n: nat, i: int, v: int)
    requires Solved(g, n) && 0 <= i < n * n && 1 <= v <= n * n
    ensures exists j :: 0 <= j < n * n && g[i][j] == v
  {
    var s := g[i];
    forall a, b | 0 <= a < b < |s| ensures s[a] != s[b] {
      assert Peer(n, i, a, i, b);
      assert !Clashes(g, n, g[i][a], i, a);
    }
    Pigeonhole(s, n * n);
    assert v in s;
    var j :| 0 <= j < |s| && s[j] == v;
  }

  /** Column j, top to bottom. */
  function Column(g: Grid, n: nat, j: int): (s: seq<int>)
    requires IsSquare(g, n) && 0 <= j < n * n
    ensures |s| == n * n && forall i :: 0 <= i < n * n ==> s[i] == g[i][j]
  {
    seq(n * n, i requires 0 <= i < n * n => g[i][j])
  }

  /** Every column of a solved board holds every value in 1..m. */
  lemma SolvedColumn(g: Grid, n: nat, j: int, v: int)
    requires Solved(g, n) && 0 <= j < n * n && 1 <= v <= n * n
    ensures exists i :: 0 <= i < n * n && g[i][j] == v
  {
    var s := Column(g, n, j);
    forall a, b | 0 <= a < b < |s| ensures s[a] != s[b] {
      assert Peer(n, a, j, b, j);
      assert !Clashes(g, n, g[a][j], a, j);
    }
    Pigeonhole(s, n * n);
    assert v in s;
    var i :| 0 <= i < |s| && s[i] == v;
  }

  /** Rows r0 .. r0+t-1 of the box whose top-left cell is (r0, c0), each
      restricted to the box's n columns, concatenated. */
  function BoxRows(g: Grid, n: nat, r0: nat, c0: nat, t: nat): (s: seq<int>)
    requires IsSquare(g, n) && r0 + t <= n * n && c0 + n <= n * n
    ensures |s| == t * n
  {
    if t == 0 then [] else BoxRows(g, n, r0, c0, t - 1) + g[r0 + t - 1][c0..c0 + n]
  }

  /** x is held by a cell in rows r0 .. r0+t-1 and columns c0 .. c0+n-1. */
  predicate InBlock(g: Grid, n: nat, r0: nat, c0: nat, t: nat, x: int)
    requires IsSquare(g, n) && r0 + t <= n * n && c0 + n <= n * n
  {
    exists a, b :: r0 <= a < r0 + t && c0 <= b < c0 + n && x == g[a][b]
  }

  /** Every entry of the flattened box comes from a cell of the box. */
  lemma {:induction false} BoxRowsCells(g: Grid, n: nat, r0: nat, c0: nat, t: nat)
    requires IsSquare(g, n) && r0 + t <= n * n && c0 + n <= n * n
    ensures forall k :: 0 <= k < t * n ==> InBlock(g, n, r0, c0, t, BoxRows(g, n, r0, c0, t)[k])
  {
    if t > 0 {
      BoxRowsCells(g, n, r0, c0, t - 1);
      var front := BoxRows(g, n, r0, c0, t - 1);
      var s := BoxRows(g, n, r0, c0, t);
      assert t * n == |front| + n;
      forall k | 0 <= k < t * n
        ensures InBlock(g, n, r0, c0, t, s[k])
      {
        if k < |front| {
          assert s[k] == front[k];
          assert InBlock(g, n, r0, c0, t - 1, front[k]);
          var a, b :| r0 <= a < r0 + t - 1 && c0 <= b < c0 + n && front[k] == g[a][b];
        } else {
          var a, b := r0 + t - 1, c0 + k - |front|;
          assert s[k] == g[a][b];
        }
      }
    }
  }

  /** If no two cells of the box hold the same value, the flattened box has
      no repeated value. */
  lemma {:induction false} BoxRowsDistinct(g: Grid, n: nat, r0: nat, c0: nat, t: nat)
    requires IsSquare(g, n) && r0 + t <= n * n && c0 + n <= n * n
    requires forall a, b, a', b' ::
      (r0 <= a < r0 + t && c0 <= b < c0 + n && r0 <= a' < r0 + t && c0 <= b' < c0 + n && (a != a' || b != b'))
      ==> g[a][b] != g[a'][b']
    ensures Distinct(BoxRows(g, n, r0, c0, t))
  {
    if t > 0 {
      var front := BoxRows(g, n, r0, c0, t - 1);
      var last := r0 + t - 1;
      var row := g[last][c0..c0 + n];
      BoxRowsDistinct(g, n, r0, c0, t - 1);
      BoxRowsCells(g, n, r0, c0, t - 1);
      var s := BoxRows(g, n, r0, c0, t);
      assert s == front + row;
      forall x, y | 0 <= x < y < |s| ensures s[x] != s[y] {
        if y < |front| {
          assert s[x] == front[x] && s[y] == front[y];
        } else if x >= |front| {
          assert s[x] == g[last][c0 + x - |front|] && s[y] == g[last][c0 + y - |front|];
        } else {
          assert InBlock(g, n, r0, c0, t - 1, front[x]);
          var a, b :| r0 <= a < r0 + t - 1 && c0 <= b < c0 + n && front[x] == g[a][b];
          assert s[x] == g[a][b] && s[y] == g[last][c0 + y - |front|];
        }
      }
    }
  }

  /** Every box of a solved board holds every value in 1..m: the box that
      contains (r, c) has a cell (i, j) holding v. */
  lemma SolvedBox(g: Grid, n: nat, r: int, c: int, v: int)
    requires Solved(g, n) && 0 <= r < n * n && 0 <= c < n * n && 1 <= v <= n * n
    ensures exists i, j :: 0 <= i < n * n && 0 <= j < n * n && SameBox(n, r, c, i, j) && g[i][j] == v
  {
    var r0, c0 := BoxStart(n, r), BoxStart(n, c);
    forall a, b | r0 <= a < r0 + n && c0 <= b < c0 + n ensures SameBox(n, r, c, a, b) {
      BoxSpan(n, r, a);
      BoxSpan(n, c, b);
    }
    forall a, b, a', b' | r0 <= a < r0 + n && c0 <= b < c0 + n &&
      r0 <= a' < r0 + n && c0 <= b' < c0 + n && (a != a' || b != b')
      ensures g[a][b] != g[a'][b']
    {
      assert SameBox(n, r, c, a, b) && SameBox(n, r, c, a', b');
      assert Peer(n, a, b, a', b');
      assert !Clashes(g, n, g[a][b], a, b);
    }
    var s := BoxRows(g, n, r0, c0, n);
    BoxRowsDistinct(g, n, r0, c0, n);
    BoxRowsCells(g, n, r0, c0, n);
    forall k | 0 <= k < |s| ensures 1 <= s[k] <= n * n {
      assert InBlock(g, n, r0, c0, n, s[k]);
      var a, b :| r0 <= a < r0 + n && c0 <= b < c0 + n && s[k] == g[a][b];
    }
    Pigeonhole(s, n * n);
    assert v in s;
    var k :| 0 <= k < |s| && s[k] == v;
    assert InBlock(g, n, r0, c0, n, s[k]);
    var a, b :| r0 <= a < r0 + n && c0 <= b < c0 + n && s[k] == g[a][b];
    assert SameBox(n, r, c, a, b);
  }
}
