/**
 * The Adaptive Mesh Model for a down-and-out barrier option: starting from a
 * coarse condensed lattice A0 (N0 steps of log-price size h0 and time size
 * k0), each level builds a three-row fine mesh next to the barrier with four
 * times the steps, half the price step and a quarter of the time step.
 * Row 0 is stitched from the coarser grid (copied where the columns line
 * up, one partial step of expectation elsewhere), row 2 lies on the barrier
 * and is 0, and row 1, the middle row, is rolled back column by column.
 *
 * The growth factor t |-> (1 + r)^t used for discounting is a parameter.
 */
module Amm {
  import Formulas
  import opened Powers
  import opened TrinomialUtils
  import opened TrinomialModel
  import opened BarrierOptions

  /**
   * The fixed inputs of the mesh: coarse steps, volatility, drift, the log
   * barrier, the strike and the growth factor of a time span.
   */
  datatype Mesh = Mesh(N0: nat, h0: real, k0: real, sigma: real, alpha: real, logH: real, K: real, growth: real -> real)

  /** Inputs the mesh formulas can be evaluated on: a non-zero price step and a positive growth factor. */
  ghost predicate ValidMesh(p: Mesh)
  {
    p.h0 != 0.0 && forall t :: p.growth(t) > 0.0
  }

  /** The coarse grid as the condensed model leaves it: (2N0+1) x (N0+1), set on every band cell. */
  ghost predicate CoarseReady(A0: array2<Cell>, N0: nat)
    reads A0
  {
    A0.Length0 == 2 * N0 + 1 && A0.Length1 == N0 + 1 &&
    forall row, col :: InBand(N0, row, col) ==> A0[row, col].Value?
  }

  /** The number of time steps after i levels: each level multiplies it by 4. */
  function LevelN(N0: nat, i: nat): nat
  {
    if i == 0 then N0 else 4 * LevelN(N0, i - 1)
  }

  /** The price step after i levels: each level halves it. */
  function LevelH(h0: real, i: nat): (h: real)
    ensures h0 != 0.0 ==> h != 0.0
  {
    if i == 0 then h0 else LevelH(h0, i - 1) / 2.0
  }

  /** The time step after i levels: each level divides it by 4. */
  function LevelK(k0: real, i: nat): real
  {
    if i == 0 then k0 else LevelK(k0, i - 1) / 4.0
  }

  /** After i levels there are 4^i N0 steps. */
  lemma {:induction false} LevelNClosedForm(N0: nat, i: nat)
    ensures LevelN(N0, i) == Pow(4, i) * N0
  {
    if i > 0 {
      LevelNClosedForm(N0, i - 1);
      assert 4 * (Pow(4, i - 1) * N0) == (4 * Pow(4, i - 1)) * N0;
    }
  }

  /** After i levels the price step is h0 / 2^i and the time step k0 / 4^i. */
  lemma {:induction false} LevelStepsClosedForm(h0: real, k0: real, i: nat)
    ensures LevelH(h0, i) * Pow(2, i) as real == h0
    ensures LevelK(k0, i) * Pow(4, i) as real == k0
  {
    if i > 0 {
      LevelStepsClosedForm(h0, k0, i - 1);
      var h', k' := LevelH(h0, i - 1), LevelK(k0, i - 1);
      assert (h' / 2.0) * (2 * Pow(2, i - 1)) as real == h' * Pow(2, i - 1) as real;
      assert (k' / 4.0) * (4 * Pow(4, i - 1)) as real == k' * Pow(4, i - 1) as real;
    }
  }

  /** A level's step count is a multiple of 4, so the last fine column lines up with the last coarse one. */
  lemma LevelNMultipleOf4(N0: nat, i: nat)
    requires i >= 1
    ensures LevelN(N0, i) % 4 == 0 && LevelN(N0, i) / 4 == LevelN(N0, i - 1)
  {
  }

  /**
   * The nodes counted after i levels: the (N0+1)^2 of the coarse lattice,
   * then three rows of 4N + 1 nodes for each level.
   */
  function NodeCount(N0: nat, i: nat): nat
  {
    if i == 0 then (N0 + 1) * (N0 + 1) else NodeCount(N0, i - 1) + 3 * (LevelN(N0, i) + 1)
  }

  /** The two products the node-count recurrence rewrites, expanded once. */
  lemma ExpandProducts(N0: nat, x: nat)
    ensures 4 * N0 * (x - 1) == 4 * (N0 * x) - 4 * N0
    ensures 4 * N0 * (4 * x - 1) == 16 * (N0 * x) - 4 * N0
  {
  }

  /** In closed form the count is (N0+1)^2 + 3i + 4 N0 (4^i - 1). */
  lemma {:induction false} NodeCountClosedForm(N0: nat, i: nat)
    ensures NodeCount(N0, i) == (N0 + 1) * (N0 + 1) + 3 * i + 4 * N0 * (Pow(4, i) - 1)
  {
    if i > 0 {
      NodeCountClosedForm(N0, i - 1);
      LevelNClosedForm(N0, i);
      var x := Pow(4, i - 1);
      assert Pow(4, i) == 4 * x;
      assert LevelN(N0, i) == 4 * (N0 * x) by {
        assert Pow(4, i) * N0 == 4 * (N0 * x);
      }
      ExpandProducts(N0, x);
    }
  }

  /** The next multiple of 4 above col. */
  function NextMultipleOf4(col: nat): (m: nat)
    ensures m % 4 == 0 && col < m <= col + 4
    ensures col % 4 != 0 ==> m < col + 4
  {
    col + (4 - col % 4)
  }

  /** A non-aligned fine column below 4L reads coarse column NextMultipleOf4(col)/4, which lies in 1 .. L. */
  lemma StitchColumn(col: nat, L: nat)
    requires col < 4 * L && col % 4 != 0
    ensures 1 <= NextMultipleOf4(col) / 4 <= L
  {
  }

  /** The coarse row the stitching reads: the middle row N0 of the condensed lattice, then row 1 of each mesh. */
  function MiddleRow(p: Mesh, i: nat): nat
  {
    if i == 0 then p.N0 else 1
  }

  /** The cells of the grid after i levels: the band of A0 for i = 0, three rows of 4^i N0 + 1 columns after. */
  predicate InGrid(p: Mesh, i: nat, row: int, col: int)
  {
    if i == 0 then InBand(p.N0, row, col) else 0 <= row <= 2 && 0 <= col <= LevelN(p.N0, i)
  }

  /** The probability-weighted value of the up, middle and down successors. */
  function WeightedSum(pu: real, pm: real, pd: real, up: real, mid: real, down: real): real
  {
    pu * up + pm * mid + pd * down
  }

  /**
   * Row 0 at a column that does not line up: the expectation over one
   * partial coarse step of (NextMultipleOf4(col) - col) fine time steps,
   * with the coarse price step, discounted over one fine time step.
   */
  function Stitch(p: Mesh, i: nat, col: nat, up: real, mid: real, down: real): real
    requires ValidMesh(p) && i >= 1
  {
    var hc := LevelH(p.h0, i - 1);
    var relk := LevelK(p.k0, i) * (NextMultipleOf4(col) - col) as real;
    Discount(WeightedSum(Formulas.PUp(hc, relk, p.sigma, p.alpha), Formulas.PMid(hc, relk, p.sigma, p.alpha),
                         Formulas.PDown(hc, relk, p.sigma, p.alpha), up, mid, down),
             p.growth(LevelK(p.k0, i)))
  }

  /** The middle row: one fine step of expectation over rows 0, 1 and 2 of the next column, discounted. */
  function Middle(p: Mesh, i: nat, up: real, mid: real, down: real): real
    requires ValidMesh(p)
  {
    var h, k := LevelH(p.h0, i), LevelK(p.k0, i);
    Discount(WeightedSum(Formulas.PUp(h, k, p.sigma, p.alpha), Formulas.PMid(h, k, p.sigma, p.alpha),
                         Formulas.PDown(h, k, p.sigma, p.alpha), up, mid, down),
             p.growth(k))
  }

  /** The value at (row, col) of the grid after i levels. */
  function GridValue(A0: array2<Cell>, p: Mesh, i: nat, row: int, col: int): real
    requires ValidMesh(p) && CoarseReady(A0, p.N0) && InGrid(p, i, row, col)
    reads A0
    decreases i, 2
  {
    if i == 0 then A0[row, col].x else FineValue(A0, p, i, row, col)
  }

  /** The value at (row, col) of the mesh of level i >= 1. */
  function FineValue(A0: array2<Cell>, p: Mesh, i: nat, row: int, col: int): real
    requires ValidMesh(p) && CoarseReady(A0, p.N0) && i >= 1 && 0 <= row <= 2 && 0 <= col <= LevelN(p.N0, i)
    reads A0
    decreases i, if row == 1 then 1 else 0, LevelN(p.N0, i) - col
  {
    LevelNMultipleOf4(p.N0, i);
    var m := MiddleRow(p, i - 1);
    if row == 2 then 0.0
    else if row == 0 then
      if col % 4 == 0 then GridValue(A0, p, i - 1, m, col / 4)
      else
        var c := NextMultipleOf4(col) / 4;
        StitchColumn(col, LevelN(p.N0, i - 1));
        Stitch(p, i, col, GridValue(A0, p, i - 1, m - 1, c), GridValue(A0, p, i - 1, m, c), GridValue(A0, p, i - 1, m + 1, c))
    else if col == LevelN(p.N0, i) then Max0(p.logH + LevelH(p.h0, i) - p.K)
    else Middle(p, i, FineValue(A0, p, i, 0, col + 1), FineValue(A0, p, i, 1, col + 1), FineValue(A0, p, i, 2, col + 1))
  }

  /** The array holds the grid after i levels, every cell set: A0 itself for i = 0, the level-i mesh after. */
  ghost predicate HoldsGrid(A: array2<Cell>, A0: array2<Cell>, p: Mesh, i: nat)
    requires ValidMesh(p) && CoarseReady(A0, p.N0)
    reads A, A0
  {
    if i == 0 then A == A0
    else
      A.Length0 == 3 && A.Length1 == LevelN(p.N0, i) + 1 &&
      forall row, col :: 0 <= row < 3 && 0 <= col <= LevelN(p.N0, i) ==> A[row, col] == Value(FineValue(A0, p, i, row, col))
  }

  /** The level-loop state (N, k, h, last middle row) and the fixed inputs are those of level i - 1 of the mesh p. */
  ghost predicate LevelState(p: Mesh, i: nat, N: nat, k: real, h: real, lastMiddleRow: nat,
                             sigma: real, alpha: real, logH: real, K: real, growth: real -> real)
  {
    i >= 1 && N == LevelN(p.N0, i - 1) && k == LevelK(p.k0, i - 1) && h == LevelH(p.h0, i - 1) &&
    lastMiddleRow == MiddleRow(p, i - 1) &&
    sigma == p.sigma && alpha == p.alpha && logH == p.logH && K == p.K && growth == p.growth
  }

  /** Row 0 of a new mesh: copied from the coarse middle row where columns line up, stitched elsewhere. */
  method StitchRow(A: array2<Cell>, N: nat, k: real, h: real, lastMiddleRow: nat,
                   sigma: real, alpha: real, growth: real -> real, B: array2<Cell>,
                   ghost A0: array2<Cell>, ghost p: Mesh, ghost i: nat)
    requires ValidMesh(p) && CoarseReady(A0, p.N0) && LevelState(p, i, N, k, h, lastMiddleRow, sigma, alpha, p.logH, p.K, growth)
    requires HoldsGrid(A, A0, p, i - 1)
    requires B.Length0 == 3 && B.Length1 == 4 * N + 1 && B != A0 && B != A
    modifies B
    ensures forall row, col :: 0 <= row < 3 && 0 <= col < B.Length1 ==>
      B[row, col] == if row == 0 then Value(FineValue(A0, p, i, 0, col)) else old(B[row, col])
  {
    var newN, newK := 4 * N, k / 4.0;
    LevelNMultipleOf4(p.N0, i);
    for col := 0 to newN + 1
      invariant forall row, c :: 0 <= row < 3 && 0 <= c < B.Length1 ==>
        B[row, c] == if row == 0 && c < col then Value(FineValue(A0, p, i, 0, c)) else old(B[row, c])
    {
      if col % 4 == 0 {
        B[0, col] := A[lastMiddleRow, col / 4];
      } else {
        var closest4 := NextMultipleOf4(col);
        StitchColumn(col, N);
        var relativeK := newK * (closest4 - col) as real;
        var pu, pm, pd := Formulas.PUp(h, relativeK, sigma, alpha), Formulas.PMid(h, relativeK, sigma, alpha),
                          Formulas.PDown(h, relativeK, sigma, alpha);
        assert relativeK == LevelK(p.k0, i) * (NextMultipleOf4(col) - col) as real;
        B[0, col] := Value(Discount(WeightedSum(pu, pm, pd, A[lastMiddleRow - 1, closest4 / 4].x, A[lastMiddleRow, closest4 / 4].x,
                                                A[lastMiddleRow + 1, closest4 / 4].x), growth(newK)));
        assert B[0, col] == Value(Stitch(p, i, col, A[lastMiddleRow - 1, closest4 / 4].x, A[lastMiddleRow, closest4 / 4].x,
                                         A[lastMiddleRow + 1, closest4 / 4].x));
      }
    }
  }

  /** A mesh holding level i is 0 on the barrier row. */
  lemma RefinedBarrierRow(B: array2<Cell>, A0: array2<Cell>, p: Mesh, i: nat)
    requires ValidMesh(p) && CoarseReady(A0, p.N0) && i >= 1 && HoldsGrid(B, A0, p, i)
    ensures forall col :: 0 <= col <= LevelN(p.N0, i) ==> B[2, col] == Value(0.0)
  {
    forall c | 0 <= c <= LevelN(p.N0, i)
      ensures B[2, c] == Value(0.0)
    {
      assert B[2, c] == Value(FineValue(A0, p, i, 2, c));
    }
  }

  /** A mesh holding level i copies the coarse middle row at the columns that line up with it. */
  lemma RefinedAlignedRow(A: array2<Cell>, B: array2<Cell>, A0: array2<Cell>, p: Mesh, i: nat)
    requires ValidMesh(p) && CoarseReady(A0, p.N0) && i >= 1
    requires HoldsGrid(A, A0, p, i - 1) && HoldsGrid(B, A0, p, i)
    ensures forall col :: 0 <= col <= LevelN(p.N0, i) && col % 4 == 0 ==> B[0, col] == A[MiddleRow(p, i - 1), col / 4]
  {
    LevelNMultipleOf4(p.N0, i);
    forall c | 0 <= c <= LevelN(p.N0, i) && c % 4 == 0
      ensures B[0, c] == A[MiddleRow(p, i - 1), c / 4]
    {
      assert c / 4 <= LevelN(p.N0, i - 1);
      HoldsGridCell(A, A0, p, i - 1, MiddleRow(p, i - 1), c / 4);
      assert B[0, c] == Value(FineValue(A0, p, i, 0, c));
    }
  }

  /** A set cell of the grid after j levels holds the grid's value. */
  lemma HoldsGridCell(A: array2<Cell>, A0: array2<Cell>, p: Mesh, j: nat, row: int, col: int)
    requires ValidMesh(p) && CoarseReady(A0, p.N0) && HoldsGrid(A, A0, p, j)
    requires row == MiddleRow(p, j) && 0 <= col <= LevelN(p.N0, j)
    ensures InGrid(p, j, row, col)
    ensures A[row, col] == Value(GridValue(A0, p, j, row, col))
  {
    if j == 0 {
      assert InBand(p.N0, row, col);
      assert A0[row, col].Value?;
    }
  }

  /** In a mesh holding level i, each middle cell is the discounted expectation of the next column. */
  lemma RefinedMiddleRow(B: array2<Cell>, A0: array2<Cell>, p: Mesh, i: nat)
    requires ValidMesh(p) && CoarseReady(A0, p.N0) && i >= 1 && HoldsGrid(B, A0, p, i)
    ensures forall col :: 0 <= col < LevelN(p.N0, i) ==>
      B[1, col] == Value(Middle(p, i, B[0, col + 1].x, B[1, col + 1].x, B[2, col + 1].x))
  {
    forall c | 0 <= c < LevelN(p.N0, i)
      ensures B[1, c] == Value(Middle(p, i, B[0, c + 1].x, B[1, c + 1].x, B[2, c + 1].x))
    {
      assert B[0, c + 1] == Value(FineValue(A0, p, i, 0, c + 1));
      assert B[1, c + 1] == Value(FineValue(A0, p, i, 1, c + 1));
      assert B[2, c + 1] == Value(FineValue(A0, p, i, 2, c + 1));
      assert B[1, c] == Value(FineValue(A0, p, i, 1, c));
    }
  }

  /**
   * One refinement level from the loop state of the coarser grid (N steps of
   * time size k and price size h, middle row lastMiddleRow): a new
   * 3 x (4N+1) mesh, every cell set, whose row 0 is stitched from the
   * coarser grid, whose barrier row 2 is 0 throughout, whose last middle
   * cell is max(log H + h/2 - K, 0), and whose other middle cells are the
   * discounted one-step expectation of the next column.
   */
  method RefineLevel(A: array2<Cell>, N: nat, k: real, h: real, lastMiddleRow: nat,
                     sigma: real, alpha: real, logH: real, K: real, growth: real -> real,
                     ghost A0: array2<Cell>, ghost p: Mesh, ghost i: nat)
    returns (B: array2<Cell>)
    requires ValidMesh(p) && CoarseReady(A0, p.N0) && LevelState(p, i, N, k, h, lastMiddleRow, sigma, alpha, logH, K, growth)
    requires HoldsGrid(A, A0, p, i - 1)
    ensures fresh(B)
    ensures HoldsGrid(B, A0, p, i)
    ensures B.Length0 == 3 && B.Length1 == 4 * N + 1
    ensures forall col :: 0 <= col <= 4 * N ==> B[2, col] == Value(0.0)
    ensures forall col :: 0 <= col <= 4 * N && col % 4 == 0 ==> B[0, col] == A[lastMiddleRow, col / 4]
    ensures B[1, 4 * N] == Value(Max0(logH + h / 2.0 - K))
    ensures forall col :: 0 <= col < 4 * N ==>
      B[1, col] == Value(Middle(p, i, B[0, col + 1].x, B[1, col + 1].x, B[2, col + 1].x))
  {
    var newN, newK, newH := 4 * N, k / 4.0, h / 2.0;
    LevelNMultipleOf4(p.N0, i);
    assert newN == LevelN(p.N0, i) && newK == LevelK(p.k0, i) && newH == LevelH(p.h0, i);
    B := new Cell[3, newN + 1]((_, _) => Unset);
    StitchRow(A, N, k, h, lastMiddleRow, sigma, alpha, growth, B, A0, p, i);
    for col := 0 to newN + 1
      invariant forall row, c :: 0 <= row < 3 && 0 <= c <= newN ==>
        B[row, c] == if row == 0 || (row == 2 && c < col) then Value(FineValue(A0, p, i, row, c)) else Unset
    {
      B[2, col] := Value(0.0);
    }
    B[1, newN] := Value(Max0(logH + newH - K));
    var pu, pm, pd := Formulas.PUp(newH, newK, sigma, alpha), Formulas.PMid(newH, newK, sigma, alpha),
                      Formulas.PDown(newH, newK, sigma, alpha);
    var col := newN;
    while col > 0
      invariant 0 <= col <= newN
      invariant forall row, c :: 0 <= row < 3 && 0 <= c <= newN ==>
        B[row, c] == if row != 1 || c >= col then Value(FineValue(A0, p, i, row, c)) else Unset
    {
      col := col - 1;
      B[1, col] := Value(Discount(WeightedSum(pu, pm, pd, B[0, col + 1].x, B[1, col + 1].x, B[2, col + 1].x), growth(newK)));
      assert B[1, col] == Value(Middle(p, i, B[0, col + 1].x, B[1, col + 1].x, B[2, col + 1].x));
    }
    RefinedBarrierRow(B, A0, p, i);
    RefinedAlignedRow(A, B, A0, p, i);
    RefinedMiddleRow(B, A0, p, i);
  }

  /**
   * The level loop of the Adaptive Mesh Model. With no levels the price is
   * the coarse lattice's value at its root (N0, 0); otherwise it is the
   * middle-row value at column 0 of the last mesh. The node count is the
   * coarse lattice's (N0+1)^2 plus 3 (4N + 1) for each level.
   */
  method BarrierAmm(A0: array2<Cell>, N0: nat, h0: real, k0: real, r: real, sigma: real, logH: real, K: real,
                    growth: real -> real, M: nat)
    returns (price: real, nodes: nat)
    requires h0 != 0.0 && (forall t :: growth(t) > 0.0) && CoarseReady(A0, N0)
    ensures nodes == NodeCount(N0, M)
    ensures M == 0 ==> price == A0[N0, 0].x
    ensures M > 0 ==> price == FineValue(A0, Mesh(N0, h0, k0, sigma, Formulas.Trend(r, sigma), logH, K, growth), M, 1, 0)
  {
    var alpha := Formulas.Trend(r, sigma);
    ghost var p := Mesh(N0, h0, k0, sigma, alpha, logH, K, growth);
    var A := A0;
    var N, k, h := N0, k0, h0;
    nodes := (N + 1) * (N + 1);
    var level := M;
    while level > 0
      invariant 0 <= level <= M
      invariant N == LevelN(N0, M - level) && k == LevelK(k0, M - level) && h == LevelH(h0, M - level)
      invariant nodes == NodeCount(N0, M - level)
      invariant HoldsGrid(A, A0, p, M - level)
    {
      var newN := 4 * N;
      nodes := nodes + (newN + 1) * 3;
      var newK, newH := k / 4.0, h / 2.0;
      var lastMiddleRow := if level == M then N else 1;
      var B := RefineLevel(A, N, k, h, lastMiddleRow, sigma, alpha, logH, K, growth, A0, p, M - level + 1);
      A, N, k, h := B, newN, newK, newH;
      level := level - 1;
    }
    if M == 0 {
      price := A0[N0, 0].x;
    } else {
      price := A[1, 0].x;
    }
  }
}
