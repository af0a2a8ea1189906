/**
 * Lattice builders and backward-induction helpers: the condensed
 * (recombining) price tree, the enumeration of whole trajectories, the
 * two-successor backward induction in its dense and its history-dependent
 * layout, the hedge ratios (difference quotients) of a value grid, and
 * discounting.
 */
module TrinomialUtils {
  import opened Powers

  // ---------------------------------------------------------------------
  // Discounting
  // ---------------------------------------------------------------------

  /** (1 + i)^T for a whole number of periods T. */
  function Compound(i: real, T: nat): (g: real)
    ensures T == 0 ==> g == 1.0
    ensures T == 1 ==> g == 1.0 + i
    ensures i > -1.0 ==> g > 0.0
  {
    if T == 0 then 1.0
    else
      var rest := Compound(i, T - 1);
      ProductPositive(1.0 + i, rest);
      (1.0 + i) * rest
  }

  lemma ProductPositive(a: real, b: real)
    ensures a > 0.0 && b > 0.0 ==> a * b > 0.0
  {
  }

  /**
   * Discounting of a value by a growth factor, discount(value, i, T) being
   * value / (1 + i)^T with growth = (1 + i)^T. Compounding the result again
   * gives back the value.
   */
  function Discount(value: real, growth: real): (v: real)
    requires growth != 0.0
    ensures v * growth == value
    ensures growth > 0.0 && value >= 0.0 ==> v >= 0.0
  {
    value / growth
  }

  /** With the default single period, discounting divides by 1 + i. */
  lemma DiscountOnePeriod(value: real, i: real)
    requires i != -1.0
    ensures Discount(value, Compound(i, 1)) == value / (1.0 + i)
  {
  }

  // ---------------------------------------------------------------------
  // Condensed price tree
  // ---------------------------------------------------------------------

  /** The band of rows a column of the condensed tree uses: N - col .. N + col. */
  predicate InBand(N: nat, row: int, col: int)
  {
    0 <= col <= N && N - col <= row <= N + col
  }

  /** The price level of a row: S0 moved by h for each row above the middle row N. */
  function LevelPrice(S0: real, N: nat, h: real, row: int): real
  {
    S0 + h * (N - row) as real
  }

  /** The value the condensed price tree holds at (row, col). */
  function TreeCell(S0: real, N: nat, h: real, row: int, col: int): real
  {
    if row == N && col == 0 then S0
    else if 1 <= col && InBand(N, row, col) then LevelPrice(S0, N, h, row)
    else 0.0
  }

  /**
   * The condensed price tree: a (2N+1) x (N+1) grid of zeros with S0 at
   * (N, 0) and, in every later column, the band rows filled with their level
   * price. Cells outside the band stay zero, a level price does not depend
   * on the column (so row N holds S0 in every column), and band rows one
   * apart differ by exactly h.
   */
  method AssetPriceTree(S0: real, N: nat, h: real) returns (asset: array2<real>)
    ensures fresh(asset)
    ensures asset.Length0 == 2 * N + 1 && asset.Length1 == N + 1
    ensures forall row, col :: 0 <= row < 2 * N + 1 && 0 <= col <= N ==> asset[row, col] == TreeCell(S0, N, h, row, col)
    ensures asset[N, 0] == S0
    ensures forall row, col :: 0 <= row < 2 * N + 1 && 0 <= col <= N && !InBand(N, row, col) ==> asset[row, col] == 0.0
    ensures forall col :: 0 <= col <= N ==> asset[N, col] == S0
    ensures forall row, col, col' :: 1 <= col <= col' && InBand(N, row, col) && InBand(N, row, col') ==>
      asset[row, col] == asset[row, col']
    ensures forall row, col :: InBand(N, row, col) && InBand(N, row + 1, col) ==>
      asset[row, col] - asset[row + 1, col] == h
  {
    asset := new real[2 * N + 1, N + 1]((_, _) => 0.0);
    asset[N, 0] := S0;
    for col := 1 to N + 1
      invariant forall r, c :: 0 <= r < 2 * N + 1 && 0 <= c <= N ==>
        asset[r, c] == if c < col then TreeCell(S0, N, h, r, c) else 0.0
    {
      for row := N - col to N + col + 1
        invariant forall r, c :: 0 <= r < 2 * N + 1 && 0 <= c <= N ==>
          asset[r, c] == if c < col || (c == col && r < row) then TreeCell(S0, N, h, r, c) else 0.0
      {
        asset[row, col] := LevelPrice(S0, N, h, row);
      }
    }
  }

  // ---------------------------------------------------------------------
  // Whole trajectories
  // ---------------------------------------------------------------------

  /** The base-3 digits of i, most significant first: the i-th tuple of the lexicographic product. */
  function Digits(i: nat, N: nat): (ds: seq<nat>)
    ensures |ds| == N
    ensures forall j :: 0 <= j < N ==> ds[j] < 3
  {
    if N == 0 then [] else Digits(i / 3, N - 1) + [i % 3]
  }

  /** The number whose base-3 digits (most significant first) are ds. */
  function Encode(ds: seq<nat>): nat
  {
    if ds == [] then 0 else 3 * Encode(ds[..|ds| - 1]) + ds[|ds| - 1]
  }

  /** The increment alphabet in product order: +h, 0, -h. */
  function Step(d: nat, h: real): real
  {
    if d == 0 then h else if d == 1 then 0.0 else -h
  }

  function Steps(ds: seq<nat>, h: real): (s: seq<real>)
    ensures |s| == |ds|
    ensures forall j :: 0 <= j < |ds| ==> s[j] == Step(ds[j], h)
  {
    if ds == [] then [] else [Step(ds[0], h)] + Steps(ds[1..], h)
  }

  /** Running sums of [x] + steps: the prices visited along a trajectory. */
  function Walk(x: real, steps: seq<real>): (w: seq<real>)
    ensures |w| == |steps| + 1
    ensures w[0] == x
    decreases |steps|
  {
    if steps == [] then [x] else [x] + Walk(x + steps[0], steps[1..])
  }

  /** Consecutive prices of a walk differ by the step taken between them. */
  lemma {:induction false} WalkSteps(x: real, steps: seq<real>, j: nat)
    requires j < |steps|
    ensures Walk(x, steps)[j + 1] - Walk(x, steps)[j] == steps[j]
    decreases j
  {
    if j > 0 {
      WalkSteps(x + steps[0], steps[1..], j - 1);
    }
  }

  /** Row i of the trajectory grid: the running sums of [S0] and the i-th tuple of increments. */
  function Trajectory(S0: real, h: real, N: nat, i: nat): (t: seq<real>)
    ensures |t| == N + 1
  {
    Walk(S0, Steps(Digits(i, N), h))
  }

  /** Every trajectory starts at S0 and moves by +h, 0 or -h at each step. */
  lemma TrajectoryShape(S0: real, h: real, N: nat, i: nat)
    ensures Trajectory(S0, h, N, i)[0] == S0
    ensures forall j :: 0 <= j < N ==>
      var d := Trajectory(S0, h, N, i)[j + 1] - Trajectory(S0, h, N, i)[j]; d == h || d == 0.0 || d == -h
  {
    var ds := Digits(i, N);
    forall j | 0 <= j < N
      ensures var d := Trajectory(S0, h, N, i)[j + 1] - Trajectory(S0, h, N, i)[j]; d == h || d == 0.0 || d == -h
    {
      WalkSteps(S0, Steps(ds, h), j);
    }
  }

  /** Fills rows 0 .. rows-1 of a (rows) x (N+1) grid with the trajectories in product order. */
  method FillTrajectories(S0: real, N: nat, h: real, rows: nat) returns (asset: array2<real>)
    ensures fresh(asset)
    ensures asset.Length0 == rows && asset.Length1 == N + 1
    ensures forall i, c :: 0 <= i < rows && 0 <= c <= N ==> asset[i, c] == Trajectory(S0, h, N, i)[c]
  {
    asset := new real[rows, N + 1]((_, _) => 0.0);
    for i := 0 to rows
      invariant forall r, c :: 0 <= r < i && 0 <= c <= N ==> asset[r, c] == Trajectory(S0, h, N, r)[c]
    {
      var path := Walk(S0, Steps(Digits(i, N), h));
      for c := 0 to N + 1
        invariant forall r, c' :: 0 <= r < i && 0 <= c' <= N ==> asset[r, c'] == Trajectory(S0, h, N, r)[c']
        invariant forall c' :: 0 <= c' < c ==> asset[i, c'] == Trajectory(S0, h, N, i)[c']
      {
        asset[i, c] := path[c];
      }
    }
  }

  /**
   * The trajectory grid as the builder writes it: 2^N rows of the 3^N-tuple
   * product, so only the first 2^N trajectories in product order.
   */
  method GetAllTrajectories(S0: real, N: nat, h: real) returns (asset: array2<real>)
    ensures fresh(asset)
    ensures asset.Length0 == Pow(2, N) && asset.Length1 == N + 1
    ensures forall i, c :: 0 <= i < Pow(2, N) && 0 <= c <= N ==> asset[i, c] == Trajectory(S0, h, N, i)[c]
  {
    asset := FillTrajectories(S0, N, h, Pow(2, N));
  }

  /** The complete trajectory grid: one row for each of the 3^N tuples of the product. */
  method AllTrajectories(S0: real, N: nat, h: real) returns (asset: array2<real>)
    ensures fresh(asset)
    ensures asset.Length0 == Pow(3, N) && asset.Length1 == N + 1
    ensures forall i, c :: 0 <= i < Pow(3, N) && 0 <= c <= N ==> asset[i, c] == Trajectory(S0, h, N, i)[c]
  {
    asset := FillTrajectories(S0, N, h, Pow(3, N));
  }

  lemma {:induction false} EncodeBound(ds: seq<nat>)
    requires forall j :: 0 <= j < |ds| ==> ds[j] < 3
    ensures Encode(ds) < Pow(3, |ds|)
  {
    if ds != [] {
      EncodeBound(ds[..|ds| - 1]);
    }
  }

  /** Decoding the row index of a tuple gives the tuple back. */
  lemma {:induction false} DigitsOfEncode(ds: seq<nat>)
    requires forall j :: 0 <= j < |ds| ==> ds[j] < 3
    ensures Digits(Encode(ds), |ds|) == ds
  {
    if ds != [] {
      var init, last := ds[..|ds| - 1], ds[|ds| - 1];
      DigitsOfEncode(init);
      DivModUnique(Encode(ds), 3, Encode(init), last);
      assert ds == init + [last];
    }
  }

  /** Encoding the digits of a row index below 3^N gives the index back. */
  lemma {:induction false} EncodeOfDigits(i: nat, N: nat)
    requires i < Pow(3, N)
    ensures Encode(Digits(i, N)) == i
  {
    if N > 0 {
      var ds := Digits(i, N);
      assert ds[..N - 1] == Digits(i / 3, N - 1);
      EncodeOfDigits(i / 3, N - 1);
    }
  }

  /** Every sequence of N moves from {+h, 0, -h} is the trajectory of a row below 3^N. */
  lemma EveryPathEnumerated(S0: real, h: real, ds: seq<nat>)
    requires forall j :: 0 <= j < |ds| ==> ds[j] < 3
    ensures Encode(ds) < Pow(3, |ds|)
    ensures Trajectory(S0, h, |ds|, Encode(ds)) == Walk(S0, Steps(ds, h))
  {
    EncodeBound(ds);
    DigitsOfEncode(ds);
  }

  /** N moves down by h each. */
  function AllDown(N: nat): (ds: seq<nat>)
    ensures |ds| == N && forall j :: 0 <= j < N ==> ds[j] == 2
  {
    if N == 0 then [] else AllDown(N - 1) + [2]
  }

  lemma {:induction false} EncodeAllDown(N: nat)
    ensures Encode(AllDown(N)) == Pow(3, N) - 1
  {
    if N > 0 {
      assert AllDown(N)[..N - 1] == AllDown(N - 1);
      EncodeAllDown(N - 1);
    }
  }

  /**
   * The 2^N-row grid misses trajectories: for N >= 1 and h != 0 the path
   * that moves down at every step is not any of its rows.
   */
  lemma AllDownMissing(S0: real, h: real, N: nat, i: nat)
    requires N >= 1 && h != 0.0 && i < Pow(2, N)
    ensures Trajectory(S0, h, N, i) != Walk(S0, Steps(AllDown(N), h))
  {
    var down := Walk(S0, Steps(AllDown(N), h));
    if Trajectory(S0, h, N, i) == down {
      var ds := Digits(i, N);
      forall j | 0 <= j < N ensures ds[j] == 2 {
        WalkSteps(S0, Steps(ds, h), j);
        WalkSteps(S0, Steps(AllDown(N), h), j);
      }
      assert ds == AllDown(N);
      Pow2BelowPow3(N);
      EncodeOfDigits(i, N);
      EncodeAllDown(N);
      assert false;
    }
  }

  /** Dividing twice is dividing by the product. */
  lemma DivDiv(a: nat, b: nat, c: nat)
    requires b > 0 && c > 0
    ensures (a / b) / c == a / (b * c)
  {
    var q1, r1 := a / b, a % b;
    var q2, r2 := q1 / c, q1 % c;
    assert a == q1 * b + r1;
    assert q1 == q2 * c + r2;
    assert q1 * b == q2 * (b * c) + r2 * b by {
      assert (q2 * c + r2) * b == q2 * (c * b) + r2 * b;
    }
    MulMono(r2, c - 1, b);
    assert (c - 1) * b == b * c - b;
    DivModUnique(a, b * c, q2, r2 * b + r1);
  }

  /** The first N - m digits of i are the digits of i / 3^m. */
  lemma {:induction false} DigitsPrefix(i: nat, N: nat, m: nat)
    requires m <= N
    ensures Digits(i, N)[..N - m] == Digits(i / Pow(3, m), N - m)
    decreases m
  {
    if m > 0 {
      DigitsPrefix(i / 3, N - 1, m - 1);
      assert Digits(i, N)[..N - m] == Digits(i / 3, N - 1)[..N - m];
      DivDiv(i, 3, Pow(3, m - 1));
    }
  }

  /** Appending digit e to the digits of q gives the digits of 3q + e. */
  lemma DigitsAppend(q: nat, e: nat, j: nat)
    requires e < 3
    ensures Digits(3 * q + e, j + 1) == Digits(q, j) + [e]
  {
    DivModUnique(3 * q + e, 3, q, e);
  }

  /**
   * Rows of the trajectory grid at stride 3^(N-j): a row that is a multiple
   * of 3^(N-j) and the rows 3^(N-j-1) and 2 * 3^(N-j-1) after it are all
   * multiples of 3^(N-j-1), and the last of them is still inside the 3^N rows.
   */
  lemma PathStride(N: nat, j: nat, row: nat)
    requires j < N && row < Pow(3, N) && row % Pow(3, N - j) == 0
    ensures row % Pow(3, N - j - 1) == 0
    ensures (row + Pow(3, N - j - 1)) % Pow(3, N - j - 1) == 0
    ensures (row + 2 * Pow(3, N - j - 1)) % Pow(3, N - j - 1) == 0
    ensures row + 2 * Pow(3, N - j - 1) < Pow(3, N)
  {
    var d := Pow(3, N - j - 1);
    var e := Pow(3, N - j);
    assert e == 3 * d;
    var m := row / e;
    assert row == m * e;
    assert row == (3 * m) * d;
    MultipleMod(3 * m, d);
    assert row + d == (3 * m + 1) * d;
    MultipleMod(3 * m + 1, d);
    assert row + 2 * d == (3 * m + 2) * d;
    MultipleMod(3 * m + 2, d);
    PowDivides(3, N - j, N);
    if row + e > Pow(3, N) {
      NextMultipleAtMost(row, e, Pow(3, N));
    }
  }

  /** Dividing the row e * 3^(N-j-1) after a multiple of 3^(N-j) by 3^(N-j-1). */
  lemma NodeQuotient(N: nat, j: nat, row: nat, e: nat)
    requires j < N && row % Pow(3, N - j) == 0 && e < 3
    ensures (row + e * Pow(3, N - j - 1)) / Pow(3, N - j - 1) == 3 * (row / Pow(3, N - j)) + e
  {
    var d := Pow(3, N - j - 1);
    assert Pow(3, N - j) == 3 * d;
    var q := row / (3 * d);
    assert row == q * (3 * d);
    assert row + e * d == (3 * q + e) * d;
    DivModUnique(row + e * d, d, 3 * q + e, 0);
  }

  /** An index whose quotient by 3^(N-j-1) is 3q + e starts with the digits of q, then e. */
  lemma DigitsSplit(r: nat, N: nat, j: nat, q: nat, e: nat)
    requires j < N && e < 3 && r / Pow(3, N - j - 1) == 3 * q + e
    ensures Digits(r, N)[..j] == Digits(q, j)
    ensures Digits(r, N)[j] == e
  {
    DigitsPrefix(r, N, N - j - 1);
    DigitsAppend(q, e, j);
    assert Digits(r, N)[..j + 1] == Digits(q, j) + [e];
    assert Digits(r, N)[..j] == Digits(r, N)[..j + 1][..j];
  }

  /**
   * The rows a node of column j reads: for a row that is a multiple of
   * 3^(N-j), the row e * 3^(N-j-1) after it (e < 3) has the same first j
   * digits, and e as digit j.
   */
  lemma SuccessorDigits(N: nat, j: nat, row: nat, e: nat)
    requires j < N && row % Pow(3, N - j) == 0 && e < 3
    ensures Digits(row + e * Pow(3, N - j - 1), N)[..j] == Digits(row, N)[..j]
    ensures Digits(row + e * Pow(3, N - j - 1), N)[j] == e
  {
    var q := row / Pow(3, N - j);
    NodeQuotient(N, j, row, e);
    NodeQuotient(N, j, row, 0);
    DigitsSplit(row + e * Pow(3, N - j - 1), N, j, q, e);
    DigitsSplit(row + 0 * Pow(3, N - j - 1), N, j, q, 0);
    assert row + 0 * Pow(3, N - j - 1) == row;
  }

  /** A walk's first c + 1 prices depend only on its first c steps. */
  lemma {:induction false} WalkPrefix(x: real, s1: seq<real>, s2: seq<real>, c: nat)
    requires |s1| == |s2| && c <= |s1| && s1[..c] == s2[..c]
    ensures Walk(x, s1)[c] == Walk(x, s2)[c]
    decreases c
  {
    if c > 0 {
      assert s1[0] == s1[..c][0] == s2[..c][0] == s2[0];
      assert s1[1..][..c - 1] == s1[..c][1..] == s2[..c][1..] == s2[1..][..c - 1];
      WalkPrefix(x + s1[0], s1[1..], s2[1..], c - 1);
    }
  }

  /**
   * The three trajectories a node of the full grid leads to: from a row of
   * column j that is a multiple of 3^(N-j), the rows e * 3^(N-j-1) after
   * it (e = 0, 1, 2) follow the same path up to column j and then move by
   * +h, 0 and -h respectively.
   */
  lemma SuccessorPaths(S0: real, h: real, N: nat, j: nat, row: nat, e: nat)
    requires j < N && row < Pow(3, N) && row % Pow(3, N - j) == 0 && e < 3
    ensures row + e * Pow(3, N - j - 1) < Pow(3, N)
    ensures forall c :: 0 <= c <= j ==>
      Trajectory(S0, h, N, row + e * Pow(3, N - j - 1))[c] == Trajectory(S0, h, N, row)[c]
    ensures Trajectory(S0, h, N, row + e * Pow(3, N - j - 1))[j + 1] == Trajectory(S0, h, N, row)[j] + Step(e, h)
  {
    var d := Pow(3, N - j - 1);
    PathStride(N, j, row);
    var ds0, ds1 := Digits(row, N), Digits(row + e * d, N);
    SuccessorDigits(N, j, row, e);
    var st0, st1 := Steps(ds0, h), Steps(ds1, h);
    forall c | 0 <= c <= j
      ensures Trajectory(S0, h, N, row + e * d)[c] == Trajectory(S0, h, N, row)[c]
    {
      assert st1[..c] == st0[..c] by {
        forall k | 0 <= k < c ensures st1[k] == st0[k] {
          assert ds1[k] == ds1[..j][k] == ds0[..j][k] == ds0[k];
        }
      }
      WalkPrefix(S0, st1, st0, c);
    }
    WalkSteps(S0, st1, j);
  }

  // ---------------------------------------------------------------------
  // Two-successor backward induction
  // ---------------------------------------------------------------------

  lemma ProductNonNegative(a: real, b: real)
    ensures a >= 0.0 && b >= 0.0 ==> a * b >= 0.0
  {
  }

  /** One backward step: the discounted expectation over the two successors. */
  function Expectation(p: real, q: real, I: real, up: real, down: real): (v: real)
    requires I != -1.0
    ensures v * (1.0 + I) == p * up + q * down
    ensures p >= 0.0 && q >= 0.0 && I > -1.0 && up >= 0.0 && down >= 0.0 ==> v >= 0.0
  {
    ProductNonNegative(p, up);
    ProductNonNegative(q, down);
    Discount(p * up + q * down, Compound(I, 1))
  }

  /**
   * Dense layout: node (i, j) with i <= j < n has successors (i, j+1) and
   * (i+1, j+1); column n holds the payoff.
   */
  function DenseValue(p: real, q: real, I: real, payoff: seq<real>, n: nat, i: nat, j: nat): real
    requires I != -1.0 && |payoff| == n + 1
    requires j <= n && i <= n && (j == n || i <= j)
    decreases n - j
  {
    if j == n then payoff[i]
    else Expectation(p, q, I, DenseValue(p, q, I, payoff, n, i, j + 1), DenseValue(p, q, I, payoff, n, i + 1, j + 1))
  }

  /** The content of a cell of the dense value grid: zero below the diagonal of the non-terminal columns. */
  function DenseCell(p: real, q: real, I: real, payoff: seq<real>, n: nat, i: nat, j: nat): real
    requires I != -1.0 && |payoff| == n + 1 && i <= n && j <= n
  {
    if j == n || i <= j then DenseValue(p, q, I, payoff, n, i, j) else 0.0
  }

  /** With non-negative weights, a rate above -1 and a non-negative payoff, every dense value is non-negative. */
  lemma {:induction false} DenseNonNegative(p: real, q: real, I: real, payoff: seq<real>, n: nat, i: nat, j: nat)
    requires I > -1.0 && |payoff| == n + 1
    requires j <= n && i <= n && (j == n || i <= j)
    requires p >= 0.0 && q >= 0.0 && forall k :: 0 <= k <= n ==> payoff[k] >= 0.0
    ensures DenseValue(p, q, I, payoff, n, i, j) >= 0.0
    decreases n - j
  {
    if j < n {
      DenseNonNegative(p, q, I, payoff, n, i, j + 1);
      DenseNonNegative(p, q, I, payoff, n, i + 1, j + 1);
    }
  }

  /**
   * The dense recurrence at node (i, j) of a grid: both successors are
   * inside the grid and the node's value, compounded by 1 + I, is the
   * weighted sum of its two successors.
   */
  predicate DenseStep(V: array2<real>, p: real, q: real, I: real, i: nat, j: nat)
    reads V
  {
    i + 1 < V.Length0 && j + 1 < V.Length1 &&
    V[i, j] * (1.0 + I) == p * V[i, j + 1] + q * V[i + 1, j + 1]
  }

  /** The dense grid V holds the specification in every cell. */
  predicate DenseGrid(V: array2<real>, p: real, q: real, I: real, payoff: seq<real>, n: nat)
    requires I != -1.0 && |payoff| == n + 1
    reads V
  {
    V.Length0 == n + 1 && V.Length1 == n + 1 &&
    forall i, j :: 0 <= i <= n && 0 <= j <= n ==> V[i, j] == DenseCell(p, q, I, payoff, n, i, j)
  }

  /**
   * A grid holding the dense specification has the payoff in its last
   * column, satisfies the one-step recurrence on and above the diagonal, is
   * 0 below it, and is non-negative for non-negative inputs.
   */
  lemma DenseGridFacts(V: array2<real>, p: real, q: real, I: real, payoff: seq<real>, n: nat)
    requires I != -1.0 && |payoff| == n + 1 && DenseGrid(V, p, q, I, payoff, n)
    ensures forall i :: 0 <= i <= n ==> V[i, n] == payoff[i]
    ensures forall i, j :: 0 <= i <= j < n ==> DenseStep(V, p, q, I, i, j)
    ensures forall i, j :: 0 <= j < i <= n && j < n ==> V[i, j] == 0.0
    ensures p >= 0.0 && q >= 0.0 && I > -1.0 && (forall k :: 0 <= k <= n ==> payoff[k] >= 0.0) ==>
      forall i, j :: 0 <= i <= n && 0 <= j <= n ==> V[i, j] >= 0.0
  {
    forall i, j | 0 <= i <= j < n
      ensures DenseStep(V, p, q, I, i, j)
    {
      assert V[i, j] == Expectation(p, q, I, V[i, j + 1], V[i + 1, j + 1]);
    }
    if p >= 0.0 && q >= 0.0 && I > -1.0 && (forall k :: 0 <= k <= n ==> payoff[k] >= 0.0) {
      forall i, c | 0 <= i <= n && 0 <= c <= n && (c == n || i <= c) {
        DenseNonNegative(p, q, I, payoff, n, i, c);
      }
    }
  }

  /** Writes column j of the dense grid from column j+1 and leaves every other cell as it was. */
  method DenseColumn(V: array2<real>, p: real, q: real, I: real, payoff: seq<real>, n: nat, j: nat)
    requires I != -1.0 && |payoff| == n + 1 && j < n
    requires V.Length0 == n + 1 && V.Length1 == n + 1
    requires forall i, c :: 0 <= i <= n && 0 <= c <= n ==> V[i, c] == if c > j then DenseCell(p, q, I, payoff, n, i, c) else 0.0
    modifies V
    ensures forall i, c :: 0 <= i <= n && 0 <= c <= n ==> V[i, c] == if c >= j then DenseCell(p, q, I, payoff, n, i, c) else 0.0
  {
    for h := 0 to j + 1
      invariant forall i, c :: 0 <= i <= n && 0 <= c <= n ==>
        V[i, c] == if c > j || (c == j && i < h) then DenseCell(p, q, I, payoff, n, i, c) else 0.0
    {
      V[h, j] := Expectation(p, q, I, V[h, j + 1], V[h + 1, j + 1]);
    }
  }

  /**
   * Dense backward induction on an (n+1) x (n+1) grid: the last column is
   * the payoff, every node on or above the diagonal satisfies the one-step
   * recurrence compounded by 1 + I, and the cells below the diagonal stay 0.
   */
  method OptionPricesDense(p: real, q: real, I: real, payoff: seq<real>, n: nat) returns (V: array2<real>)
    requires I != -1.0 && |payoff| == n + 1
    ensures fresh(V)
    ensures V.Length0 == n + 1 && V.Length1 == n + 1
    ensures DenseGrid(V, p, q, I, payoff, n)
    ensures forall i :: 0 <= i <= n ==> V[i, n] == payoff[i]
    ensures forall i, j :: 0 <= i <= j < n ==> DenseStep(V, p, q, I, i, j)
    ensures forall i, j :: 0 <= j < i <= n && j < n ==> V[i, j] == 0.0
    ensures p >= 0.0 && q >= 0.0 && I > -1.0 && (forall k :: 0 <= k <= n ==> payoff[k] >= 0.0) ==>
      forall i, j :: 0 <= i <= n && 0 <= j <= n ==> V[i, j] >= 0.0
  {
    V := new real[n + 1, n + 1]((_, _) => 0.0);
    for r := 0 to n + 1
      invariant forall i, j :: 0 <= i <= n && 0 <= j <= n ==> V[i, j] == if j == n && i < r then payoff[i] else 0.0
    {
      V[r, n] := payoff[r];
    }
    var j := n;
    while j > 0
      invariant 0 <= j <= n
      invariant forall i, c :: 0 <= i <= n && 0 <= c <= n ==> V[i, c] == if c >= j then DenseCell(p, q, I, payoff, n, i, c) else 0.0
    {
      j := j - 1;
      DenseColumn(V, p, q, I, payoff, n, j);
    }
    DenseGridFacts(V, p, q, I, payoff, n);
  }

  /**
   * Strides of the history-dependent layout: a row h written at column j
   * (a multiple of 2^(n-j)) and its second successor h + 2^(n-j-1) are both
   * rows of column j+1 (multiples of 2^(n-j-1)), and that successor is
   * still inside the 2^n rows.
   */
  lemma StrideStep(n: nat, j: nat, h: nat)
    requires j < n && h < Pow(2, n) && h % Pow(2, n - j) == 0
    ensures h % Pow(2, n - j - 1) == 0
    ensures (h + Pow(2, n - j - 1)) % Pow(2, n - j - 1) == 0
    ensures h + Pow(2, n - j - 1) < Pow(2, n)
  {
    var d := Pow(2, n - j - 1);
    var e := Pow(2, n - j);
    assert e == 2 * d;
    var m := h / e;
    assert h == m * e;
    assert h == (2 * m) * d;
    MultipleMod(2 * m, d);
    assert h + d == (2 * m + 1) * d;
    MultipleMod(2 * m + 1, d);
    PowDivides(2, n - j, n);
    if h + e > Pow(2, n) {
      NextMultipleAtMost(h, e, Pow(2, n));
    }
  }

  /**
   * History-dependent layout: at column j the nodes are the rows that are
   * multiples of 2^(n-j); node h has successors h and h + 2^(n-j-1) in
   * column j+1; column n holds the payoff in all 2^n rows.
   */
  function HistValue(p: real, q: real, I: real, payoff: seq<real>, n: nat, h: nat, j: nat): real
    requires I != -1.0 && |payoff| == Pow(2, n)
    requires j <= n && h < Pow(2, n) && h % Pow(2, n - j) == 0
    decreases n - j
  {
    if j == n then payoff[h]
    else
      StrideStep(n, j, h);
      Expectation(p, q, I, HistValue(p, q, I, payoff, n, h, j + 1),
                           HistValue(p, q, I, payoff, n, h + Pow(2, n - j - 1), j + 1))
  }

  /** The content of a cell of the history-dependent grid: zero on rows that are not nodes of their column. */
  function HistCell(p: real, q: real, I: real, payoff: seq<real>, n: nat, h: nat, j: nat): real
    requires I != -1.0 && |payoff| == Pow(2, n) && h < Pow(2, n) && j <= n
  {
    if h % Pow(2, n - j) == 0 then HistValue(p, q, I, payoff, n, h, j) else 0.0
  }

  lemma {:induction false} HistNonNegative(p: real, q: real, I: real, payoff: seq<real>, n: nat, h: nat, j: nat)
    requires I > -1.0 && |payoff| == Pow(2, n)
    requires j <= n && h < Pow(2, n) && h % Pow(2, n - j) == 0
    requires p >= 0.0 && q >= 0.0 && forall k :: 0 <= k < Pow(2, n) ==> payoff[k] >= 0.0
    ensures HistValue(p, q, I, payoff, n, h, j) >= 0.0
    decreases n - j
  {
    if j < n {
      StrideStep(n, j, h);
      HistNonNegative(p, q, I, payoff, n, h, j + 1);
      HistNonNegative(p, q, I, payoff, n, h + Pow(2, n - j - 1), j + 1);
    }
  }

  /**
   * The history-dependent recurrence at node (h, j) of a grid: the second
   * successor row is inside the grid and the node's value, compounded by
   * 1 + I, is the weighted sum of its two successors.
   */
  predicate HistStep(V: array2<real>, p: real, q: real, I: real, n: nat, h: nat, j: nat)
    requires j < n
    reads V
  {
    h + Pow(2, n - j - 1) < V.Length0 && j + 1 < V.Length1 &&
    V[h, j] * (1.0 + I) == p * V[h, j + 1] + q * V[h + Pow(2, n - j - 1), j + 1]
  }

  /** A node of column j holds the expectation of the cells of its two successors. */
  lemma HistCellStep(p: real, q: real, I: real, payoff: seq<real>, n: nat, j: nat, h: nat)
    requires I != -1.0 && |payoff| == Pow(2, n) && j < n && h < Pow(2, n) && h % Pow(2, n - j) == 0
    ensures h + Pow(2, n - j - 1) < Pow(2, n)
    ensures HistCell(p, q, I, payoff, n, h, j)
      == Expectation(p, q, I, HistCell(p, q, I, payoff, n, h, j + 1), HistCell(p, q, I, payoff, n, h + Pow(2, n - j - 1), j + 1))
  {
    StrideStep(n, j, h);
  }

  /** The next multiple of d after a multiple of d. */
  lemma NextMultiple(h: nat, d: nat)
    requires d > 0 && h % d == 0
    ensures (h + d) % d == 0
  {
    assert h + d == (h / d + 1) * d;
    MultipleMod(h / d + 1, d);
  }

  /** No multiple of d lies strictly between two consecutive multiples. */
  lemma BetweenMultiples(h: nat, d: nat, r: nat)
    requires d > 0 && h % d == 0 && h < r < h + d
    ensures r % d != 0
  {
    DivModUnique(r, d, h / d, r - h);
  }

  /** Writes the nodes of column j from column j+1, which already holds its final values. */
  method HistColumn(V: array2<real>, p: real, q: real, I: real, payoff: seq<real>, n: nat, j: nat)
    requires I != -1.0 && |payoff| == Pow(2, n) && j < n
    requires V.Length0 == Pow(2, n) && V.Length1 == n + 1
    requires forall h, c :: 0 <= h < Pow(2, n) && 0 <= c <= n ==> V[h, c] == if c > j then HistCell(p, q, I, payoff, n, h, c) else 0.0
    modifies V
    ensures forall h, c :: 0 <= h < Pow(2, n) && 0 <= c <= n ==> V[h, c] == if c >= j then HistCell(p, q, I, payoff, n, h, c) else 0.0
  {
    var rows := Pow(2, n);
    var stride := Pow(2, n - j);
    var h := 0;
    while h < rows
      invariant h % stride == 0
      invariant forall r, c :: 0 <= r < rows && 0 <= c <= n && c != j ==> V[r, c] == old(V[r, c])
      invariant forall r :: h <= r < rows ==> V[r, j] == 0.0
      invariant forall r :: 0 <= r < h && r < rows ==> V[r, j] == HistCell(p, q, I, payoff, n, r, j)
      decreases rows - h
    {
      HistCellStep(p, q, I, payoff, n, j, h);
      V[h, j] := Expectation(p, q, I, V[h, j + 1], V[h + Pow(2, n - j - 1), j + 1]);
      NextMultiple(h, stride);
      forall r | h < r < h + stride && r < rows
        ensures HistCell(p, q, I, payoff, n, r, j) == 0.0
      {
        BetweenMultiples(h, stride, r);
      }
      h := h + stride;
    }
  }

  /** The path-indexed grid V holds the specification in every cell. */
  predicate HistGrid(V: array2<real>, p: real, q: real, I: real, payoff: seq<real>, n: nat)
    requires I != -1.0 && |payoff| == Pow(2, n)
    reads V
  {
    V.Length0 == Pow(2, n) && V.Length1 == n + 1 &&
    forall h, c :: 0 <= h < Pow(2, n) && 0 <= c <= n ==> V[h, c] == HistCell(p, q, I, payoff, n, h, c)
  }

  /**
   * A grid holding the path-indexed specification has the payoff as its last
   * column, satisfies the recurrence at every node, is 0 off the nodes, and
   * is non-negative for non-negative inputs.
   */
  lemma HistGridFacts(V: array2<real>, p: real, q: real, I: real, payoff: seq<real>, n: nat)
    requires I != -1.0 && |payoff| == Pow(2, n) && HistGrid(V, p, q, I, payoff, n)
    ensures forall h :: 0 <= h < Pow(2, n) ==> V[h, n] == payoff[h]
    ensures forall h, j :: 0 <= h < Pow(2, n) && 0 <= j < n && h % Pow(2, n - j) != 0 ==> V[h, j] == 0.0
    ensures forall h, j :: 0 <= h < Pow(2, n) && 0 <= j < n && h % Pow(2, n - j) == 0 ==> HistStep(V, p, q, I, n, h, j)
    ensures p >= 0.0 && q >= 0.0 && I > -1.0 && (forall k :: 0 <= k < Pow(2, n) ==> payoff[k] >= 0.0) ==>
      forall h, j :: 0 <= h < Pow(2, n) && 0 <= j <= n ==> V[h, j] >= 0.0
  {
    forall h, c | 0 <= h < Pow(2, n) && 0 <= c < n && h % Pow(2, n - c) == 0
      ensures HistStep(V, p, q, I, n, h, c)
    {
      StrideStep(n, c, h);
    }
    if p >= 0.0 && q >= 0.0 && I > -1.0 && (forall k :: 0 <= k < Pow(2, n) ==> payoff[k] >= 0.0) {
      forall h, c | 0 <= h < Pow(2, n) && 0 <= c <= n && h % Pow(2, n - c) == 0 {
        HistNonNegative(p, q, I, payoff, n, h, c);
      }
    }
  }

  /**
   * History-dependent backward induction on a 2^n x (n+1) grid: the last
   * column is the payoff; at column j < n exactly the rows that are
   * multiples of 2^(n-j) are written, each from its two successors, every
   * successor row being inside the grid; all other cells stay 0.
   */
  method OptionPricesHist(p: real, q: real, I: real, payoff: seq<real>, n: nat) returns (V: array2<real>)
    requires I != -1.0 && |payoff| == Pow(2, n)
    ensures fresh(V)
    ensures V.Length0 == Pow(2, n) && V.Length1 == n + 1
    ensures HistGrid(V, p, q, I, payoff, n)
    ensures forall h :: 0 <= h < Pow(2, n) ==> V[h, n] == payoff[h]
    ensures forall h, j :: 0 <= h < Pow(2, n) && 0 <= j < n && h % Pow(2, n - j) != 0 ==> V[h, j] == 0.0
    ensures forall h, j :: 0 <= h < Pow(2, n) && 0 <= j < n && h % Pow(2, n - j) == 0 ==> HistStep(V, p, q, I, n, h, j)
    ensures p >= 0.0 && q >= 0.0 && I > -1.0 && (forall k :: 0 <= k < Pow(2, n) ==> payoff[k] >= 0.0) ==>
      forall h, j :: 0 <= h < Pow(2, n) && 0 <= j <= n ==> V[h, j] >= 0.0
  {
    var rows := Pow(2, n);
    V := new real[rows, n + 1]((_, _) => 0.0);
    for r := 0 to rows
      invariant forall h, c :: 0 <= h < rows && 0 <= c <= n ==> V[h, c] == if c == n && h < r then payoff[h] else 0.0
    {
      V[r, n] := payoff[r];
    }
    var j := n;
    while j > 0
      invariant 0 <= j <= n
      invariant forall h, c :: 0 <= h < rows && 0 <= c <= n ==> V[h, c] == if c >= j then HistCell(p, q, I, payoff, n, h, c) else 0.0
    {
      j := j - 1;
      HistColumn(V, p, q, I, payoff, n, j);
    }
    HistGridFacts(V, p, q, I, payoff, n);
  }

  // ---------------------------------------------------------------------
  // Hedge ratios
  // ---------------------------------------------------------------------

  /**
   * The difference quotient of the values over the prices at the two
   * successors: holding d units of the asset against the option leaves the
   * same amount in both successor states.
   */
  function DeltaRatio(vUp: real, vDown: real, sUp: real, sDown: real): (d: real)
    requires sUp != sDown
    ensures vUp - d * sUp == vDown - d * sDown
  {
    (vUp - vDown) / (sUp - sDown)
  }

  /** The hedge ratio is the only holding that makes the position riskless over the step. */
  lemma DeltaRatioUnique(vUp: real, vDown: real, sUp: real, sDown: real, d: real)
    requires sUp != sDown && vUp - d * sUp == vDown - d * sDown
    ensures d == DeltaRatio(vUp, vDown, sUp, sDown)
  {
    var e := DeltaRatio(vUp, vDown, sUp, sDown);
    assert (d - e) * (sUp - sDown) == 0.0;
  }

  /** The two S values a dense hedge ratio at (j, h) divides by differ, whenever both exist. */
  predicate DenseDistinct(S: array2<real>, j: nat, h: nat)
    reads S
  {
    j + 1 < S.Length0 && h + 1 < S.Length1 ==> S[j, h + 1] != S[j + 1, h + 1]
  }

  /** The dense hedge ratio at (j, h), from rows j and j+1 of column h+1. */
  function DenseRatio(S: array2<real>, V: array2<real>, j: nat, h: nat): (d: real)
    reads S, V
    ensures j + 1 < S.Length0 && j + 1 < V.Length0 && h + 1 < S.Length1 && h + 1 < V.Length1 && DenseDistinct(S, j, h) ==>
      V[j, h + 1] - d * S[j, h + 1] == V[j + 1, h + 1] - d * S[j + 1, h + 1]
  {
    if j + 1 < S.Length0 && j + 1 < V.Length0 && h + 1 < S.Length1 && h + 1 < V.Length1 && S[j, h + 1] != S[j + 1, h + 1]
    then DeltaRatio(V[j, h + 1], V[j + 1, h + 1], S[j, h + 1], S[j + 1, h + 1])
    else 0.0
  }

  /**
   * Dense hedge ratios on an n x n grid: for j <= h < n the entry is the
   * riskless holding between rows j and j+1 of column h+1 of V and S; the
   * entries below the diagonal stay 0.
   */
  method DeltaCoverageDense(S: array2<real>, V: array2<real>, n: nat) returns (Delta: array2<real>)
    requires S.Length0 > n && S.Length1 > n && V.Length0 > n && V.Length1 > n
    requires forall j, h :: 0 <= j <= h < n ==> DenseDistinct(S, j, h)
    ensures fresh(Delta)
    ensures Delta.Length0 == n && Delta.Length1 == n
    ensures forall j, h :: 0 <= j <= h < n ==>
      V[j, h + 1] - Delta[j, h] * S[j, h + 1] == V[j + 1, h + 1] - Delta[j, h] * S[j + 1, h + 1]
    ensures forall j, h :: 0 <= h < j < n ==> Delta[j, h] == 0.0
  {
    Delta := new real[n, n]((_, _) => 0.0);
    for h := 0 to n
      invariant forall r, c :: 0 <= r < n && 0 <= c < n ==>
        Delta[r, c] == if c < h && r <= c then DenseRatio(S, V, r, c) else 0.0
    {
      for j := 0 to h + 1
        invariant forall r, c :: 0 <= r < n && 0 <= c < n ==>
          Delta[r, c] == if (c < h && r <= c) || (c == h && r < j) then DenseRatio(S, V, r, c) else 0.0
      {
        Delta[j, h] := DenseRatio(S, V, j, h);
      }
    }
    forall j, h | 0 <= j <= h < n
      ensures V[j, h + 1] - Delta[j, h] * S[j, h + 1] == V[j + 1, h + 1] - Delta[j, h] * S[j + 1, h + 1]
    {
      assert Delta[j, h] == DenseRatio(S, V, j, h);
    }
  }

  /**
   * Rows of the history-dependent hedge grid: a row j of column h (a
   * multiple of 2^(n-h-1) below 2^(n-1)) reads V and S at rows 2j and
   * 2j + 2^(n-h-1) of column h+1, both inside the 2^n rows.
   */
  lemma HedgeRowsInside(n: nat, h: nat, j: nat)
    requires h < n && j < Pow(2, n - 1) && j % Pow(2, n - h - 1) == 0
    ensures 2 * j + Pow(2, n - h - 1) < Pow(2, n)
  {
    var d := Pow(2, n - h - 1);
    PowDivides(2, n - h - 1, n - 1);
    if j + d > Pow(2, n - 1) {
      NextMultipleAtMost(j, d, Pow(2, n - 1));
    }
    assert Pow(2, n) == 2 * Pow(2, n - 1);
  }

  /** The S values a history-dependent hedge ratio divides by differ, whenever both rows exist. */
  predicate HedgeDistinct(S: array2<real>, n: nat, h: nat, j: nat)
    requires h < n
    reads S
  {
    var lo := 2 * j + Pow(2, n - h - 1);
    lo < S.Length0 && h + 1 < S.Length1 ==> S[2 * j, h + 1] != S[lo, h + 1]
  }

  /** The history-dependent hedge ratio at row j of column h, from rows 2j and 2j + 2^(n-h-1) of column h+1. */
  function HedgeRatio(S: array2<real>, V: array2<real>, n: nat, h: nat, j: nat): (d: real)
    requires h < n
    reads S, V
    ensures var lo := 2 * j + Pow(2, n - h - 1);
      lo < S.Length0 && lo < V.Length0 && h + 1 < S.Length1 && h + 1 < V.Length1 && HedgeDistinct(S, n, h, j) ==>
      V[2 * j, h + 1] - d * S[2 * j, h + 1] == V[lo, h + 1] - d * S[lo, h + 1]
  {
    var lo := 2 * j + Pow(2, n - h - 1);
    if lo < S.Length0 && lo < V.Length0 && h + 1 < S.Length1 && h + 1 < V.Length1 && S[2 * j, h + 1] != S[lo, h + 1]
    then DeltaRatio(V[2 * j, h + 1], V[lo, h + 1], S[2 * j, h + 1], S[lo, h + 1])
    else 0.0
  }

  /** At a node of the history-dependent hedge grid the ratio makes the position riskless. */
  lemma HedgeRatioRiskless(S: array2<real>, V: array2<real>, n: nat, h: nat, j: nat, d: real)
    requires h < n && j < Pow(2, n - 1) && j % Pow(2, n - h - 1) == 0
    requires S.Length0 >= Pow(2, n) && S.Length1 > n && V.Length0 >= Pow(2, n) && V.Length1 > n
    requires HedgeDistinct(S, n, h, j) && d == HedgeRatio(S, V, n, h, j)
    ensures 2 * j + Pow(2, n - h - 1) < Pow(2, n)
    ensures V[2 * j, h + 1] - d * S[2 * j, h + 1] == V[2 * j + Pow(2, n - h - 1), h + 1] - d * S[2 * j + Pow(2, n - h - 1), h + 1]
  {
    HedgeRowsInside(n, h, j);
  }

  /** Writes the hedge ratios of column h of the history-dependent grid. */
  method HedgeColumn(S: array2<real>, V: array2<real>, Delta: array2<real>, n: nat, h: nat)
    requires h < n
    requires Delta.Length0 == Pow(2, n - 1) && Delta.Length1 == n
    requires forall j :: 0 <= j < Pow(2, n - 1) ==> Delta[j, h] == 0.0
    modifies Delta
    ensures forall j, c :: 0 <= j < Pow(2, n - 1) && 0 <= c < n ==>
      Delta[j, c] == if c != h then old(Delta[j, c]) else if j % Pow(2, n - h - 1) == 0 then HedgeRatio(S, V, n, h, j) else 0.0
  {
    var rows := Pow(2, n - 1);
    var stride := Pow(2, n - h - 1);
    var j := 0;
    while j < rows
      invariant j % stride == 0
      invariant forall r, c :: 0 <= r < rows && 0 <= c < n ==>
        Delta[r, c] == if c != h then old(Delta[r, c]) else if r < j && r % stride == 0 then HedgeRatio(S, V, n, h, r) else 0.0
      decreases rows - j
    {
      Delta[j, h] := HedgeRatio(S, V, n, h, j);
      NextMultiple(j, stride);
      forall r | j < r < j + stride && r < rows
        ensures r % stride != 0
      {
        BetweenMultiples(j, stride, r);
      }
      j := j + stride;
    }
  }

  /** Column c of the hedge grid holds its ratio at node rows and 0 elsewhere, for every column before upto. */
  predicate HedgeColumnsDone(S: array2<real>, V: array2<real>, Delta: array2<real>, n: nat, upto: nat)
    reads S, V, Delta
  {
    n >= 1 && Delta.Length0 == Pow(2, n - 1) && Delta.Length1 == n &&
    forall j, c :: 0 <= j < Pow(2, n - 1) && 0 <= c < n ==>
      Delta[j, c] == if c < upto && j % Pow(2, n - c - 1) == 0 then HedgeRatio(S, V, n, c, j) else 0.0
  }

  /**
   * The holding Delta[j, h] makes the position riskless between rows 2j and
   * 2j + 2^(n-h-1) of column h+1, and both rows lie inside the 2^n rows.
   */
  predicate Riskless(S: array2<real>, V: array2<real>, Delta: array2<real>, n: nat, h: nat, j: nat)
    requires h < n
    reads S, V, Delta
  {
    var lo := 2 * j + Pow(2, n - h - 1);
    lo < Pow(2, n) && lo < S.Length0 && lo < V.Length0 && h + 1 < S.Length1 && h + 1 < V.Length1 &&
    j < Delta.Length0 && h < Delta.Length1 &&
    V[2 * j, h + 1] - Delta[j, h] * S[2 * j, h + 1] == V[lo, h + 1] - Delta[j, h] * S[lo, h + 1]
  }

  /** A completed hedge grid makes the position riskless at every node and is 0 elsewhere. */
  lemma HedgeGridRiskless(S: array2<real>, V: array2<real>, Delta: array2<real>, n: nat)
    requires n >= 1
    requires S.Length0 >= Pow(2, n) && S.Length1 > n && V.Length0 >= Pow(2, n) && V.Length1 > n
    requires forall h, j :: 0 <= h < n && 0 <= j < Pow(2, n - 1) && j % Pow(2, n - h - 1) == 0 ==> HedgeDistinct(S, n, h, j)
    requires HedgeColumnsDone(S, V, Delta, n, n)
    ensures forall h, j :: 0 <= h < n && 0 <= j < Pow(2, n - 1) && j % Pow(2, n - h - 1) == 0 ==> Riskless(S, V, Delta, n, h, j)
    ensures forall h, j :: 0 <= h < n && 0 <= j < Pow(2, n - 1) && j % Pow(2, n - h - 1) != 0 ==> Delta[j, h] == 0.0
  {
    forall h, j | 0 <= h < n && 0 <= j < Pow(2, n - 1) && j % Pow(2, n - h - 1) == 0
      ensures Riskless(S, V, Delta, n, h, j)
    {
      HedgeRatioRiskless(S, V, n, h, j, Delta[j, h]);
    }
  }

  /**
   * History-dependent hedge ratios on a 2^(n-1) x n grid (n >= 1): at
   * column h the rows j that are multiples of 2^(n-h-1) hold the riskless
   * holding between rows 2j and 2j + 2^(n-h-1) of column h+1, which lie
   * inside V and S; every other entry stays 0.
   */
  method DeltaCoverageHist(S: array2<real>, V: array2<real>, n: nat) returns (Delta: array2<real>)
    requires n >= 1
    requires S.Length0 >= Pow(2, n) && S.Length1 > n && V.Length0 >= Pow(2, n) && V.Length1 > n
    requires forall h, j :: 0 <= h < n && 0 <= j < Pow(2, n - 1) && j % Pow(2, n - h - 1) == 0 ==> HedgeDistinct(S, n, h, j)
    ensures fresh(Delta)
    ensures Delta.Length0 == Pow(2, n - 1) && Delta.Length1 == n
    ensures forall h, j :: 0 <= h < n && 0 <= j < Pow(2, n - 1) && j % Pow(2, n - h - 1) == 0 ==> Riskless(S, V, Delta, n, h, j)
    ensures forall h, j :: 0 <= h < n && 0 <= j < Pow(2, n - 1) && j % Pow(2, n - h - 1) != 0 ==> Delta[j, h] == 0.0
  {
    Delta := new real[Pow(2, n - 1), n]((_, _) => 0.0);
    for h := 0 to n
      invariant HedgeColumnsDone(S, V, Delta, n, h)
    {
      HedgeColumn(S, V, Delta, n, h);
    }
    HedgeGridRiskless(S, V, Delta, n);
  }
}
