/**
 * The two trinomial pricers of a barrier option. The condensed model rolls
 * a down-and-out call back through the recombining log-price tree, zeroing
 * every node at or below the barrier. The full model prices a copy of the
 * option whose barrier and strike are replaced by their logarithms and
 * builds one payoff per enumerated log-price trajectory.
 *
 * The exponential and the logarithm are parameters; the one-step discount
 * factor e^{-rk} is a given real.
 */
module TrinomialModel {
  import opened Wrappers
  import Formulas
  import opened Powers
  import opened TrinomialUtils
  import opened BarrierOptions

  // ---------------------------------------------------------------------
  // Condensed model
  // ---------------------------------------------------------------------

  /** A cell of a grid that starts out as NaN: unset, or holding a value. */
  datatype Cell = Unset | Value(x: real)

  /**
   * The data the condensed recursion depends on: barrier H and strike K,
   * the log-price tree (log S0, N steps of size h), the three transition
   * probabilities, the one-step discount factor and the exponential.
   */
  datatype Lattice = Lattice(
    H: real, K: real, logS0: real, N: nat, h: real,
    pu: real, pm: real, pd: real, disc: real, exp: real -> real)

  /** The lattice the condensed model sets up, with Hull-style probabilities for drift r - sigma^2/2. */
  function LatticeOf(H: real, K: real, logS0: real, N: nat, h: real, k: real, sigma: real, r: real,
                     disc: real, exp: real -> real): (t: Lattice)
    requires h != 0.0
    ensures t.pu + t.pm + t.pd == 1.0
    ensures t.pu - t.pd == Formulas.Trend(r, sigma) * (k / h)
  {
    var alpha := Formulas.Trend(r, sigma);
    Formulas.UpMinusDown(h, k, sigma, alpha);
    Lattice(H, K, logS0, N, h,
            Formulas.PUp(h, k, sigma, alpha), Formulas.PMid(h, k, sigma, alpha), Formulas.PDown(h, k, sigma, alpha),
            disc, exp)
  }

  /** The price at a node of the condensed tree: the exponential of its log price. */
  function NodePrice(t: Lattice, row: int, col: int): real
  {
    t.exp(TreeCell(t.logS0, t.N, t.h, row, col))
  }

  /** The discounted probability-weighted value of an up, a middle and a down successor. */
  function Weighted(pu: real, pm: real, pd: real, disc: real, up: real, mid: real, down: real): real
  {
    (pu * up + pm * mid + pd * down) * disc
  }

  /** The condensed lattice's one-step roll-back. */
  function Rollback(t: Lattice, up: real, mid: real, down: real): real
  {
    Weighted(t.pu, t.pm, t.pd, t.disc, up, mid, down)
  }

  lemma WeightedNonNegative(pu: real, pm: real, pd: real, disc: real, up: real, mid: real, down: real)
    requires pu >= 0.0 && pm >= 0.0 && pd >= 0.0 && disc > 0.0
    requires up >= 0.0 && mid >= 0.0 && down >= 0.0
    ensures Weighted(pu, pm, pd, disc, up, mid, down) >= 0.0
  {
    ProductNonNegative(pu, up);
    ProductNonNegative(pm, mid);
    ProductNonNegative(pd, down);
    ProductNonNegative(pu * up + pm * mid + pd * down, disc);
  }

  lemma RollbackNonNegative(t: Lattice, up: real, mid: real, down: real)
    requires t.pu >= 0.0 && t.pm >= 0.0 && t.pd >= 0.0 && t.disc > 0.0
    requires up >= 0.0 && mid >= 0.0 && down >= 0.0
    ensures Rollback(t, up, mid, down) >= 0.0
  {
    WeightedNonNegative(t.pu, t.pm, t.pd, t.disc, up, mid, down);
  }

  /**
   * The value at a band node: 0 when its price is at or below the barrier;
   * otherwise the call's intrinsic value at maturity, and before maturity
   * the discounted probability-weighted value of the three successors.
   */
  function NodeValue(t: Lattice, row: int, col: int): real
    requires InBand(t.N, row, col)
    decreases t.N - col
  {
    var price := NodePrice(t, row, col);
    if price <= t.H then 0.0
    else if col == t.N then Max0(price - t.K)
    else Rollback(t, NodeValue(t, row - 1, col + 1), NodeValue(t, row, col + 1), NodeValue(t, row + 1, col + 1))
  }

  /** What the value grid holds at (row, col) once the induction is done: the node value in the band, unset outside it. */
  function CondensedCell(t: Lattice, row: int, col: int): Cell
  {
    if InBand(t.N, row, col) then Value(NodeValue(t, row, col)) else Unset
  }

  /** The grid holds the condensed tree's log prices. */
  predicate HoldsTree(t: Lattice, logAsset: array2<real>)
    reads logAsset
  {
    logAsset.Length0 == 2 * t.N + 1 && logAsset.Length1 == t.N + 1 &&
    forall row, col :: 0 <= row < 2 * t.N + 1 && 0 <= col <= t.N ==> logAsset[row, col] == TreeCell(t.logS0, t.N, t.h, row, col)
  }

  /** A band node below maturity above the barrier: its value is the discounted expectation of its three set successors. */
  lemma NodeStep(t: Lattice, row: int, col: int)
    requires InBand(t.N, row, col) && col < t.N && NodePrice(t, row, col) > t.H
    ensures CondensedCell(t, row - 1, col + 1).Value? && CondensedCell(t, row, col + 1).Value? && CondensedCell(t, row + 1, col + 1).Value?
    ensures NodeValue(t, row, col)
         == Rollback(t, CondensedCell(t, row - 1, col + 1).x, CondensedCell(t, row, col + 1).x, CondensedCell(t, row + 1, col + 1).x)
  {
  }

  /** Fills column N with the down-and-out call payoff of every row's price. */
  method TerminalColumn(t: Lattice, logAsset: array2<real>, V: array2<Cell>)
    requires HoldsTree(t, logAsset) && V.Length0 == 2 * t.N + 1 && V.Length1 == t.N + 1
    requires forall r, c :: 0 <= r < 2 * t.N + 1 && 0 <= c <= t.N ==> V[r, c] == Unset
    modifies V
    ensures forall r, c :: 0 <= r < 2 * t.N + 1 && 0 <= c <= t.N ==> V[r, c] == if c == t.N then CondensedCell(t, r, c) else Unset
  {
    var N := t.N;
    for row := 0 to 2 * N + 1
      invariant forall r, c :: 0 <= r < 2 * N + 1 && 0 <= c <= N ==>
        V[r, c] == if c == N && r < row then CondensedCell(t, r, c) else Unset
    {
      var price := t.exp(logAsset[row, N]);
      if price <= t.H {
        V[row, N] := Value(0.0);
      } else {
        V[row, N] := Value(Max0(price - t.K));
      }
    }
  }

  /** Fills the band of column col from column col+1, which already holds its final values. */
  method BackwardColumn(t: Lattice, logAsset: array2<real>, V: array2<Cell>, col: nat)
    requires HoldsTree(t, logAsset) && V.Length0 == 2 * t.N + 1 && V.Length1 == t.N + 1 && col < t.N
    requires forall r, c :: 0 <= r < 2 * t.N + 1 && 0 <= c <= t.N ==> V[r, c] == if c > col then CondensedCell(t, r, c) else Unset
    modifies V
    ensures forall r, c :: 0 <= r < 2 * t.N + 1 && 0 <= c <= t.N ==> V[r, c] == if c >= col then CondensedCell(t, r, c) else Unset
  {
    var N := t.N;
    for row := N - col to N + col + 1
      invariant forall r, c :: 0 <= r < 2 * N + 1 && 0 <= c <= N ==>
        V[r, c] == if c > col || (c == col && r < row) then CondensedCell(t, r, c) else Unset
    {
      var price := t.exp(logAsset[row, col]);
      if price <= t.H {
        V[row, col] := Value(0.0);
      } else {
        NodeStep(t, row, col);
        V[row, col] := Value(Rollback(t, V[row - 1, col + 1].x, V[row, col + 1].x, V[row + 1, col + 1].x));
      }
    }
  }

  /**
   * Condensed backward induction. The value grid starts unset; column N
   * gets the down-and-out call payoff in every row; then each earlier column
   * gets, in its band, 0 at or below the barrier and otherwise the
   * discounted expectation of its three successors, which are always set
   * already. Cells outside the band stay unset.
   */
  method CondensedTrinomialModel(H: real, K: real, logS0: real, N: nat, h: real, k: real, sigma: real, r: real,
                                 disc: real, exp: real -> real)
    returns (logAsset: array2<real>, V: array2<Cell>)
    requires h != 0.0
    ensures fresh(logAsset) && fresh(V)
    ensures logAsset.Length0 == 2 * N + 1 && logAsset.Length1 == N + 1
    ensures forall row, col :: 0 <= row < 2 * N + 1 && 0 <= col <= N ==> logAsset[row, col] == TreeCell(logS0, N, h, row, col)
    ensures V.Length0 == 2 * N + 1 && V.Length1 == N + 1
    ensures forall row, col :: 0 <= row < 2 * N + 1 && 0 <= col <= N ==>
      V[row, col] == CondensedCell(LatticeOf(H, K, logS0, N, h, k, sigma, r, disc, exp), row, col)
    ensures forall row, col :: 0 <= row < 2 * N + 1 && 0 <= col <= N ==> (V[row, col].Value? <==> InBand(N, row, col))
    ensures forall row, col :: InBand(N, row, col) && exp(logAsset[row, col]) <= H ==> V[row, col] == Value(0.0)
    ensures var t := LatticeOf(H, K, logS0, N, h, k, sigma, r, disc, exp);
      t.pu >= 0.0 && t.pm >= 0.0 && t.pd >= 0.0 && disc > 0.0 ==>
      forall row, col :: InBand(N, row, col) ==> V[row, col].Value? && V[row, col].x >= 0.0
  {
    var t := LatticeOf(H, K, logS0, N, h, k, sigma, r, disc, exp);
    logAsset := AssetPriceTree(logS0, N, h);
    V := new Cell[2 * N + 1, N + 1]((_, _) => Unset);
    TerminalColumn(t, logAsset, V);
    var col := N;
    while col > 0
      modifies V
      invariant 0 <= col <= N
      invariant forall r, c :: 0 <= r < 2 * N + 1 && 0 <= c <= N ==>
        V[r, c] == if c >= col then CondensedCell(t, r, c) else Unset
    {
      col := col - 1;
      BackwardColumn(t, logAsset, V, col);
    }
    if t.pu >= 0.0 && t.pm >= 0.0 && t.pd >= 0.0 && disc > 0.0 {
      forall row, c | InBand(N, row, c) ensures NodeValue(t, row, c) >= 0.0 {
        NodeValueNonNegative(t, row, c);
      }
    }
  }

  /** With non-negative probabilities and a positive discount factor, every node value is non-negative. */
  lemma {:induction false} NodeValueNonNegative(t: Lattice, row: int, col: int)
    requires InBand(t.N, row, col)
    requires t.pu >= 0.0 && t.pm >= 0.0 && t.pd >= 0.0 && t.disc > 0.0
    ensures NodeValue(t, row, col) >= 0.0
    decreases t.N - col
  {
    if NodePrice(t, row, col) > t.H && col < t.N {
      NodeValueNonNegative(t, row - 1, col + 1);
      NodeValueNonNegative(t, row, col + 1);
      NodeValueNonNegative(t, row + 1, col + 1);
      RollbackNonNegative(t, NodeValue(t, row - 1, col + 1), NodeValue(t, row, col + 1), NodeValue(t, row + 1, col + 1));
    }
  }

  /**
   * The terminal column applies the down-and-out call rule whatever the
   * option's own type and barrier: at maturity, a node pays what a
   * down-and-out call pays on the one-point path of its price.
   */
  lemma TerminalIsDownAndOutCall(t: Lattice, row: int)
    requires InBand(t.N, row, t.N)
    ensures NodeValue(t, row, t.N) == BarrierPayoff(Call, DownAndOut, t.H, t.K, NodePrice(t, row, t.N), [NodePrice(t, row, t.N)])
  {
    var price := NodePrice(t, row, t.N);
    if price <= t.H {
      assert OnBarrierSide(DownAndOut, t.H, [price][0]);
    } else {
      assert !OnBarrierSide(DownAndOut, t.H, [price][0]);
    }
  }

  /**
   * Knock-out is closed downwards: with an increasing exponential and an
   * upward price step, once a band node is at or below the barrier so is
   * every band node below it in the same column, and all of them are worth 0.
   */
  lemma KnockOutClosedDownwards(t: Lattice, row: int, row': int, col: int)
    requires forall a, b :: a <= b ==> t.exp(a) <= t.exp(b)
    requires t.h > 0.0 && InBand(t.N, row, col) && InBand(t.N, row', col) && row <= row'
    requires NodePrice(t, row, col) <= t.H
    ensures NodePrice(t, row', col) <= t.H
    ensures NodeValue(t, row', col) == 0.0
  {
    var a, b := TreeCell(t.logS0, t.N, t.h, row', col), TreeCell(t.logS0, t.N, t.h, row, col);
    if col == 0 {
      assert row == row' == t.N;
    } else {
      assert b - a == t.h * (row' - row) as real;
      ProductNonNegative(t.h, (row' - row) as real);
    }
    assert t.exp(a) <= t.exp(b);
  }

  /**
   * Every successor a band node of column col < N reads lies in the band of
   * column col+1, inside rows 0 .. 2N: the induction never reads an unset cell.
   */
  lemma SuccessorsInBand(N: nat, row: int, col: int)
    requires InBand(N, row, col) && col < N
    ensures InBand(N, row - 1, col + 1) && InBand(N, row, col + 1) && InBand(N, row + 1, col + 1)
    ensures 0 <= row - 1 && row + 1 <= 2 * N
  {
  }

  // ---------------------------------------------------------------------
  // Full-trajectory model
  // ---------------------------------------------------------------------

  /** Why pricing over full trajectories fails. */
  datatype ModelError =
    /** The option has no barrier attribute H to take the logarithm of. */
    | BarrierMissing
    /** The barrier attribute H is not a number. */
    | BarrierNotNumeric
    | PayoffFailed(cause: PayoffError)

  /**
   * A copy of the option with the barrier H and the strike K replaced by
   * their logarithms; every other field and attribute is the original's
   * (and the original itself, being a value, is left as it was).
   */
  function LogCopy(c: Contract, ln: real -> real): (r: Result<Contract, ModelError>)
    ensures "H" !in c.attrs ==> r == Failure(BarrierMissing)
    ensures "H" in c.attrs && !c.attrs["H"].Num? ==> r == Failure(BarrierNotNumeric)
    ensures r.Success? <==> "H" in c.attrs && c.attrs["H"].Num?
    ensures r.Success? ==>
      r.value.K == ln(c.K) && "H" in r.value.attrs && r.value.attrs["H"] == Num(ln(c.attrs["H"].x)) &&
      r.value.kind == c.kind && r.value.T == c.T && r.value.premium == c.premium && r.value.position == c.position &&
      r.value.attrs.Keys == c.attrs.Keys &&
      (forall a :: a in c.attrs && a != "H" ==> r.value.attrs[a] == c.attrs[a])
  {
    if "H" !in c.attrs then Failure(BarrierMissing)
    else if !c.attrs["H"].Num? then Failure(BarrierNotNumeric)
    else Success(c.(K := ln(c.K), attrs := c.attrs["H" := Num(ln(c.attrs["H"].x))]))
  }

  /**
   * With a logarithm that preserves the order of positive reals, a path of
   * positive prices is knocked out at a positive barrier exactly when its
   * log path is knocked out at the log barrier.
   */
  lemma {:induction false} LogPreservesKnockOut(barrier: BarrierType, H: real, path: seq<real>, ln: real -> real)
    requires forall a, b :: 0.0 < a && 0.0 < b ==> (a <= b <==> ln(a) <= ln(b))
    requires H > 0.0 && forall i :: 0 <= i < |path| ==> path[i] > 0.0
    ensures KnockedOut(barrier, ln(H), seq(|path|, i requires 0 <= i < |path| => ln(path[i])))
        <==> KnockedOut(barrier, H, path)
  {
    var logPath := seq(|path|, i requires 0 <= i < |path| => ln(path[i]));
    forall i | 0 <= i < |path|
      ensures OnBarrierSide(barrier, ln(H), logPath[i]) <==> OnBarrierSide(barrier, H, path[i])
    {
      assert logPath[i] == ln(path[i]);
    }
    assert AnyOnBarrierSide(barrier, ln(H), logPath) <==> AnyOnBarrierSide(barrier, H, path);
  }

  /** Row j of a grid, as a sequence. */
  function RowOf(a: array2<real>, j: nat): (s: seq<real>)
    requires j < a.Length0
    reads a
    ensures |s| == a.Length1 && forall c :: 0 <= c < a.Length1 ==> s[c] == a[j, c]
  {
    seq(a.Length1, c requires 0 <= c < a.Length1 reads a => a[j, c])
  }

  /**
   * The full-trajectory model up to its payoff vector: the log copy of the
   * option, the complete 3^N-row trajectory grid from log S0, and one payoff
   * per row from that row's last price and the whole row. The payoff of a
   * row is the barrier payoff of its log path at the log barrier and the log
   * strike; when the copy cannot be made, or the payoff method fails (which
   * it does on every row alike), that failure is the result.
   */
  method FullTrinomialModel(c: Contract, logS0: real, N: nat, h: real, ln: real -> real)
    returns (trajs: array2<real>, payoff: Result<seq<real>, ModelError>)
    ensures fresh(trajs)
    ensures trajs.Length0 == Pow(3, N) && trajs.Length1 == N + 1
    ensures forall i, j :: 0 <= i < Pow(3, N) && 0 <= j <= N ==> trajs[i, j] == Trajectory(logS0, h, N, i)[j]
    ensures LogCopy(c, ln).Failure? ==> payoff == Failure(LogCopy(c, ln).error)
    ensures LogCopy(c, ln).Success? && Payoff(LogCopy(c, ln).value, logS0, [logS0]).Failure? ==>
      payoff == Failure(PayoffFailed(Payoff(LogCopy(c, ln).value, logS0, [logS0]).error))
    ensures payoff.Success? <==> LogCopy(c, ln).Success? && Payoff(LogCopy(c, ln).value, logS0, [logS0]).Success?
    ensures payoff.Success? ==>
      var lc := LogCopy(c, ln).value;
      |payoff.value| == Pow(3, N) &&
      forall i :: 0 <= i < Pow(3, N) ==>
        payoff.value[i] == BarrierPayoff(c.kind, lc.attrs["barrier_type"].b, ln(c.attrs["H"].x), ln(c.K),
                                         Trajectory(logS0, h, N, i)[N], Trajectory(logS0, h, N, i))
  {
    var copy := LogCopy(c, ln);
    trajs := AllTrajectories(logS0, N, h);
    if copy.Failure? {
      payoff := Failure(copy.error);
      return;
    }
    var lc := copy.value;
    var rows := Pow(3, N);
    var values: seq<real> := [];
    for i := 0 to rows
      modifies {}
      invariant |values| == i
      invariant forall j :: 0 <= j < i ==> Payoff(lc, trajs[j, N], RowOf(trajs, j)) == Success(values[j])
      invariant i > 0 ==> Payoff(lc, logS0, [logS0]).Success?
    {
      var p := Payoff(lc, trajs[i, N], RowOf(trajs, i));
      PayoffFailureIndependentOfPath(lc, trajs[i, N], RowOf(trajs, i), logS0, [logS0]);
      if p.Failure? {
        payoff := Failure(PayoffFailed(p.error));
        return;
      }
      values := values + [p.value];
    }
    payoff := Success(values);
    forall i | 0 <= i < rows
      ensures values[i] == BarrierPayoff(c.kind, lc.attrs["barrier_type"].b, ln(c.attrs["H"].x), ln(c.K),
                                         Trajectory(logS0, h, N, i)[N], Trajectory(logS0, h, N, i))
    {
      assert RowOf(trajs, i) == Trajectory(logS0, h, N, i);
    }
  }

  // ---------------------------------------------------------------------
  // Roll-back over full trajectories
  // ---------------------------------------------------------------------

  /** Why binding positional arguments to a Python function fails. */
  datatype CallError =
    | MissingPositional(given: nat, required: nat)
    | TooManyPositional(given: nat, accepted: nat)

  /**
   * Binding `given` positional arguments to the two-successor roll-back
   * routine, whose parameters are p, q, I, payoff, n and an optional
   * hist_dependent flag: five are required and six accepted. On success the
   * result says whether the flag was among them.
   */
  function BindOptionPrices(given: nat): (r: Result<bool, CallError>)
    ensures r.Success? <==> 5 <= given <= 6
    ensures r.Success? ==> (r.value <==> given == 6)
    ensures given < 5 ==> r == Failure(MissingPositional(given, 5))
    ensures given > 6 ==> r == Failure(TooManyPositional(given, 6))
  {
    if given < 5 then Failure(MissingPositional(given, 5))
    else if given > 6 then Failure(TooManyPositional(given, 6))
    else Success(given == 6)
  }

  /**
   * The full model's last step passes seven positional arguments (pu, pm,
   * pd, r, payoff, N, k) to that routine, so it raises for every option and
   * every N: the full model as written never returns.
   */
  lemma FullModelCallRaises()
    ensures BindOptionPrices(7) == Failure(TooManyPositional(7, 6))
    ensures forall n: nat :: n > 6 ==> BindOptionPrices(n).Failure?
  {
  }

  /**
   * Trinomial roll-back over the 3^N-row trajectory grid: at column col the
   * nodes are the rows that are multiples of 3^(N-col); node row has the
   * successors row, row + 3^(N-col-1) and row + 2 * 3^(N-col-1) in column
   * col+1 (the up, middle and down moves); column N holds the payoff.
   */
  function PathValue(pu: real, pm: real, pd: real, disc: real, payoff: seq<real>, N: nat, row: nat, col: nat): real
    requires |payoff| == Pow(3, N)
    requires col <= N && row < Pow(3, N) && row % Pow(3, N - col) == 0
    decreases N - col
  {
    if col == N then payoff[row]
    else
      var d := Pow(3, N - col - 1);
      PathStride(N, col, row);
      Weighted(pu, pm, pd, disc,
               PathValue(pu, pm, pd, disc, payoff, N, row, col + 1),
               PathValue(pu, pm, pd, disc, payoff, N, row + d, col + 1),
               PathValue(pu, pm, pd, disc, payoff, N, row + 2 * d, col + 1))
  }

  /** A cell of the trajectory value grid: the node value on node rows, 0 elsewhere. */
  function PathCell(pu: real, pm: real, pd: real, disc: real, payoff: seq<real>, N: nat, row: nat, col: nat): real
    requires |payoff| == Pow(3, N) && row < Pow(3, N) && col <= N
  {
    if row % Pow(3, N - col) == 0 then PathValue(pu, pm, pd, disc, payoff, N, row, col) else 0.0
  }

  /** Non-negative probabilities, discount factor and payoffs give non-negative node values. */
  lemma {:induction false} PathNonNegative(pu: real, pm: real, pd: real, disc: real, payoff: seq<real>, N: nat, row: nat, col: nat)
    requires |payoff| == Pow(3, N)
    requires col <= N && row < Pow(3, N) && row % Pow(3, N - col) == 0
    requires pu >= 0.0 && pm >= 0.0 && pd >= 0.0 && disc > 0.0
    requires forall i :: 0 <= i < Pow(3, N) ==> payoff[i] >= 0.0
    ensures PathValue(pu, pm, pd, disc, payoff, N, row, col) >= 0.0
    decreases N - col
  {
    if col < N {
      var d := Pow(3, N - col - 1);
      PathStride(N, col, row);
      PathNonNegative(pu, pm, pd, disc, payoff, N, row, col + 1);
      PathNonNegative(pu, pm, pd, disc, payoff, N, row + d, col + 1);
      PathNonNegative(pu, pm, pd, disc, payoff, N, row + 2 * d, col + 1);
      WeightedNonNegative(pu, pm, pd, disc,
                          PathValue(pu, pm, pd, disc, payoff, N, row, col + 1),
                          PathValue(pu, pm, pd, disc, payoff, N, row + d, col + 1),
                          PathValue(pu, pm, pd, disc, payoff, N, row + 2 * d, col + 1));
    }
  }

  /**
   * The recurrence at node (row, col) of a grid: its three successor rows
   * are inside the grid and the node holds their discounted weighted value.
   */
  predicate PathStep(V: array2<real>, pu: real, pm: real, pd: real, disc: real, N: nat, row: nat, col: nat)
    requires col < N
    reads V
  {
    var d := Pow(3, N - col - 1);
    row + 2 * d < V.Length0 && col + 1 < V.Length1 &&
    V[row, col] == Weighted(pu, pm, pd, disc, V[row, col + 1], V[row + d, col + 1], V[row + 2 * d, col + 1])
  }

  /** A node's cell is the weighted value of its three successors' cells. */
  lemma PathCellStep(pu: real, pm: real, pd: real, disc: real, payoff: seq<real>, N: nat, col: nat, row: nat)
    requires |payoff| == Pow(3, N) && col < N && row < Pow(3, N) && row % Pow(3, N - col) == 0
    ensures row + 2 * Pow(3, N - col - 1) < Pow(3, N)
    ensures PathCell(pu, pm, pd, disc, payoff, N, row, col)
      == Weighted(pu, pm, pd, disc,
                  PathCell(pu, pm, pd, disc, payoff, N, row, col + 1),
                  PathCell(pu, pm, pd, disc, payoff, N, row + Pow(3, N - col - 1), col + 1),
                  PathCell(pu, pm, pd, disc, payoff, N, row + 2 * Pow(3, N - col - 1), col + 1))
  {
    PathStride(N, col, row);
  }

  /** Writes the nodes of column col from column col+1, which already holds its final values. */
  method PathColumn(V: array2<real>, pu: real, pm: real, pd: real, disc: real, payoff: seq<real>, N: nat, col: nat)
    requires |payoff| == Pow(3, N) && col < N
    requires V.Length0 == Pow(3, N) && V.Length1 == N + 1
    requires forall r, c :: 0 <= r < Pow(3, N) && 0 <= c <= N ==>
      V[r, c] == if c > col then PathCell(pu, pm, pd, disc, payoff, N, r, c) else 0.0
    modifies V
    ensures forall r, c :: 0 <= r < Pow(3, N) && 0 <= c <= N ==>
      V[r, c] == if c >= col then PathCell(pu, pm, pd, disc, payoff, N, r, c) else 0.0
  {
    var rows := Pow(3, N);
    var stride := Pow(3, N - col);
    var d := Pow(3, N - col - 1);
    var row := 0;
    while row < rows
      invariant row % stride == 0
      invariant forall r, c :: 0 <= r < rows && 0 <= c <= N && c != col ==> V[r, c] == old(V[r, c])
      invariant forall r :: row <= r < rows ==> V[r, col] == 0.0
      invariant forall r :: 0 <= r < row && r < rows ==> V[r, col] == PathCell(pu, pm, pd, disc, payoff, N, r, col)
      decreases rows - row
    {
      PathCellStep(pu, pm, pd, disc, payoff, N, col, row);
      V[row, col] := Weighted(pu, pm, pd, disc, V[row, col + 1], V[row + d, col + 1], V[row + 2 * d, col + 1]);
      NextMultiple(row, stride);
      forall r | row < r < row + stride && r < rows
        ensures PathCell(pu, pm, pd, disc, payoff, N, r, col) == 0.0
      {
        BetweenMultiples(row, stride, r);
      }
      row := row + stride;
    }
  }

  /** The trajectory value grid V holds the specification in every cell. */
  predicate PathGrid(V: array2<real>, pu: real, pm: real, pd: real, disc: real, payoff: seq<real>, N: nat)
    requires |payoff| == Pow(3, N)
    reads V
  {
    V.Length0 == Pow(3, N) && V.Length1 == N + 1 &&
    forall r, c :: 0 <= r < Pow(3, N) && 0 <= c <= N ==> V[r, c] == PathCell(pu, pm, pd, disc, payoff, N, r, c)
  }

  /**
   * A grid holding the trajectory specification has the payoff as its last
   * column, satisfies the recurrence at every node, is 0 off the nodes, and
   * is non-negative for non-negative inputs.
   */
  lemma PathGridFacts(V: array2<real>, pu: real, pm: real, pd: real, disc: real, payoff: seq<real>, N: nat)
    requires |payoff| == Pow(3, N) && PathGrid(V, pu, pm, pd, disc, payoff, N)
    ensures forall r :: 0 <= r < Pow(3, N) ==> V[r, N] == payoff[r]
    ensures forall r, c :: 0 <= r < Pow(3, N) && 0 <= c < N && r % Pow(3, N - c) != 0 ==> V[r, c] == 0.0
    ensures forall r, c :: 0 <= r < Pow(3, N) && 0 <= c < N && r % Pow(3, N - c) == 0 ==> PathStep(V, pu, pm, pd, disc, N, r, c)
    ensures pu >= 0.0 && pm >= 0.0 && pd >= 0.0 && disc > 0.0 && (forall i :: 0 <= i < Pow(3, N) ==> payoff[i] >= 0.0) ==>
      forall r, c :: 0 <= r < Pow(3, N) && 0 <= c <= N ==> V[r, c] >= 0.0
  {
    forall r, c | 0 <= r < Pow(3, N) && 0 <= c < N && r % Pow(3, N - c) == 0
      ensures PathStep(V, pu, pm, pd, disc, N, r, c)
    {
      PathCellStep(pu, pm, pd, disc, payoff, N, c, r);
    }
    if pu >= 0.0 && pm >= 0.0 && pd >= 0.0 && disc > 0.0 && (forall i :: 0 <= i < Pow(3, N) ==> payoff[i] >= 0.0) {
      forall r, c | 0 <= r < Pow(3, N) && 0 <= c <= N && r % Pow(3, N - c) == 0 {
        PathNonNegative(pu, pm, pd, disc, payoff, N, r, c);
      }
    }
  }

  /**
   * Backward induction over the full trajectory grid: a fresh 3^N x (N+1)
   * grid whose last column is the payoff; at column col < N exactly the
   * rows that are multiples of 3^(N-col) are written, each from its three
   * successors; all other cells stay 0.
   */
  method PathPrices(pu: real, pm: real, pd: real, disc: real, payoff: seq<real>, N: nat) returns (V: array2<real>)
    requires |payoff| == Pow(3, N)
    ensures fresh(V)
    ensures PathGrid(V, pu, pm, pd, disc, payoff, N)
    ensures forall r :: 0 <= r < Pow(3, N) ==> V[r, N] == payoff[r]
    ensures forall r, c :: 0 <= r < Pow(3, N) && 0 <= c < N && r % Pow(3, N - c) != 0 ==> V[r, c] == 0.0
    ensures forall r, c :: 0 <= r < Pow(3, N) && 0 <= c < N && r % Pow(3, N - c) == 0 ==> PathStep(V, pu, pm, pd, disc, N, r, c)
    ensures pu >= 0.0 && pm >= 0.0 && pd >= 0.0 && disc > 0.0 && (forall i :: 0 <= i < Pow(3, N) ==> payoff[i] >= 0.0) ==>
      forall r, c :: 0 <= r < Pow(3, N) && 0 <= c <= N ==> V[r, c] >= 0.0
  {
    var rows := Pow(3, N);
    V := new real[rows, N + 1]((_, _) => 0.0);
    for r := 0 to rows
      invariant forall i, c :: 0 <= i < rows && 0 <= c <= N ==> V[i, c] == if c == N && i < r then payoff[i] else 0.0
    {
      V[r, N] := payoff[r];
    }
    var col := N;
    while col > 0
      invariant 0 <= col <= N
      invariant forall i, c :: 0 <= i < rows && 0 <= c <= N ==>
        V[i, c] == if c >= col then PathCell(pu, pm, pd, disc, payoff, N, i, c) else 0.0
    {
      col := col - 1;
      PathColumn(V, pu, pm, pd, disc, payoff, N, col);
    }
    PathGridFacts(V, pu, pm, pd, disc, payoff, N);
  }

  /**
   * The full model with its last step corrected: the payoff vector of the
   * full model, rolled back through the 3^N-row trajectory grid with the
   * lattice's Hull-style probabilities and the one-step discount factor.
   */
  method FullTrinomialPrices(c: Contract, logS0: real, N: nat, h: real, k: real, sigma: real, r: real,
                             disc: real, ln: real -> real)
    returns (trajs: array2<real>, payoff: Result<seq<real>, ModelError>, V: Result<array2<real>, ModelError>)
    requires h != 0.0
    ensures fresh(trajs)
    ensures trajs.Length0 == Pow(3, N) && trajs.Length1 == N + 1
    ensures forall i, j :: 0 <= i < Pow(3, N) && 0 <= j <= N ==> trajs[i, j] == Trajectory(logS0, h, N, i)[j]
    ensures payoff.Success? <==> LogCopy(c, ln).Success? && Payoff(LogCopy(c, ln).value, logS0, [logS0]).Success?
    ensures payoff.Success? ==>
      var lc := LogCopy(c, ln).value;
      |payoff.value| == Pow(3, N) &&
      forall i :: 0 <= i < Pow(3, N) ==>
        payoff.value[i] == BarrierPayoff(c.kind, lc.attrs["barrier_type"].b, ln(c.attrs["H"].x), ln(c.K),
                                         Trajectory(logS0, h, N, i)[N], Trajectory(logS0, h, N, i))
    ensures payoff.Failure? ==> V == Failure(payoff.error)
    ensures payoff.Success? ==> V.Success? && fresh(V.value)
    ensures payoff.Success? && V.Success? ==>
      var alpha := Formulas.Trend(r, sigma);
      PathGrid(V.value, Formulas.PUp(h, k, sigma, alpha), Formulas.PMid(h, k, sigma, alpha),
               Formulas.PDown(h, k, sigma, alpha), disc, payoff.value, N)
  {
    trajs, payoff := FullTrinomialModel(c, logS0, N, h, ln);
    if payoff.Failure? {
      V := Failure(payoff.error);
      return;
    }
    var alpha := Formulas.Trend(r, sigma);
    var grid := PathPrices(Formulas.PUp(h, k, sigma, alpha), Formulas.PMid(h, k, sigma, alpha),
                           Formulas.PDown(h, k, sigma, alpha), disc, payoff.value, N);
    V := Success(grid);
  }
}
