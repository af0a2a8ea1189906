# Lattice pricing of barrier options

This project is a Dafny model of the lattice pricing engine of a small Python
library for barrier options. The engine has four parts:

- **Transition probabilities.** The up, middle and down probabilities of a
  trinomial step in log-price, with drift `alpha = r - sigma^2/2`. There are
  two formula sets: the Hull form used by the lattices and a second form
  written for the adaptive mesh.
- **Barrier option contract.** Construction from loosely typed arguments,
  with its validation errors. The payoff dispatch over call/put and the four
  barrier kinds. The revenue of a long or short position.
- **Lattice builders and backward induction.**
  - The condensed (recombining) price tree.
  - Enumeration of all trajectories of a trinomial walk.
  - Two generic roll-back routines, one dense and one for path-indexed
    (history-dependent) grids.
  - The hedge ratios (delta coverage) of those grids.
  - Discounting.
- **Pricing models.**
  - The full-trajectory model, which computes a payoff for every
    enumerated path.
  - The condensed trinomial model, which rolls a down-and-out value grid back
    through the recombining tree.
  - The Adaptive Mesh Model (AMM). Level after level, it builds a three-row
    fine mesh next to the barrier, stitched to the coarser mesh above it.

Numbers are Dafny `real`s. The transcendental functions the source calls are
parameters of the model:

- `exp` and `ln`;
- the one-step discount factor `disc = e^(-rk)`;
- the compounding function `growth(t) = (1+r)^t` of the AMM's discount
  helper.

The model is stated only in terms of these parameters. NaN cells of the
source's grids are modelled as `Cell.Unset`. Code that updates arrays in
place is modelled as methods over `array2`. The grid-filling methods of the
roll-back routines and models are proved against recursive specification
functions (`NodeValue`, `DenseValue`, `HistValue`, `PathValue`,
`FineValue`). These functions restate the loops' recurrences as recursion.
The properties that do not follow from the loops' shape are stated in
lemmas about them:

- non-negativity (`NodeValueNonNegative`, `DenseNonNegative`,
  `HistNonNegative`, `PathNonNegative`);
- knock-out below the barrier (`KnockOutClosedDownwards`);
- the per-node recurrences of the completed grids (`DenseGridFacts`,
  `PathGridFacts`);
- the riskless hedge (`HedgeGridRiskless`);
- the AMM's closed forms (`NodeCountClosedForm`, `LevelNClosedForm`).

`NewOption` and the delta-coverage methods are not proved against a
recursive function: their contracts state the validation order and the
hedge property directly.

Modules and files:

- `wrappers.dfy`: `Option` and `Result`.
- `formulas.dfy`: `Formulas`.
- `amm_formulas.dfy`: `AmmFormulas`.
- `barrier_option.dfy`: `BarrierOptions`.
- `powers.dfy`: `Powers`, natural powers and divisibility helpers.
- `trinomial_utils.dfy`: `TrinomialUtils`.
- `trinomial_model.dfy`: `TrinomialModel`.
- `amm.dfy`: `Amm`.

## Model

| member | source | states |
|---|---|---|
| Formulas.Trend | utils/formulas.py:5-6 | The drift `r - sigma^2/2` is never above `r`, and equals `r` when volatility is zero. |
| Formulas.PUp | utils/formulas.py:8-12 | `p_u` is non-negative for `k >= 0` when the drift term `alpha*k/h` is not strictly between -1 and 0. Its difference from and sum with `p_d` are stated by `UpMinusDown` and `UpPlusDown`. |
| Formulas.PDown | utils/formulas.py:14-18 | `p_d` is non-negative for `k >= 0` when `alpha*k/h` is not strictly between 0 and 1. `NegatedDriftSwaps` makes it the mirror image of `p_u`. |
| Formulas.PMid | utils/formulas.py:20-21 | The middle probability completes the up and down probabilities to a total of 1. |
| Formulas.UpMinusDown | utils/formulas.py:8-18 | `p_u - p_d = alpha*k/h`. This is the first moment of a step matching the drift. |
| Formulas.UpPlusDown | utils/formulas.py:8-18 | `p_u + p_d = sigma^2 k/h^2 + alpha^2 k^2/h^2`. This is the second moment of a step. |
| Formulas.NegatedDriftSwaps | utils/formulas.py:8-21 | Negating the drift swaps `p_u` and `p_d` and leaves `p_m` unchanged. |
| Formulas.ZeroDriftSymmetric | utils/formulas.py:8-18 | With zero drift, `p_u = p_d = sigma^2 k/(2h^2)`. |
| Formulas.NonNegativeDriftFavoursUp | utils/formulas.py:8-18 | A non-negative drift with `k/h > 0` gives `p_u >= p_d`. |
| AmmFormulas.Trend | utils/amm_utils.py:1-2 | Agrees with the Hull-form drift, so it is never above `r`. |
| AmmFormulas.PUp | utils/amm_utils.py:4-8 | The AMM-form `p_u` is non-negative for `k >= 0` when the drift term `trend*k/h` is not strictly between -1 and 0. Its relation to the Hull form is stated by `DifferenceFromHull`. |
| AmmFormulas.PDown | utils/amm_utils.py:10-14 | The AMM-form `p_d` is non-negative for `k >= 0` when `trend*k/h` is not strictly between 0 and 1. |
| AmmFormulas.PMid | utils/amm_utils.py:16-17 | The three AMM-form probabilities sum to 1. |
| AmmFormulas.UpMinusDown | utils/amm_utils.py:4-14 | `p_u - p_d = 2*alpha*k/h`, which is twice the Hull-form difference. |
| AmmFormulas.UpPlusDown | utils/amm_utils.py:4-14 | The AMM-form `p_u + p_d` in closed form. |
| AmmFormulas.DifferenceFromHull | utils/amm_utils.py:4-14 | The AMM-form `p_u` and `p_d` exceed the Hull-form ones by the stated drift terms. |
| AmmFormulas.AgreeWithoutDrift | utils/amm_utils.py:1-17 | At zero drift both formula sets give the same three probabilities. |
| BarrierOptions.OptionTypeByValue | utils/barrier_option.py:4-6 | Look-up by value succeeds exactly for "call" and "put", and returns the member carrying that value. |
| BarrierOptions.OptionTypeValueRoundTrip | utils/barrier_option.py:4-6 | Every option type is found again from its own value. |
| BarrierOptions.LowerChar | utils/barrier_option.py:31 | Only `A`..`Z` change, each to its lower-case letter. |
| BarrierOptions.Lower | utils/barrier_option.py:31 | Lower-casing keeps the length and maps every character by `LowerChar`. |
| BarrierOptions.ParseOptionType | utils/barrier_option.py:29-33 | An option type argument is accepted iff it is a string whose lower-case form is "call" or "put". |
| BarrierOptions.NewOption | utils/barrier_option.py:20-45 | A non-string type, an unknown type, a non-member position, or a keyword named like the read-only property each give their error, in this order. Otherwise it returns the typed fields, `name` bound to the class name, and every keyword argument as an attribute. |
| BarrierOptions.Intrinsic | utils/barrier_option.py:74-89 | The plain payoff `max(S_T-K,0)` or `max(K-S_T,0)` is non-negative and equals either 0 or the exercise value. |
| BarrierOptions.IntrinsicParity | utils/barrier_option.py:74-89 | Call minus put at the same strike pays `S_T - K`. |
| BarrierOptions.PayoffAsWritten | utils/barrier_option.py:71-89 | The eight branches as written. "Out" barriers pay 0 when any point reaches `H`. "In" barriers pay 0 when all points are on the barrier side. |
| BarrierOptions.InPaysWithoutReachingBarrier | utils/barrier_option.py:77-78 | As written, an up-and-in call (H=110, K=90) on the path [100] never reaches the barrier yet pays 10. In plus out then differs from the plain call. |
| BarrierOptions.BarrierPayoff | utils/barrier_option.py:71-89 | Zero exactly when the path knocks the option out, and the plain payoff otherwise. The "in" barriers knock out when the barrier is never reached. |
| BarrierOptions.OutBarriersAsWritten | utils/barrier_option.py:73-76 | For the two "out" barriers, the corrected payoff equals the as-written one. |
| BarrierOptions.InOutParity | utils/barrier_option.py:72-89 | Up-and-in plus up-and-out pays the plain option, and so does down-and-in plus down-and-out. |
| BarrierOptions.BarrierParity | utils/barrier_option.py:72-89 | On a path that is not knocked out, call minus put pays `S_T - K`. |
| BarrierOptions.Payoff | utils/barrier_option.py:71-89 | A missing `barrier_type` is an error. The method succeeds iff the option has a barrier-type attribute and a numeric `H`, and then returns `BarrierPayoff`. |
| BarrierOptions.PayoffFailureIndependentOfPath | utils/barrier_option.py:71-89 | Whether the payoff fails, and with which error, does not depend on the path. |
| BarrierOptions.Revenue | utils/barrier_option.py:63-67 | A payoff error propagates. Otherwise a long position gets payoff minus premium and a short one payoff plus premium. |
| BarrierOptions.LongShortRevenue | utils/barrier_option.py:63-67 | Short minus long revenue is twice the premium, and a long position loses at most the premium. |
| TrinomialUtils.Compound | utils/trinomial_utils.py:75-76 | `(1+i)^T` is 1 for T=0 and `1+i` for T=1, and positive when `i > -1`. |
| TrinomialUtils.Discount | utils/trinomial_utils.py:75-76 | The discounted value times the growth factor gives back the value, and it stays non-negative under positive growth. |
| TrinomialUtils.DiscountOnePeriod | utils/trinomial_utils.py:75-76 | With the default `T=1`, discounting divides by `1+i`. |
| TrinomialUtils.AssetPriceTree | utils/trinomial_utils.py:5-22 | The grid is `(2N+1)x(N+1)` with `S0` at `[N,0]` and zeros outside the band. Row `N` holds `S0` in every column. A band node's price does not depend on its column, and adjacent band rows differ by `h`. |
| TrinomialUtils.Digits | utils/trinomial_utils.py:35 | The base-3 digits of a product index form N digits, each below 3. |
| TrinomialUtils.Steps | utils/trinomial_utils.py:35 | Digit 0, 1, 2 maps to increment `+h`, `0`, `-h`, position by position. |
| TrinomialUtils.Walk | utils/trinomial_utils.py:37-38 | The cumulative sum has one more entry than the increments and starts at the initial price. |
| TrinomialUtils.WalkSteps | utils/trinomial_utils.py:37-38 | Consecutive entries of the cumulative sum differ by the corresponding increment. |
| TrinomialUtils.Trajectory | utils/trinomial_utils.py:35-38 | The i-th trajectory has N+1 entries. |
| TrinomialUtils.TrajectoryShape | utils/trinomial_utils.py:35-38 | Every trajectory starts at `S0` and moves by `+h`, `0` or `-h` at each step. |
| TrinomialUtils.FillTrajectories | utils/trinomial_utils.py:34-38 | Row i of the filled grid is the i-th product trajectory. |
| TrinomialUtils.GetAllTrajectories | utils/trinomial_utils.py:25-39 | As written: `2^N` rows, row i being the i-th trajectory of the product order. |
| TrinomialUtils.AllTrajectories | utils/trinomial_utils.py:25-39 | Corrected: `3^N` rows, row i being the i-th trajectory of the product order. |
| TrinomialUtils.EncodeBound | utils/trinomial_utils.py:35 | A digit sequence encodes to an index below `3^N`. |
| TrinomialUtils.DigitsOfEncode | utils/trinomial_utils.py:35 | Decoding an encoded digit sequence gives it back. |
| TrinomialUtils.EncodeOfDigits | utils/trinomial_utils.py:35 | Encoding the digits of an index below `3^N` gives it back. |
| TrinomialUtils.EveryPathEnumerated | utils/trinomial_utils.py:35-38 | Every walk of N steps from `{+h,0,-h}` is the trajectory at some index below `3^N`. |
| TrinomialUtils.AllDownMissing | utils/trinomial_utils.py:34-36 | For `N >= 1` and `h != 0`, none of the first `2^N` rows is the all-down walk. |
| TrinomialUtils.SuccessorPaths | utils/trinomial_utils.py:35-38 | In the product order, the trajectory at row `row + e*3^(N-j-1)` (row a multiple of `3^(N-j)`, `e < 3`) agrees with trajectory `row` up to step j and then takes move e. This is what makes the `3^N`-row grid a trinomial tree. |
| TrinomialUtils.DigitsPrefix | utils/trinomial_utils.py:35 | The first `N-m` digits of index i are the digits of `i / 3^m`. |
| TrinomialUtils.Expectation | utils/trinomial_utils.py:54 | The discounted expectation times `1+I` is `p*up + q*down`. It is non-negative for non-negative weights, values and `I > -1`. |
| TrinomialUtils.DenseValue | utils/trinomial_utils.py:49-54 | The dense recurrence as a recursive function; no contract of its own. `DenseNonNegative`, `DenseGridFacts` and `OptionPricesDense` state its properties. |
| TrinomialUtils.DenseNonNegative | utils/trinomial_utils.py:49-54 | Non-negative payoffs and weights give non-negative values at every reachable node. |
| TrinomialUtils.DenseColumn | utils/trinomial_utils.py:53-54 | Fills column j on and above the diagonal from column j+1 and leaves every other cell as it was. |
| TrinomialUtils.DenseGridFacts | utils/trinomial_utils.py:49-54 | A grid that holds the dense specification has the payoff as its last column, satisfies the recurrence on and above the diagonal, is 0 below it, and is non-negative for non-negative inputs. |
| TrinomialUtils.OptionPricesDense | utils/trinomial_utils.py:49-54 | The last column is the payoff. For `i <= j < n`, `V[i,j]*(1+I) = p*V[i,j+1] + q*V[i+1,j+1]`. Cells below the diagonal stay 0. Values are non-negative for non-negative inputs. |
| TrinomialUtils.StrideStep | utils/trinomial_utils.py:46-48 | A node row at column j is a node row at j+1, and so is its successor, which stays inside the grid. |
| TrinomialUtils.HistValue | utils/trinomial_utils.py:43-48 | The path-indexed recurrence as a recursive function; no contract of its own. `HistNonNegative`, `HistCellStep` and `OptionPricesHist` state its properties. |
| TrinomialUtils.HistNonNegative | utils/trinomial_utils.py:43-48 | Non-negative payoffs and weights give non-negative path-indexed values. |
| TrinomialUtils.HistCellStep | utils/trinomial_utils.py:48 | At a node, the cell satisfies the path-indexed recurrence with successor row `h + 2^(n-j-1)`. |
| TrinomialUtils.HistColumn | utils/trinomial_utils.py:47-48 | Fills column j at node rows (stride `2^(n-j)`) and leaves every other cell as it was. |
| TrinomialUtils.HistGridFacts | utils/trinomial_utils.py:43-48 | A grid that holds the path-indexed specification has the payoff as its last column and the recurrence at every node, with the successor row inside the grid. It is 0 off the nodes and non-negative for non-negative inputs. |
| TrinomialUtils.OptionPricesHist | utils/trinomial_utils.py:43-48 | The grid is `2^n x (n+1)` and its last column is the payoff. At node rows, `V[h,j]*(1+I) = p*V[h,j+1] + q*V[h+2^(n-j-1),j+1]`, with the successor inside the grid. Other cells are 0. Values are non-negative for non-negative inputs. |
| TrinomialUtils.DeltaRatio | utils/trinomial_utils.py:71 | The ratio makes `V - Delta*S` equal on both successors, i.e. the hedge is riskless. |
| TrinomialUtils.DeltaRatioUnique | utils/trinomial_utils.py:71 | The ratio is the only number with that property. |
| TrinomialUtils.DenseRatio | utils/trinomial_utils.py:71 | The dense ratio at `(j,h)` hedges rows j and j+1 of column h+1. |
| TrinomialUtils.DeltaCoverageDense | utils/trinomial_utils.py:67-71 | The result is `n x n`. For `j <= h`, `Delta[j,h]` makes `V - Delta*S` equal on rows j and j+1 of column h+1. Cells below the diagonal are 0. |
| TrinomialUtils.HedgeRowsInside | utils/trinomial_utils.py:62-65 | The rows read at a node, `2j` and `2j + 2^(n-h-1)`, lie inside the `2^n` rows. |
| TrinomialUtils.HedgeRatio | utils/trinomial_utils.py:63-66 | The path-indexed ratio hedges rows `2j` and `2j + 2^(n-h-1)`. |
| TrinomialUtils.HedgeRatioRiskless | utils/trinomial_utils.py:63-66 | The computed ratio makes the hedged position riskless at the two rows it reads. |
| TrinomialUtils.HedgeColumn | utils/trinomial_utils.py:61-66 | Fills column h at node rows and leaves every other cell as it was. |
| TrinomialUtils.HedgeGridRiskless | utils/trinomial_utils.py:59-66 | A completed path-indexed hedge grid is riskless at every node, and both rows it reads are inside the grid. Its other cells are 0. |
| TrinomialUtils.DeltaCoverageHist | utils/trinomial_utils.py:59-66 | The result is `2^(n-1) x n`. At node rows, `Delta[j,h]` makes the position riskless on rows `2j` and `2j+2^(n-h-1)`, both inside the grid. Other cells are 0. |
| TrinomialModel.LatticeOf | src/trinomial_model.py:30-33 | The lattice's three probabilities sum to 1, and `pu - pd = alpha*k/h`. |
| TrinomialModel.RollbackNonNegative | src/trinomial_model.py:104-108 | Non-negative probabilities, successor values and discount factor give a non-negative rolled-back value. |
| TrinomialModel.NodeValue | src/trinomial_model.py:90-108 | The condensed backward induction as a recursive function; no contract of its own. `NodeValueNonNegative`, `TerminalIsDownAndOutCall`, `KnockOutClosedDownwards` and `NodeStep` state its properties. |
| TrinomialModel.NodeStep | src/trinomial_model.py:99-108 | A band node above the barrier has three set successors, and its value is their discounted expectation. |
| TrinomialModel.TerminalColumn | src/trinomial_model.py:90-96 | Sets the maturity column to its specification values and leaves the rest unset. |
| TrinomialModel.BackwardColumn | src/trinomial_model.py:98-108 | Extends the computed columns by one column to the left, matching the specification. |
| TrinomialModel.CondensedTrinomialModel | src/trinomial_model.py:83-110 | Returns the log-price tree of `log S0` and the value grid. Exactly the band cells are set (the rest stay NaN). Band nodes whose price `exp(log S) <= H` are 0. Every cell equals the backward-induction specification, and is non-negative for non-negative probabilities. |
| TrinomialModel.NodeValueNonNegative | src/trinomial_model.py:90-108 | Every node value is non-negative when the probabilities are non-negative and the discount factor is positive. |
| TrinomialModel.TerminalIsDownAndOutCall | src/trinomial_model.py:91-96 | The maturity value is the down-and-out call payoff at that node's price, whatever the option's own type. |
| TrinomialModel.KnockOutClosedDownwards | src/trinomial_model.py:99-102 | For `h > 0` and monotone `exp`, every node below a knocked-out node in the same column is knocked out and worth 0. |
| TrinomialModel.SuccessorsInBand | src/trinomial_model.py:98-107 | The three successors of a band node before maturity are band nodes inside the grid. |
| TrinomialModel.LogCopy | src/trinomial_model.py:35-37 | A missing or non-numeric `H` is an error. Otherwise the copy has `ln K` and `ln H` and is otherwise unchanged. |
| TrinomialModel.LogPreservesKnockOut | src/trinomial_model.py:35-46 | For positive prices and a monotone `ln`, a path knocks out in log units iff it knocks out in prices. |
| TrinomialModel.FullTrinomialModel | src/trinomial_model.py:35-47 | Returns `3^N` log-price trajectories from `log S0`. Errors of the log copy and of the payoff propagate. On success, entry j is the barrier payoff in log units of trajectory j. |
| TrinomialModel.BindOptionPrices | utils/trinomial_utils.py:42 | Binding positional arguments to the two-successor roll-back succeeds iff 5 or 6 are given. Fewer or more give the matching error. |
| TrinomialModel.FullModelCallRaises | src/trinomial_model.py:52 | As written, the full model's final call passes 7 positional arguments, so binding fails with "too many" for every option and every N. |
| TrinomialModel.WeightedNonNegative | src/trinomial_model.py:104-108 | Non-negative probabilities, successor values and discount factor give a non-negative weighted value. |
| TrinomialModel.PathNonNegative | src/trinomial_model.py:49-52 | The trajectory-grid value of every node is non-negative for non-negative probabilities, discount factor and payoffs. |
| TrinomialModel.PathCellStep | src/trinomial_model.py:49-52 | A node's cell in the trajectory grid is the weighted value of the cells of its up, middle and down successors, which lie inside the grid. |
| TrinomialModel.PathColumn | src/trinomial_model.py:49-52 | Writes column col of the trajectory grid from column col+1 and leaves the other columns unchanged. |
| TrinomialModel.PathGridFacts | src/trinomial_model.py:49-52 | A grid holding the trajectory specification has the payoff as its last column, the recurrence at every node, zeros elsewhere, and non-negative values for non-negative inputs. |
| TrinomialModel.PathPrices | src/trinomial_model.py:49-52 | Corrected roll-back: a fresh `3^N x (N+1)` grid whose last column is the payoff. Each node (row a multiple of `3^(N-col)`) is the discounted weighted value of its three successors. Other cells are 0, and values are non-negative for non-negative inputs. |
| TrinomialModel.FullTrinomialPrices | src/trinomial_model.py:27-54 | The full model with its last step corrected. It returns the trajectories, the payoff vector or its error, and on success a value grid rolled back with the Hull-form probabilities. |
| Amm.NodeCount | src/amm.py:45-50 | The node count as a recurrence; no contract of its own. `NodeCountClosedForm` gives its closed form. |
| Amm.LevelH | src/amm.py:52 | The price step of every level is non-zero when the coarse one is. |
| Amm.LevelNClosedForm | src/amm.py:49 | Level i has `4^i * N0` time steps. |
| Amm.LevelStepsClosedForm | src/amm.py:51-52 | Level i has price step `h0/2^i` and time step `k0/4^i`. |
| Amm.LevelNMultipleOf4 | src/amm.py:56-59 | A fine level's step count is a multiple of 4, and a quarter of it is the previous level's. |
| Amm.NodeCountClosedForm | src/amm.py:45-50 | After i levels the node count is `(N0+1)^2 + 3i + 4*N0*(4^i-1)`. |
| Amm.NextMultipleOf4 | src/amm.py:62 | The result is the smallest multiple of 4 strictly above the column. |
| Amm.StitchColumn | src/amm.py:62-70 | A non-aligned column reads a coarse column between 1 and the coarse step count. |
| Amm.Stitch | src/amm.py:61-72 | The value of a non-aligned row-0 cell; no contract of its own. It is used by `FineValue` and `StitchRow`. |
| Amm.Middle | src/amm.py:79-84 | The value of a middle-row cell from its three successors; no contract of its own. It is used by `FineValue` and `RefineLevel`. |
| Amm.FineValue | src/amm.py:56-84 | The fine mesh of level i as a recursive function; no contract of its own. `StitchRow`, `RefineLevel` and `BarrierAmm` are proved against it. |
| Amm.StitchRow | src/amm.py:56-72 | Fills row 0 of the fine mesh with its specification. Aligned columns copy the coarse mid-row value. The others take the one-step expectation over the three coarse values at the next aligned column, with probabilities for the remaining time. |
| Amm.RefinedBarrierRow | src/amm.py:74-75 | In a mesh that holds level i, the barrier row is 0 in every column. |
| Amm.RefinedAlignedRow | src/amm.py:56-59 | In a mesh that holds level i, row 0 at every column `4c` is the coarse grid's middle-row cell at column c. |
| Amm.RefinedMiddleRow | src/amm.py:79-84 | In a mesh that holds level i, each middle cell before the last column is the discounted expectation of the three cells of the next column. |
| Amm.RefineLevel | src/amm.py:49-84 | Returns a 3 x (4N+1) mesh. Row 2 is 0 (on the barrier), and aligned row-0 cells copy the coarse mid-row. `B[1,4N] = max(log H + h/2 - K, 0)`. Each middle cell is the discounted expectation of its three successors. The whole mesh equals the level specification. |
| Amm.BarrierAmm | src/amm.py:45-96 | Returns the node count of M levels. With M=0 the price is the coarse value at `[N0,0]`. Otherwise it is the specification's value at row 1, column 0 of level M. |

## Left out

- Floating point, NaN propagation and overflow are not modelled. All
  arithmetic is exact real arithmetic.
- `np.exp`, `np.log`, `np.sqrt` and `**` on reals are not computed. `exp`,
  `ln`, the discount factor `e^(-rk)` and the AMM's compounding function
  `(1+r)^t` are parameters. Where a lemma needs monotonicity or positivity
  of these, it says so in its `requires`.
- Step-size selection is not modelled, because it only feeds `sqrt`,
  `log` and float-to-int truncation into the number of steps. The steps
  `k = T/N`, `h = sigma*sqrt(3k)` (src/trinomial_model.py:27-28, 75-76) and
  the AMM's `h`, `k`, `N` (src/amm.py:31-34) are parameters.
- The closed-form Black-Scholes pricing, the analytical barrier formulas
  and the driver scripts are outside the modelled core.
- `Option.__str__`, `__repr__` and the getter behind
  `is_trajectory_dependent` are not modelled, since they format text or read
  a field nothing sets. The property matters only as a name that a keyword
  argument may not assign.
- BarrierOptions.NewOption: a keyword argument named like a method
  (`payoff`, `revenue`) shadows that method in Python. The model keeps it
  as a plain attribute. Keyword names are required to be distinct and
  different from the named parameters, as Python itself guarantees.
- BarrierOptions.Lower, BarrierOptions.LowerChar: lower-case ASCII letters
  only. Python's `str.lower` also maps other Unicode letters. This does not
  change `ParseOptionType`: no non-ASCII character lower-cases to a letter of
  "call" or "put". The only non-ASCII character that lower-cases into ASCII
  is the Kelvin sign U+212A, which becomes `k`.
- BarrierOptions.Payoff: `S_T` and the trajectory are reals and a sequence
  of reals, not numpy arrays. The payoff uses the corrected "in" barrier
  semantics (see Findings).
- TrinomialModel.FullTrinomialModel: models lines 27-47 only and returns
  the trajectories and the payoff vector. The source never returns from
  this function. Its final call `option_prices(pu, pm, pd, r, payoff, N, k)`
  (src/trinomial_model.py:52) passes seven positional arguments to a routine
  that accepts at most six (utils/trinomial_utils.py:42), so Python raises
  `TypeError` on every call. `TrinomialModel.FullModelCallRaises` states
  this. The corrected trinomial roll-back is `TrinomialModel.PathPrices`,
  and `TrinomialModel.FullTrinomialPrices` is the model with that step in
  place (see Findings).
- TrinomialModel.FullTrinomialModel, BarrierOptions.Payoff: a
  `barrier_type` attribute that is not one of the four members makes the
  source's `payoff` fall through every branch and return `None`
  (utils/barrier_option.py:72-89). The list comprehension at
  src/trinomial_model.py:44-47 then stores `None` entries in the payoff
  vector. The model reports this case as `PayoffFailed(NoBranchTaken)`
  instead, because a `None` entry has no real value.
- TrinomialModel.FullTrinomialModel: the trajectories come from the
  corrected `AllTrajectories` (`3^N` rows), not the `2^N` rows the source
  builds (see Findings). As in the source, the payoff is
  `max(log S_T - log K, 0)`, in log units.
- TrinomialModel.FullTrinomialModel: the `H` and `K` read by the payoff come
  from the log copy. A missing `barrier_type` is reported through
  `PayoffFailed`.
- TrinomialModel.CondensedTrinomialModel: `option.H` and `option.K` are
  passed as numbers. The AttributeError of an option without them is not
  modelled.
- Amm.BarrierAmm: `option.H` and `option.K` are passed as numbers, `H` as
  `log H`. The source's mix of `log H + h/2` with the untransformed `K` at
  src/amm.py:78 is kept as written.
- `condensed_option_prices` is not part of this model. The AMM's coarse
  value grid `A0` is an input, constrained only by its shape and by its
  band cells being set. `Amm.BarrierAmm` ties the price to whatever `A0`
  holds.
- `next_multiple_of_4` is not part of this model. `Amm.NextMultipleOf4` is
  the smallest multiple of 4 strictly above its argument.
- In the AMM's stitched columns the discount runs over `new_k`, while the
  probabilities use `relative_k` (src/amm.py:63-71). The model keeps this as
  written.
- Division by zero, which yields `inf`/`nan` in numpy, is excluded by
  `requires`:
  - `h != 0` in the probability formulas;
  - `I != -1` in discounting and roll-back;
  - distinct prices at the two hedged rows in delta coverage.
- TrinomialUtils.DeltaCoverageHist: requires `n >= 1`. With `n = 0` the
  source asks numpy for a shape `2**-1`, a float, and raises.
- TrinomialUtils.OptionPricesDense, TrinomialUtils.OptionPricesHist: the
  payoff must have exactly one entry per terminal row. numpy's broadcasting
  of a single payoff value across the whole column is not modelled.

## Findings

| source | as written | input that shows it | evidently intended | confidence | as-written member | corrected member |
|---|---|---|---|---|---|---|
| utils/trinomial_utils.py:34-38 | The grid has `2**N` rows, and only the first `2**N` of the `3**N` product combinations are filled. | N=1, h≠0: the rows are `[S0, S0+h]` and `[S0, S0]`. The path to `S0-h` is missing, and for every N≥1 the all-down walk is missing. | One row for each of the `3**N` trinomial paths. | not executed | TrinomialUtils.AllDownMissing | TrinomialUtils.EveryPathEnumerated |
| src/trinomial_model.py:52 | `option_prices(pu, pm, pd, r, payoff, N, k)` passes 7 positional arguments to `option_prices(p, q, I, payoff, n, hist_dependent=False)` (utils/trinomial_utils.py:42), which accepts at most 6. | Any option and any N: the call raises `TypeError`, so the full model never returns. | Roll the payoff vector back through the trinomial tree of trajectories with `pu`, `pm`, `pd` and the one-step discount factor. | not executed | TrinomialModel.FullModelCallRaises | TrinomialModel.PathPrices |
| utils/barrier_option.py:77-89 | "In" barriers pay 0 when **all** points are on the barrier side, and pay otherwise. | Up-and-in call, H=110, K=90, path [100], S_T=100: the barrier is never reached, yet the payoff is 10. | An "in" option pays only if some point reaches the barrier, so that in + out = plain option. | not executed | BarrierOptions.InPaysWithoutReachingBarrier | BarrierOptions.InOutParity |
