# Pair-site joint-state IGC model

This project models `PSJSModel`, the pair-site joint-state model of IGCexpansion.
It describes a Markov process over joint states `(ia, ib, ja, jb)`: two paralogs `i`
and `j`, each observed at two sites `a` and `b`. Every coordinate is a nucleotide
index in 0..3. Two kinds of events change the state:

- point mutation, at the rates of a point-mutation rate table `Q_mut`;
- interlocus gene conversion (IGC), where one paralog copies a tract from the
  other. The tract covers one site or both, depending on the separation `n` of
  the two sites.

The model covers the object's parameter handling:

- slicing the parameter vector into its point-mutation and IGC parts;
- splitting the constraint map the same way;
- initialising the state-space shape.

It also covers the pure core:

- which transitions are compatible;
- the neighbour-coordinate lookup;
- the rate of a transition, or the share of it due to IGC;
- the brute-force listing of all compatible transitions over the 256 × 256 pairs
  of states, and the process definition assembled from it.

Modules:

- `JointStates`: nucleotides, joint states and the coordinate layout
  `2 * paralog + site`. Also the positions where two states differ, and the listing
  order of states (base-4 rank, the order of `itertools.product`).
- `Compatibility`: `is_transition_compatible` and its characterisation.
- `Adjacency`: `get_other_pos`.
- `IgcRates`: the two tract terms `IGC_0_not_n` and `IGC_0_and_n`, and
  `cal_IGC_transition_rate`, over exact `real` arithmetic. A division whose divisor
  is zero yields `NonFinite`, as numpy's nan/inf does.
- `ProcessDefinitions`: the listing `get_IGC_transition_rates_BF`, its order,
  soundness and completeness, and `get_process_definition`.
- `ForceMaps`: the constraint map split of `divide_force` and its round trip.
- `PsjsModels`: the `PsjsModel` class. Its fields are the ones the source updates in
  place, and its methods are the source's methods.

The two nested loops of the listing are methods (`ListRow` and
`PsjsModel.GetIgcTransitionRatesBF`). They are proved equal to the recursive
functions `RowEntries` and `EntriesBefore`, and the lemmas about the listing are
stated on those functions. The rate calculator is passed to the listing as a
function value on pairs of states.

The `sys.exit` branches for "no differing position" (lines 128-129) and for an
incompatible transition inside the rate calculator (lines 161-169) are dead code for
a compatible input. The model shows this with `assert false` in those branches of
`Compatibility.IsTransitionCompatible` and `IgcRates.TransitionRateParts`.

## Model

| member | source | states |
|---|---|---|
| JointStates.Coordinate | IGCexpansion/PSJSModel.py:115 | coordinate `2 * paralog + site` of a state `(ia, ib, ja, jb)` has that paralog and that site |
| JointStates.DifferingPositions | IGCexpansion/PSJSModel.py:117 | the list holds exactly the coordinates where the two states differ, in increasing order |
| JointStates.DifferingPositionsEmpty | IGCexpansion/PSJSModel.py:112-117 | no coordinate differs iff the two states are equal |
| JointStates.DifferingPositionsSingle | IGCexpansion/PSJSModel.py:117 | a change of coordinate `pos` alone gives the position list `[pos]` |
| JointStates.RankOrder | IGCexpansion/PSJSModel.py:181-182 | base-4 rank order of equal-length tuples is their lexicographic order, both directions |
| JointStates.RankAppend | IGCexpansion/PSJSModel.py:181-182 | the rank of a concatenated pair of tuples is the rank of the first scaled by 4^len plus the rank of the second |
| JointStates.StateAtIndex | IGCexpansion/PSJSModel.py:181-182 | the k-th state of the product enumeration has index k |
| JointStates.IndexStateAt | IGCexpansion/PSJSModel.py:181-182 | every state is the state at its own index, so the enumeration visits every state |
| JointStates.RankOfState | IGCexpansion/PSJSModel.py:181-182 | the listing index of a state is its base-4 rank |
| Compatibility.IsTransitionCompatible | IGCexpansion/PSJSModel.py:106-129 | a compatible transition changes the state, in one or two coordinates |
| Compatibility.SelfTransitionIncompatible | IGCexpansion/PSJSModel.py:112-113 | a self-transition is never compatible |
| Compatibility.ManyChangesIncompatible | IGCexpansion/PSJSModel.py:117-119 | a change in more than two coordinates is never compatible |
| Compatibility.SingleChangeCompatible | IGCexpansion/PSJSModel.py:126-127 | every change of exactly one coordinate is compatible |
| Compatibility.TwoChangesCompatibleIff | IGCexpansion/PSJSModel.py:120-125 | a two-coordinate change is compatible iff one paralog copies both sites of the other |
| Compatibility.CompatibleCharacterization | IGCexpansion/PSJSModel.py:106-129 | compatible iff a one-coordinate change or a whole-tract copy, both directions |
| Adjacency.OtherPositions | IGCexpansion/PSJSModel.py:207-218 | each table entry is the same-paralog-other-site, other-paralog-same-site and other-paralog-other-site coordinate of `pos` |
| Adjacency.NeighboursArePermutation | IGCexpansion/PSJSModel.py:207-216 | `pos` and its three neighbours are 0, 1, 2, 3, each once |
| Adjacency.OtherParalogInvolution | IGCexpansion/PSJSModel.py:207-216 | going to the other paralog twice returns to `pos` |
| IgcRates.Pow | IGCexpansion/PSJSModel.py:147-148 | x^n by repeated multiplication, the `**` of the tract terms; its bounds are stated by `PowBounds` |
| IgcRates.Igc0AndN | IGCexpansion/PSJSModel.py:148 | IGC_0_and_n = IGC_init / IGC_p * (1 - IGC_p)^n, the rate of tracts that reach the other site; its properties are stated by the `TractTerms` lemmas |
| IgcRates.Igc0NotN | IGCexpansion/PSJSModel.py:147 | IGC_0_not_n is IGC_init / IGC_p minus IGC_0_and_n: the tracts that stop before the other site |
| IgcRates.Divide | IGCexpansion/PSJSModel.py:172 | the quotient is finite iff the divisor is non-zero, and then it times the divisor is the dividend |
| IgcRates.TransitionRateParts | IGCexpansion/PSJSModel.py:142-169 | a two-coordinate change has no point-mutation part |
| IgcRates.CalIgcTransitionRate | IGCexpansion/PSJSModel.py:132-177 | the rate is always finite; the IGC share is finite iff the total rate is non-zero |
| IgcRates.SingleSiteIgcTerm | IGCexpansion/PSJSModel.py:153-160 | the IGC term of a one-coordinate change, by the layout; its use in the rate is stated by `SingleCoordinateParts` and `SingleCoordinateRate` |
| IgcRates.SingleCoordinateParts | IGCexpansion/PSJSModel.py:149-160 | a one-coordinate change splits into `Q_mut[from[pos], to[pos]]` and the IGC term the three-way case split selects |
| IgcRates.RateOfParts | IGCexpansion/PSJSModel.py:171-174 | the rate is the sum of the two parts, and the share is the IGC part over that sum |
| IgcRates.SingleCoordinateRate | IGCexpansion/PSJSModel.py:149-174 | rate = `Q_mut[from[pos], to[pos]]` + q_IGC: both tract terms, IGC_0_not_n alone, or 0, by the coordinate equalities; the share is q_IGC over that rate |
| IgcRates.TractCopyRate | IGCexpansion/PSJSModel.py:161-172 | a whole-tract copy has rate IGC_0_and_n; its share is 1 when that is non-zero and undefined otherwise |
| IgcRates.PartsNonNegative | IGCexpansion/PSJSModel.py:147-165 | with non-negative off-diagonal `Q_mut` and 0 < IGC_p <= 1, both parts are non-negative |
| IgcRates.ProportionInUnitInterval | IGCexpansion/PSJSModel.py:171-172 | when IGC_p <= 1 and the off-diagonal `Q_mut` rates are non-negative, the IGC share lies in [0, 1], and is undefined only when the rate is 0 |
| IgcRates.TractTermsSum | IGCexpansion/PSJSModel.py:147-148 | IGC_0_not_n + IGC_0_and_n == IGC_init / IGC_p for every separation n |
| IgcRates.TractTermsScaled | IGCexpansion/PSJSModel.py:147-148 | both tract terms are IGC_init / IGC_p times (1 - IGC_p)^n or its complement |
| IgcRates.PowBounds | IGCexpansion/PSJSModel.py:147-148 | a power of a number in [0, 1] stays in [0, 1] and shrinks with the exponent |
| IgcRates.TractTermsBounded | IGCexpansion/PSJSModel.py:147-148 | when IGC_p <= 1, both tract terms lie in [0, IGC_init / IGC_p] |
| IgcRates.TractTermsStep | IGCexpansion/PSJSModel.py:147-148 | when IGC_p <= 1, one more unit of separation lowers IGC_0_and_n and raises IGC_0_not_n |
| IgcRates.TractTermsMonotone | IGCexpansion/PSJSModel.py:147-148 | when IGC_p <= 1, the bounds and the one-step monotonicity together |
| IgcRates.Bernoulli | IGCexpansion/PSJSModel.py:148 | (1 - p)^n (1 + n p) <= 1 for 0 <= p <= 1, the bound behind the decay of IGC_0_and_n |
| IgcRates.FarTractTermSmall | IGCexpansion/PSJSModel.py:148 | when IGC_p <= 1, IGC_0_and_n < eps once n exceeds (IGC_init / IGC_p) / (IGC_p * eps) |
| IgcRates.TractTermsLimit | IGCexpansion/PSJSModel.py:147-148 | when IGC_p <= 1, for distant sites IGC_0_and_n tends to 0 and IGC_0_not_n to IGC_init / IGC_p, with an explicit bound on n |
| IgcRates.TractProbabilityAboveOne | IGCexpansion/PSJSModel.py:145-174 | without IGC_p <= 1 the bounds fail: IGC_init = 1, IGC_p = 3, n = 2, `Q_mut` = 0.5 give IGC_0_not_n = -1, and for (0, 1, 2, 3) -> (2, 1, 2, 3) rate -0.5 and IGC share 2 |
| ProcessDefinitions.RowEntries | IGCexpansion/PSJSModel.py:182-184 | the compatible transitions out of one row state to the first j column states, in product order; stated by the `RowEntries` lemmas |
| ProcessDefinitions.EntriesBefore | IGCexpansion/PSJSModel.py:181-184 | the rows of the first i row states, in product order; stated by the `EntriesBefore` lemmas |
| ProcessDefinitions.TransitionRatesBF | IGCexpansion/PSJSModel.py:179-184 | all 256 rows under the rate calculator; stated by `ListedTransitionIsRated`, `CompatibleTransitionsListed` and `ListingIsLexicographic` |
| ProcessDefinitions.RowEntriesSound | IGCexpansion/PSJSModel.py:182-184 | every entry of a row is a compatible transition out of that row state, carrying its value |
| ProcessDefinitions.EntriesBeforeSound | IGCexpansion/PSJSModel.py:181-184 | every entry of the first i rows is a compatible transition carrying its value |
| ProcessDefinitions.ListedTransitionIsRated | IGCexpansion/PSJSModel.py:179-184 | every yielded triple is a compatible transition with the `cal_IGC_transition_rate` value |
| ProcessDefinitions.RowEntriesComplete | IGCexpansion/PSJSModel.py:182-184 | every compatible transition to an earlier column state is in the row |
| ProcessDefinitions.EntriesBeforeComplete | IGCexpansion/PSJSModel.py:181-184 | every compatible transition out of an earlier row state is in the first i rows |
| ProcessDefinitions.CompleteInOwnRow | IGCexpansion/PSJSModel.py:181-184 | a compatible transition out of row state i - 1 is among the first i rows |
| ProcessDefinitions.CompatibleTransitionsListed | IGCexpansion/PSJSModel.py:179-184 | every compatible transition is yielded with its rate |
| ProcessDefinitions.ConcatIncreasing | IGCexpansion/PSJSModel.py:181-182 | concatenating two increasing listings, the first wholly before the second, keeps the order |
| ProcessDefinitions.RowEntriesIncreasing | IGCexpansion/PSJSModel.py:182 | a row lists its column states in increasing order |
| ProcessDefinitions.EntriesBeforeIncreasing | IGCexpansion/PSJSModel.py:181-182 | the listing is strictly increasing in (row index, column index) |
| ProcessDefinitions.ListingIsLexicographic | IGCexpansion/PSJSModel.py:179-184 | the listing is strictly lexicographic in (from, to), so each pair appears at most once |
| ProcessDefinitions.ProcessDefinitionOf | IGCexpansion/PSJSModel.py:195-205 | the three lists of a listing, the third named `weights` for IGC shares and `transition_rates` otherwise; stated by `ProcessDefinitionSound` and `ProcessDefinitionComplete` |
| ProcessDefinitions.ListRow | IGCexpansion/PSJSModel.py:182-184 | the inner loop yields exactly the row of the listing |
| ProcessDefinitions.CollectProcessDefinition | IGCexpansion/PSJSModel.py:186-205 | the append loop yields the three parallel lists of the entries, the third named by `proportion` |
| ProcessDefinitions.ProcessDefinitionSound | IGCexpansion/PSJSModel.py:186-205 | `weights` iff `proportion`; three lists of equal length; entry k is compatible and carries `cal_IGC_transition_rate` of its pair |
| ProcessDefinitions.ProcessDefinitionComplete | IGCexpansion/PSJSModel.py:179-205 | every compatible pair of states appears in the process definition |
| ForceMaps.PmPart | IGCexpansion/PSJSModel.py:80-82 | the constraints whose key is below the point-mutation count; stated by `PmPartInsert` and `ForceSplitRoundTrip` |
| ForceMaps.IgcPart | IGCexpansion/PSJSModel.py:83-84 | the other constraints with their keys shifted down by the count; stated by `InIgcPart`, `IgcPartInsert` and `ForceSplitRoundTrip` |
| ForceMaps.InIgcPart | IGCexpansion/PSJSModel.py:80-84 | IGC key k is constraint key k + count, with its value |
| ForceMaps.PmPartInsert | IGCexpansion/PSJSModel.py:81-82 | recording a key adds it to the point-mutation part exactly when it is below the count |
| ForceMaps.IgcPartInsert | IGCexpansion/PSJSModel.py:83-84 | recording a key adds it, shifted, to the IGC part exactly when it is at least the count |
| ForceMaps.InShiftedIgcPart | IGCexpansion/PSJSModel.py:83-84 | shifting the IGC part back gives the constraints at or above the count |
| ForceMaps.ShiftedIgcPartPointwise | IGCexpansion/PSJSModel.py:83-84 | the shifted-back IGC part is the constraints at or above the count, key by key |
| ForceMaps.MergeByKeys | IGCexpansion/PSJSModel.py:80-84 | two maps that cover disjoint key ranges of the constraints and agree with them add up to the constraints |
| ForceMaps.ForceSplitRoundTrip | IGCexpansion/PSJSModel.py:78-84 | the two parts have disjoint keys and, with the IGC keys shifted back, rebuild the constraint map |
| ForceMaps.SplitForce | IGCexpansion/PSJSModel.py:78-84 | the loop over the keys builds exactly the point-mutation part and the shifted IGC part |
| PsjsModels.ParameterCountsOf | IGCexpansion/PSJSModel.py:39-50 | 4 point-mutation and 2 IGC parameters iff HKY and "One rate"; otherwise the error names the first unsupported model |
| PsjsModels.ShapeAlphabets | IGCexpansion/PSJSModel.py:96-103 | the shape of 2 * n_js equal alphabets holds one alphabet size (none when n_js = 0) |
| PsjsModels.PsjsModel.Raw | IGCexpansion/PSJSModel.py:19-33 | the fields as the constructor sets them before the submodels are initialised |
| PsjsModels.PsjsModel.Create | IGCexpansion/PSJSModel.py:19-35 | a model is built iff the models are supported, the vector has 6 entries and n_js >= 1; it is then valid; otherwise the first failing check is reported |
| PsjsModels.PsjsModel.IgcParams | IGCexpansion/PSJSModel.py:145 | IGC_init and IGC_p, read from the IGC slice (on the natural scale, see below) |
| PsjsModels.PsjsModel.UnpackXJs | IGCexpansion/PSJSModel.py:38-55 | unsupported models change nothing; otherwise `x_pm` is the first 4 entries and `x_IGC` the rest, stored before the length check, which fails unless there are 6 |
| PsjsModels.PsjsModel.UpdateByXJs | IGCexpansion/PSJSModel.py:57-59 | a 6-vector is stored, re-sliced and the rate table rebuilt, keeping the model valid; another length is reported with the rate table unchanged |
| PsjsModels.PsjsModel.DivideForce | IGCexpansion/PSJSModel.py:62-91 | no constraints give (None, None) before any check; unsupported models fail; otherwise keys < 4 go to the point-mutation part, keys >= 4 shifted by -4 to the IGC part, an empty part becoming None |
| PsjsModels.PsjsModel.InitModels | IGCexpansion/PSJSModel.py:93-104 | succeeds iff the models are supported, the vector has 6 entries and n_js >= 1, leaving the model valid; otherwise reports the first failing check |
| PsjsModels.PsjsModel.GetIgcTransitionRatesBF | IGCexpansion/PSJSModel.py:179-184 | the two nested loops yield exactly the listing of compatible transitions and their values |
| PsjsModels.PsjsModel.GetProcessDefinition | IGCexpansion/PSJSModel.py:186-205 | the result is the process definition of that listing, with the properties proved in `ProcessDefinitions` |

## Left out

- `np.exp` of the log-scale IGC parameters (line 145) is not modelled. The IGC slice
  holds `IGC_init` and `IGC_p` on the natural scale. The rate functions require both
  to be positive, the range of `exp`.
- IGC_p is not bounded by 1 in the source: it is `exp` of a free parameter (line 145).
  For IGC_p > 1 the term IGC_0_not_n can be negative, so rates can be negative and
  IGC shares can leave [0, 1]; `IgcRates.TractProbabilityAboveOne` gives such an
  input. The bounds on the tract terms and on the share (`TractTermsBounded`,
  `TractTermsStep`, `TractTermsMonotone`, `TractTermsLimit`, `FarTractTermSmall`,
  `PartsNonNegative`, `ProportionInUnitInterval`) are therefore proved only for
  IGC_p <= 1, the range in which IGC_p is a probability.
- Floating point is not modelled: the rates use exact `real` arithmetic. Division by a
  zero total gives `NonFinite`, which stands for numpy's nan and inf.
- `PMModel` is an external class and is not part of this model. Its construction and
  `update_by_x_pm` (lines 59 and 101) become a function value from the point-mutation
  slice and constraints to a rate table `Q_mut`. That function is held by the model
  object.
- `PMModel.supported` is not part of this model either. It is taken to be `["HKY"]`,
  the only model the slicing code (lines 42-45) handles.
- `sys.exit` and failed `assert`s become error results (`ConfigError`) in the
  parameter-handling methods. In the pure functions they become preconditions
  (compatibility for the rate, a valid model with `n_js = 2` for the listing).
- The length asserts on states and on the shape (lines 108-111) become the
  `JointState` type (four coordinates in 0..3). The listing methods require
  `n_js = 2`.
- The listing is a generator in the source, which yields lazily. The model
  returns the whole sequence at once, in the same order.
- `deepcopy` of the state tuples (lines 191-192) is not modelled: states are immutable
  values here.
- The unused `n_orlg` field, the unused imports and the demo block (lines 221 onwards)
  are not modelled.
- The constraint split visits the keys of the constraint map in an unspecified
  order. The source visits them in dict order, and the result does not
  depend on the order.
- `IGC_force` is stored (line 102) but nothing in this file reads it. The model stores
  it in the same way.
