# gosom in Dafny

A verified model of the engine of gosom, a Go implementation of the
self-organizing map (SOM). A SOM is a rectangular lattice of nodes, and each
node carries a weight vector. Training repeats steps. A step draws one input
row from a data matrix and finds the node closest to it, the winner. It then
pulls every node within twice the current radius of the winner, measured on
the grid, toward the input. The pull is the neighbourhood kernel times the
learning rate, and both shrink with a cooling schedule. A trained map
classifies an input by the weights of its closest node, and interpolates one
by the plain or kernel-weighted mean of its K nearest nodes.

The model follows the Go packages file by file:

- `gomath.dfy` (`GoMath`): `math.Abs`, `math.Min` and `math.Max` on reals.
  `MathLib` carries `Sqrt`, `Exp`, `Log` and `Pow` as parameters. Its
  `Valid()` states the facts the proofs use: sqrt is non-negative and
  squares back, `Pow(x, 2) == x * x`, and exp is positive.
- `floats.dfy` (`Floats`): the gonum `floats.Min` and `floats.Max` on a
  non-empty sequence.
- `utils.dfy` (`Utils`): `Min`, `Max` and `Avg` of utils.go.
- `functions.dfy` (`Functions`): functions/functions.go. It holds the two
  distances, the four cooling schedules, the four neighbourhood kernels and
  the three dispatch-by-name functions, which return 0.0 for unknown names.
- `legacy_functions.dfy` (`LegacyFunctions`): the older functions.go
  snapshot. Its distances are proved equal to the current ones.
- `node.dfy` (`Nodes`): the `Node` class with `Position` and `Weights`.
  `Adjust` updates the weights in place.
- `lattice.dfy` (`Lattices`):
  - `NewLattice` builds the row-major grid.
  - `Sort` copies the lattice into an array and sorts it through the
    `latticeSorter` (a `LatticeSorter` class with `Len`, `Swap` and `Less`).
- `matrix.dfy` (`Matrices`): the data `Matrix`. Its cells are
  `Num(real) | Missing`, the model of `NaN`. It keeps per-column and global
  minimums and maximums that skip missing cells, and the `NaNs` flag.
- `dataset.dfy` (`DataSets`): the older `DataSet` and its min/max loop.
- `som_model.dfy` (`SomModel`): value-level specifications that the SOM's
  methods are proved against:
  - the argmin and tie set of `Closest`;
  - the new weights after one `Step`, and after the first n steps of
    `Train`;
  - the means computed by `Interpolate` and `WeightedInterpolate`.
- `som.dfy` (`Som`): the `SOM` class and its methods.
- `training.dfy` (`Trainings`): the `Training` schedule. It blends initial
  and final learning rate and radius through the cooling factor.

Randomness is passed in as arguments:

- the tie pick in `Closest`;
- the row picks of `RandomRow`, `RandomDataPoint`, `Step`, `Train` and
  `InitializeWithDataPoints`;
- the uniform draws of `InitializeWithRandomValues`.

`float64` is modelled as `real`. The transcendental functions come in through
a `MathLib` value.

## Model

| member | source | states |
|---|---|---|
| GoMath.Abs | functions/functions.go:55 | the result is non-negative and equals x or -x |
| GoMath.Min | dataset.go:55 | the result is at most both arguments and equals one of them |
| GoMath.Max | dataset.go:56 | the result is at least both arguments and equals one of them |
| GoMath.SqrtOrder | functions/functions.go:22 | under a valid MathLib, sqrt preserves and reflects the strict order and equality of non-negative reals |
| GoMath.SqrtOfOneAndZero | functions/functions.go:22 | sqrt maps 1 to 1 and 0 to 0 |
| Floats.Min | matrix.go:42 | the minimum of a non-empty sequence is an element and at most every element |
| Floats.Max | matrix.go:43 | the maximum of a non-empty sequence is an element and at least every element |
| Utils.Min | utils.go:3-8 | the result is at most a and b and equals one of them |
| Utils.Max | utils.go:10-15 | the result is at least a and b and equals one of them |
| Utils.MinMaxCommute | utils_test.go:10-18 | Min and Max give the same result for both argument orders |
| Utils.Avg | utils.go:17-25 | the loop's result is the sum of a non-empty vector divided by its length |
| Utils.SumBounds | utils.go:17-25 | a sum of values in [lo, hi] lies in [n·lo, n·hi] |
| Utils.AvgWithin | utils.go:17-25 | the average of values in [lo, hi] lies in [lo, hi] |
| Utils.AvgBetweenExtremes | utils.go:17-25 | the average of a non-empty vector lies between its least and its greatest element |
| Utils.AvgExample | utils_test.go:20-22 | the average of [0, 1, 2] is 1 |
| Functions.Min | functions/functions.go:127-132 | the result is at most a and b and equals one of them |
| Functions.SumOfSquares | functions/functions.go:14-20 | the sum of squared differences over the first n entries is non-negative |
| Functions.SumOfAbs | functions/functions.go:25-31 | the sum of absolute differences over the first n entries is non-negative |
| Functions.EuclideanDistance | functions/functions.go:14-23 | the loop's result is sqrt of the sum of squared differences over the shared prefix of the two inputs |
| Functions.ManhattanDistance | functions/functions.go:25-34 | the loop's result is the sum of absolute differences over the shared prefix of the two inputs |
| Functions.SumOfSquaresSymmetric | functions/functions.go:19 | the squared sum is the same with the two inputs exchanged |
| Functions.SumOfAbsSymmetric | functions/functions.go:30 | the absolute sum is the same with the two inputs exchanged |
| Functions.SumsVanishOnIdentical | functions/functions.go:14-34 | both sums are 0 for identical inputs |
| Functions.SumsDependOnPrefix | functions/functions.go:18-19 | both sums over n entries depend only on the first n entries of each input |
| Functions.DistanceSymmetry | functions/functions.go:14-34 | both distances are symmetric and 0 from a vector to itself |
| Functions.DistancesIgnoreTail | functions/functions.go:16 | both distances ignore the entries beyond the shorter input |
| Functions.EuclideanOrderIsSquaredOrder | functions/functions.go:22 | Euclidean distances compare, both strictly and by equality, exactly as their squared sums do |
| Functions.LinearCoolingShape | functions/functions.go:36-38 | linear cooling is 1 at 0 and 0 at 1, is non-increasing, and maps [0, 1] into [0, 1] |
| Functions.HardCoolingShape | functions/functions.go:49-52 | hard cooling is 1 at 0, strictly decreasing for p ≥ 0, in (0, 1] on [0, 1], and in (0, 0.5) at 1 |
| Functions.CoolingEndpoints | functions/functions.go:36-52 | all four schedules start at 1; linear and soft end at 0, and medium and hard end below 0.5 |
| Functions.BubbleIsStep | functions/functions.go:54-62 | bubble is 1 iff &#124;d&#124; < 1 and 0 iff &#124;d&#124; ≥ 1 |
| Functions.ConeShape | functions/functions.go:64-72 | cone is 1 - &#124;d&#124; inside the unit, 0 outside it, lies in [0, bubble(d)], and is even in d |
| Functions.GaussianPositive | functions/functions.go:74-78 | the Gaussian kernel is positive everywhere |
| Functions.DistanceOf | functions/functions.go:101-110 | under a valid MathLib, every named distance is non-negative |
| Functions.Distance | functions/functions.go:101-110 | the dispatcher returns the named distance, and 0 for other names |
| Functions.UnknownNamesGiveZero | functions/functions.go:86-125 | CoolingFactor, Distance and NeighborhoodInfluenceFactor give 0.0 for an unrecognised name |
| Functions.KernelExamples | functions/functions_test.go:10-58 | the distances of the tests (sqrt 2, 1, 2, 1), the cooling thresholds at progress 0 and 1 for all four schedules and at 0.5 for linear and hard, and positive bubble, cone and Gaussian influence at 0.5 |
| LegacyFunctions.EuclideanDistance | functions.go:14-23 | the older loop computes the same Euclidean distance as the current one |
| LegacyFunctions.ManhattanDistance | functions.go:25-34 | the older loop computes the same Manhattan distance as the current one |
| Nodes.Trunc | node.go:19 | int() truncation: within 1 toward zero of its argument |
| Nodes.TruncOfInteger | node.go:12 | truncating a whole number gives it back |
| Nodes.Adjusted | node.go:28-34 | the weights keep their length; entry i below min(len(input), len(weights)) becomes w[i] + (input[i] - w[i])·influence, and later entries are unchanged |
| Nodes.Node.constructor | node.go:10-15 | a new node has position [x, y], d zero weights, and X() = x, Y() = y |
| Nodes.Node.X | node.go:18-20 | X truncates the first coordinate |
| Nodes.Node.Y | node.go:23-25 | Y truncates the second coordinate |
| Nodes.Node.Adjust | node.go:28-34 | the in-place loop leaves the weights equal to Adjusted of the old weights |
| Nodes.AdjustExtremes | node.go:32 | influence 1 moves updated entries onto the input; influence 0, or an input equal to the weights, changes nothing |
| Nodes.AdjustStaysBetween | node.go:32 | with influence in [0, 1], each updated weight lies between its old value and the input |
| Nodes.AdjustWithin | node.go:28-34 | with influence in [0, 1], weights and input within [lo, hi] keep the weights within [lo, hi] |
| Nodes.AdjustExamples | node_test.go:10-44 | the four Adjust tests' expected weights |
| Lattices.RowMajor | lattice.go:14 | index i·width + j splits back into row i and column j |
| Lattices.NewLattice | lattice.go:9-20 | the lattice has width·height fresh, distinct nodes; node k is at [k mod width, k div width] with d zero weights |
| Lattices.NewRow | lattice.go:13-16 | row i holds width fresh, distinct nodes at [j, i] with d zero weights |
| Lattices.Keys | lattice.go:50-52 | the keys are the nodes' weights, in lattice order |
| Lattices.KeyOrderIsStrictWeak | lattice.go:50-52 | a comparator "key(a) < key(b)" is a strict weak order |
| Lattices.SinkStep | lattice.go:46-52 | swapping an element with a greater left neighbour keeps the insertion invariant one place further left |
| Lattices.SinkDone | lattice.go:46-52 | once the sinking element is not less than its left neighbour, the prefix is sorted |
| Lattices.LatticeSorter.constructor | lattice.go:27-30 | the sorter holds the given array and comparator |
| Lattices.LatticeSorter.Swap | lattice.go:46-48 | exactly entries i and j are exchanged, nothing else changes, and the multiset of nodes is kept |
| Lattices.Insert | lattice.go:32 | sinking entry i keeps the multiset of nodes and extends the sorted prefix by one |
| Lattices.SinkOnce | lattice.go:32 | one swap of the sinking entry keeps the multiset and the insertion invariant |
| Lattices.InsertionSort | lattice.go:32 | the array ends as a permutation of its start, ordered by the comparator |
| Lattices.Sort | lattice.go:23-35 | the result is a permutation of the lattice, ordered so that no later node is less than an earlier one; the receiver sequence is a value and is unchanged |
| Matrices.Matrix.Column | matrix.go:57-65 | the column has Rows entries, entry i is row i's cell in that column, and rows beyond Data stay 0 |
| Matrices.Matrix.RandomRow | matrix.go:68-70 | the picked row is a row of the data |
| Matrices.Matrix.SubMatrix | matrix.go:73-82 | the result keeps the rows, has length columns, row i is Data[i][start..start+length), and its statistics are consistent |
| Matrices.SubRows | matrix.go:76-79 | every row is cut to the column range [start, start+length) |
| Matrices.SubRowsExamples | matrix_test.go:49-71 | the two SubMatrix tests' expected data |
| Matrices.ExtendStats | matrix.go:38-43 | the statistics of one more column extend the per-column invariant |
| Matrices.ExtendMissing | matrix.go:45-47 | the missing-cell flag over n + 1 columns is the flag over n columns or a missing cell in column n |
| Matrices.ClearNaNs | matrix.go:40 | the cleared column holds exactly the column's numbers |
| Matrices.ColumnStats | matrix.go:39-43 | for a column with a number, the minimum and maximum of its numbers bound every number of the column and are attained |
| Matrices.NewMatrix | matrix.go:28-54 | Data, Rows and Columns are stored; per-column minimums and maximums bound and are attained by the numbers; NaNs iff a cell is missing; Minimum and Maximum are the min of Minimums and the max of Maximums |
| Matrices.GlobalBounds | matrix.go:50-51 | Minimum and Maximum bound every number of the matrix and are both attained |
| Matrices.GlobalBoundsHold | matrix.go:50-51 | every number of the matrix lies between Minimum and Maximum |
| Matrices.GlobalMinimumAttained | matrix.go:50 | some cell holds the global minimum |
| Matrices.GlobalMaximumAttained | matrix.go:51 | some cell holds the global maximum |
| Matrices.SliceStatistics | matrix_test.go:22-31 | the statistics of the test slice: rows 2, minimums [0, 0.5, 0], maximums [1, 0.5, 1], minimum 0, maximum 1, no NaNs |
| Matrices.NothingMissingInSlice | matrix_test.go:30 | the test slice has no missing cell |
| Matrices.SliceColumns | matrix_test.go:26-27 | the invariant determines the slice's per-column minimums and maximums |
| Matrices.SliceNaNStatistics | matrix_test.go:33-42 | the statistics of the slice with missing cells: minimums and maximums [1, 0.5, 1], minimum 0.5, maximum 1, NaNs set |
| Matrices.SliceNaNColumns | matrix_test.go:37-38 | the invariant determines the per-column statistics of the slice with missing cells |
| Matrices.MinMaxOfThree | matrix.go:50-51 | the minimum and maximum of three values are nested two-way min and max |
| Matrices.TwoRowColumn | matrix.go:42-43 | in a two-row column the statistics bound both numbers and each is attained by one of them |
| DataSets.DataSet.RandomDataPoint | dataset.go:65-67 | the picked point is a row of the data |
| DataSets.ScanStep | dataset.go:55-58 | one cell of the scan keeps the per-dimension and global min/max invariant |
| DataSets.ScanNextRow | dataset.go:53-54 | finishing a row moves the scan invariant to the next row |
| DataSets.ScanRow | dataset.go:54-59 | the inner loop over one row's dimensions establishes the invariant for the whole row |
| DataSets.ScanComplete | dataset.go:47-62 | after the last row the invariant means the data set summarizes its data |
| DataSets.NewDataSet | dataset.go:38-63 | Data, Length and Dimensions are stored; Minimums[i] ≤ Data[j][i] ≤ Maximums[i], each attained; Minimum and Maximum bound every value and are attained |
| DataSets.SliceStatistics | dataset_test.go:15-25 | the statistics of the test slice |
| DataSets.SliceExtremes | dataset_test.go:23-24 | minimum 0 and maximum 1 for the test slice |
| DataSets.SliceDimension | dataset_test.go:21-22 | per dimension, the statistic is the min and max of the two rows |
| SomModel.Distances | som.go:72 | entry k is the distance from the input to weight vector k |
| SomModel.Ties | som.go:74-81 | the tie list holds indices whose distance equals t |
| SomModel.ClosestIndex | som.go:84-89 | the chosen index is a valid node index |
| SomModel.ClosestIsNearest | som.go:64-90 | the chosen node is in the tie set of the least distance, and no node is nearer |
| SomModel.ClosestSelects | som.go:84-89 | the tie set is non-empty, and the choice is its only element or the one named by the pick |
| SomModel.TiesComplete | som.go:78-80 | every index at distance t is in the tie list |
| SomModel.TiesAscending | som.go:70-81 | the tie list is in lattice order |
| SomModel.TiesExtend | som.go:78-80 | scanning one more node appends it to the ties iff it is at distance t |
| SomModel.TiesNone | som.go:74-81 | no node at distance t means no ties |
| SomModel.ScanStep | som.go:74-81 | a nearer node resets the ties to itself, an equal one is appended, a farther one changes nothing, and the running minimum tracks the prefix minimum |
| SomModel.MinExtend | som.go:74-77 | the minimum of a longer prefix is the min of the old minimum and the new entry |
| SomModel.MinCharacterized | som.go:68-77 | x is the minimum iff x is an element and at most every element |
| SomModel.TiesCorrespond | som.go:74-81 | distances tied where other distances are tied give the same tie list |
| SomModel.SquaredDistances | functions/functions.go:14-20 | entry k is the squared Euclidean sum from the input to weight vector k |
| SomModel.ClosestIgnoresSquareRoot | som.go:64-90 | under Euclidean distance, Closest picks the same node from squared distances |
| SomModel.ClosestExample | som_test.go:69-75 | on the 3×3 test lattice, the closest node to [0, 1] is node 4 |
| SomModel.Values | som.go:121 | a row with no missing cell is its numbers |
| SomModel.StepWeights | som.go:126-138 | Step keeps the number of nodes |
| SomModel.DoubledRadiusHarmless | som.go:130-136 | for bubble and cone, the cut-off at 2·radius acts like one at radius |
| SomModel.CoolingWithinUnit | functions/functions.go:36-52 | linear and hard cooling map [0, 1] into [0, 1] |
| SomModel.KernelWithinUnit | functions/functions.go:54-72 | bubble and cone lie in [0, 1] |
| SomModel.StepWithinBounds | som.go:109-138 | with bounded schedules and a rate in [0, 1], a step keeps weights and input within [lo, hi] |
| SomModel.LearningRateWithinUnit | som.go:111-114 | the learning rate lies between 0 and the initial learning rate |
| SomModel.InfluencedWithinBounds | som.go:131-137 | one node's update keeps its weights within the bounds of the old weights and the input |
| SomModel.StepWithoutLearning | som.go:114-136 | with learning rate 0 no weight changes |
| SomModel.StepMovesWinner | som.go:126-137 | the winner is adjusted by the full learning rate |
| SomModel.TrainStepDefined | som.go:141-145 | every step of a defined training run is defined |
| SomModel.TrainWeights | som.go:141-145 | training keeps the number of nodes |
| SomModel.TrainWeightsNext | som.go:142-143 | n + 1 steps are n steps followed by Step with the n-th row and tie pick |
| SomModel.TrainTrace | som.go:141-145 | the states of training form a trace starting at the initial weights |
| SomModel.TraceNext | som.go:143 | each state of the trace is Step applied to the one before it |
| SomModel.TrainWithinBounds | som.go:141-145 | with bounded schedules, data within [lo, hi] keeps the weights within [lo, hi] throughout training |
| SomModel.TraceWithinBounds | som.go:141-145 | every state of the trace stays within [lo, hi] |
| SomModel.RowWithinBounds | matrix.go:68-70 | the numbers of a picked row lie within bounds that hold for all numbers |
| SomModel.Mean | som.go:158-167 | the mean has one entry per dimension |
| SomModel.ColumnSumBounds | som.go:158-162 | a column sum of n values in [lo, hi] lies in [n·lo, n·hi] |
| SomModel.MeanWithin | som.go:153-170 | each entry of the mean lies within the bounds of the neighbours' weights |
| SomModel.MeanOfOne | som.go:153-170 | the mean of one neighbour is its weights |
| SomModel.NeighborWeights | som.go:179-183 | there is one kernel weight per neighbour |
| SomModel.WeightedAverage | som.go:186-196 | the weighted average has one entry per dimension |
| SomModel.KernelNonNegative | functions/functions.go:54-78 | bubble, cone and Gaussian are non-negative |
| SomModel.NeighborWeightsNonNegative | som.go:180-183 | the neighbour weights of those kernels are non-negative |
| SomModel.WeightedColumnSumBounds | som.go:186-191 | with non-negative factors, the weighted column sum lies within the factor sum times the bounds |
| SomModel.WeightedMeanWithin | som.go:172-199 | each entry of a weighted interpolation lies within the bounds of the neighbours' weights |
| SomModel.WeightedAverageWithin | som.go:194-196 | a weighted average with a non-zero factor sum lies within the bounds |
| SomModel.GoCopy | som.go:149 | Go's copy: the destination keeps its length and takes the source's entries where both have one |
| SomModel.Zeros | som.go:148 | make: n zeros |
| Som.PositionsOf | som.go:128 | the positions of the nodes, in lattice order |
| Som.Cells | som.go:241 | a row of numbers as matrix cells |
| Som.RangedWeight | som.go:50-51 | a draw in [0, 1] gives a weight in [min, max] |
| Som.RandomWeightLeavesRange | som.go:50-51 | for min 1, max 2 and draw 0 the source's formula gives a weight below min, while the ranged one gives 1 |
| Som.RandomWeightIgnoresMinimum | som.go:50-51 | the source's formula is max·draw, which ignores the minimum |
| Som.SortedPrefixIsNearestOf | som.go:92-106 | the first K of a copy sorted by distance are K nearest nodes in non-decreasing order |
| Som.SOM.NewSOM | som.go:23-31 | width and height stored, no nodes, and the defaults "linear", "euclidean" and "cone" |
| Som.SOM.D | som.go:221-223 | the distance named by the SOM's DistanceFunction |
| Som.SOM.NodeIsAtPosition | som.go:244-246 | on a grid lattice Node(x, y) is in range and has position (x, y), X() = x and Y() = y |
| Som.SOM.InputDistances | som.go:72 | one distance per node |
| Som.SOM.Closest | som.go:64-90 | the winner is the node ClosestIndex chooses: a node at the least distance, taken from the tie set by the pick |
| Som.SOM.Candidates | som.go:65-82 | the scan leaves exactly the nodes at the least distance, in lattice order |
| Som.SOM.ScanNode | som.go:70-81 | one iteration keeps the running minimum and the tie list of the scanned prefix |
| Som.SOM.Pick | som.go:77-80 | the nodes at the given indices |
| Som.SOM.PickAppend | som.go:80 | appending an index appends its node |
| Som.SOM.Neighbors | som.go:92-107 | exactly K nodes of the lattice, in non-decreasing distance, with no left-out node nearer than any returned one |
| Som.SOM.SortedPrefixIsNearest | som.go:93-104 | the first K of a distance-sorted permutation of the lattice are K nearest nodes |
| Som.SOM.NearestFirstIsClosest | som.go:64-107 | the first neighbour is as near as the node Closest chooses |
| Som.SOM.Step | som.go:109-139 | the weights become StepWeights of the old weights and positions. Only weights change, so the node count and positions stay |
| Som.SOM.InfluenceAll | som.go:126-138 | the loop over the nodes gives every node its target weights |
| Som.SOM.Influence | som.go:128-137 | one node adjusted when it is inside 2·radius, unchanged otherwise |
| Som.SOM.Train | som.go:141-145 | the weights become TrainWeights, which is Step applied for steps 0 to steps - 1 in order |
| Som.SOM.TrainStep | som.go:142-144 | one iteration moves the lattice from one trace state to the next |
| Som.SOM.Classify | som.go:147-151 | a fresh Dimensions()-long copy of the chosen closest node's weights |
| Som.SOM.Interpolate | som.go:153-170 | the mean of the weights of K nearest nodes |
| Som.SOM.NeighborsWide | som.go:159 | neighbours taken from a lattice whose weights span Dimensions() have weights spanning it too |
| Som.SOM.WeightedInterpolate | som.go:172-199 | the kernel-weighted mean of K nearest nodes, or None where the Go code divides by zero |
| Som.SOM.WeightedMeanOf | som.go:174-198 | the weighted mean of the given neighbours |
| Som.SOM.WeightedMeanAt | som.go:180-198 | for a non-zero radius, the weighted average, or None when the factors sum to 0 |
| Som.SOM.NeighborWeights | som.go:179-183 | the loop fills in the neighbour kernel weights |
| Som.SOM.WeightMatrix | som.go:233-242 | one row per node, equal to that node's weights padded to Dimensions(), with consistent statistics |
| Som.SOM.InitializeWithDataPoints | som.go:56-62 | a fresh Width×Height grid of distinct nodes, each weight vector a copy of the picked complete row; the settings are unchanged |
| Som.SOM.InitializeWithRandomValues | som.go:45-54 | a fresh grid of distinct nodes whose weights follow the source's formula, (max - min + min)·draw |
| Som.SetRandomWeights | som.go:49-52 | the inner loop sets each weight by the source's formula |
| Som.Average | som.go:155-167 | the two loops compute the mean of the neighbours' weights |
| Som.WeightedAverage | som.go:174-196 | the loops compute the weighted average, or None when the factors sum to 0 and there is at least one dimension |
| Som.AddRow | som.go:159-161 | adding one neighbour extends every column sum by one row |
| Som.AddWeightedRow | som.go:187-190 | adding one neighbour extends the weighted sums and the factor sums by one row |
| Trainings.Blend | training.go:32-33 | factor 1 gives the initial value, factor 0 the final one |
| Trainings.BlendBetween | training.go:31-40 | for a factor in [0, 1] the blend lies between the two end values |
| Trainings.BlendMonotone | training.go:31-40 | a greater factor moves the blend toward the initial value |
| Trainings.Training.Progress | training.go:26-28 | progress times Steps is the step |
| Trainings.Training.LearningRate | training.go:31-34 | the learning rate is the blend of the initial and final rates by the SOM's cooling factor at the step's progress |
| Trainings.Training.Radius | training.go:37-40 | the radius is the blend of the initial and final radius by the cooling factor |
| Trainings.NewTraining | training.go:14-23 | all six arguments are stored unchanged |
| Trainings.LinearEnds | training.go:26-40 | under linear cooling, step 0 gives the initial rate and radius, and step Steps gives the final ones |
| Trainings.RatesBetween | training.go:31-40 | with a cooling factor in [0, 1], the rate and radius lie between their end values |
| Trainings.LinearNonIncreasing | training.go:31-40 | under linear cooling, a later step has no greater rate or radius when the final values are below the initial ones |
| Trainings.StepLearningRate | training.go:31-34 | with final rate 0 the schedule's rate is Step's rate |
| Trainings.HalfwayExample | training_test.go:8-21 | for 10 steps from 0.5 to 0 and from 10 to 0, step 5 has progress 0.5, rate 0.25 and radius 5 |

## Left out

- Persistence is left out: `LoadSOMFromJSON` and `SaveAsJSON` (som.go), storage.go, and the CSV and JSON loaders of matrix.go and dataset.go. They are wrappers over encoding/json, encoding/csv and strconv.
- `String` (som.go:202-215) only formats output. Its row index `i*Height + j` is not modelled.
- visualization.go, the command-line programs (gosom/, gosom-train/, gosom-functions/) and tests/mnist.py are rendering, I/O and tooling.
- Floating point is modelled as real arithmetic. NaN is modelled only as a `Missing` matrix cell:
  - Step, Train and InitializeWithDataPoints require the picked rows to be complete;
  - `Adjust` is modelled as written.
- node_test.go:46-53 expects `Adjust` to skip a NaN input entry. node.go does not, and the model follows node.go.
- som_test.go:77-103 relies on IEEE NaN comparisons, which are not modelled.
- Overflow of Go's `int` in index arithmetic such as `y*Width+x` and `Width*Height` is not modelled. Integers are unbounded.
- `math.Sqrt`, `Exp`, `Log` and `Pow` are fields of `MathLib`, constrained only by `Valid()`:
  - properties that need more of them are not claimed;
  - soft, medium and Mexican-hat cooling and kernels are modelled by their formulas, but no bounds are proved for them.
- `CoolingFactor` requires `1 + 100·p != 0` for hard cooling, where Go would return ±Inf.
- `SomModel.InfluenceAt` requires a non-zero radius. `Influenced` calls it only inside the `distance < 2·radius` guard, which for a non-negative distance already means radius > 0. At radius 0 the guard admits no node, in Go as in the model.
- `Training.Progress` requires `Steps != 0`. Go would produce NaN.
- Go's `sort.Sort` is not stable and its algorithm is not specified. The model sorts by insertion sort through `Len`, `Less` and `Swap`. Only the permutation and ordering are claimed, so the order of equal-distance nodes in `Neighbors` is not.
- `rand.Intn` and `rand.Float64` are parameters. The tie pick is reduced mod the number of ties, so `pick % |ties|` stands for a uniform draw.
- Step and Train require that no node appears twice in `Nodes`, because they update nodes in place. NewLattice guarantees this.
- Som.SOM.Interpolate: requires 1 ≤ K. At K = 0 Go does not panic: Neighbors returns no nodes and every dimension of the result is 0/0, which is NaN and has no real counterpart.
- Som.SOM.WeightedInterpolate: requires 1 ≤ K. At K = 0 Go panics on `neighbors[K-1]`.
- Som.SOM.Interpolate and WeightedInterpolate require K ≤ len(Nodes). Go panics past that, on `lat[i]` in Neighbors.
- Som.SOM.Interpolate and WeightedInterpolate require every node to have at least Dimensions() weights. Go reads the weights of the K chosen neighbours only, so it panics only when one of those is shorter.
- Som.SOM.Step: requires `steps != 0`, through `SomModel.StepDefined`. Go does not panic there: `progress` becomes ±Inf or NaN, and so do the learning rate and the radius. Train is unaffected, because with steps ≤ 0 it runs no step.
- Utils.Avg: requires a non-empty vector. For an empty one Go returns 0/0, which is NaN.
- WeightedInterpolate returns `None` where Go divides by zero: when the K-th neighbour's distance is 0, or when the kernel weights sum to 0.
- Helper methods take the weights of the nodes they read as ghost `ws` parameters, tied to the nodes by a precondition.
- `InitializeWithZeroes` (som_test.go:62) and `NeighborhoodInfluence("epanechicov")` (functions/functions_test.go:59) are called by the tests but are not in the code. Neither is modelled.
- Som.SOM.Neighbors: states that the result is K nearest nodes, in order, drawn from the lattice. It does not state which of several equally distant nodes are taken.
- Som.SOM.Interpolate: states the mean of some K nearest nodes. Which ones depends on the sort's tie order.
- Som.SOM.WeightedInterpolate: the same holds for which K nearest nodes are weighted.
- Functions.KernelExamples: does not claim the test's positive soft and medium cooling at progress 0.5, which needs bounds on exp and pow that `MathLib.Valid()` does not give.
- Matrices.NewMatrix: requires every column to hold at least one number. gonum's `floats.Min` of an empty cleared column panics.

## Findings

| source | as written | input that shows it | evidently intended | confidence | as-written member | corrected member |
|---|---|---|---|---|---|---|
| som.go:50-51 | the weight is `((max - min) + min) * rand.Float64()`, which is `max·draw` | min 1, max 2, draw 0 gives weight 0, outside [1, 2] | `min + (max - min)·draw`, a weight in [min, max] | high (not executed) | Som.SOM.InitializeWithRandomValues, Som.RandomWeightLeavesRange | Som.RangedWeight |
