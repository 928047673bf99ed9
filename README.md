# XGBoost-style regression tree, modelled in Dafny

The repository builds one regression tree in the style of XGBoost's trees. Its core is
the class `DecisionTreeXG`. `Train` turns a node into a leaf that holds the mean label
when the depth limit or the minimum sample count stops it. Otherwise it searches every
feature, and every distinct observed value of that feature in ascending order, for the
threshold with the greatest regularised variance reduction (the gain); a later threshold
replaces the best so far only with a strictly greater gain, so ties keep the first one in
feature order, then threshold order. It splits the samples on that threshold (`feature < threshold` goes left) and trains two fresh
child nodes one level deeper. When no threshold leaves both sides non-empty, the node
becomes a leaf. `Predict` walks the tree from the root. A leaf answers its stored value.
An internal node asks the child on the side of its test, or answers the stored value of
that side when the child is missing.

The model has six modules:

- `Wrappers`: `Option`.
- `Stats`: the sum, the mean, the population variance and the gain, with their bounds.
- `Dataset`: samples as rows of reals, and `Partition`, the value-level split of the
  samples.
- `SplitSearch`: the candidate thresholds in search order, the score of each, and
  `BestSplit`, the search as a fold over the candidates.
- `RegressionTree`: the tree as a value (`Node`), `Predict` on it, and `Grow`, the tree
  that training produces.
- `DecisionTree`: the class `DecisionTreeXG` itself. It keeps its mutable fields and
  child references. A ghost `Repr` holds the node's footprint and a ghost `Tree` holds
  its value-level view. `Valid()` ties both to the fields and to the children. Every
  method is proved against the value-level definitions: `Train` leaves
  `Tree == Grow(old(Tree), …)`, `Predict` agrees with `RegressionTree.Predict`, and the
  loops of `SplitData`, `Mean`, `Variance` and the search compute `Partition`,
  `Stats.Mean`, `Stats.Variance` and `BestSplit`.

Single-precision floats are modelled as mathematical reals. The negative-infinity start
value of the best gain is `None`.

A non-positive gain does not stop training: the node becomes a leaf only when the best
gain is still the negative-infinity start value (xgboost_regression.cs:65), that is, when
no threshold leaves both sides non-empty. `RegressionTree.ConstantLabelsStillSplit` and
`RegressionTree.EqualLabelsExample` show the consequence: with all labels equal and some
feature varying, the node still splits, on a gain equal to minus the regularisation.

## Model

| member | source | states |
|---|---|---|
| DecisionTree.DecisionTreeXG.constructor | xgboost_regression.cs:5-13 | a new node is valid with a freshly allocated footprint, and holds every field's default: not a leaf, no children, zeros |
| DecisionTree.DecisionTreeXG.Predict | xgboost_regression.cs:15-24 | the prediction of the object tree equals the value-level `RegressionTree.Predict` of its view, for every feature vector whose own path only tests features it has |
| DecisionTree.DecisionTreeXG.Train | xgboost_regression.cs:26-87 | after training, the node's view is `Grow` of its previous view; the tree stays well formed; every newly reachable node is freshly allocated |
| DecisionTree.DecisionTreeXG.TrainBySearch | xgboost_regression.cs:39-86 | past the stopping test, the node becomes `GrowBySearch` of its previous view: a search, then a leaf or a split |
| DecisionTree.DecisionTreeXG.FinishAsLeaf | xgboost_regression.cs:64-70 | when the search finds no split, the node becomes the leaf `GrowBySearch` prescribes |
| DecisionTree.DecisionTreeXG.MakeLeaf | xgboost_regression.cs:34-35 | the node becomes a leaf holding the label mean; no other field, and no node below it, changes |
| DecisionTree.DecisionTreeXG.FinishWithSplit | xgboost_regression.cs:72-86 | when the search finds a split, the node becomes the internal node `GrowBySearch` prescribes |
| DecisionTree.DecisionTreeXG.Commit | xgboost_regression.cs:72-86 | the node records the split test, and its two children are trained on the two halves of `Partition` one level deeper; earlier fallback values are kept |
| DecisionTree.DecisionTreeXG.TrainChildren | xgboost_regression.cs:80-84 | two fresh, disjoint, valid subtrees whose views are `Grow` of an untrained node on each half, one level deeper |
| DecisionTree.DecisionTreeXG.Attach | xgboost_regression.cs:73-74 | the node holds the split test and the two subtrees; its footprint is itself plus theirs; only the split fields and the leaf flag change |
| DecisionTree.DecisionTreeXG.TrainNew | xgboost_regression.cs:80-83 | a fresh node trained on its samples has the view `Grow(Untrained, …)` |
| DecisionTree.DecisionTreeXG.SearchSplit | xgboost_regression.cs:39-62 | the nested loops end in the state `BestSplit` gives: the first candidate of maximum gain, or no split |
| DecisionTree.DecisionTreeXG.SearchFeature | xgboost_regression.cs:45-61 | one pass over a feature's thresholds extends the fold from the candidates of the earlier features to those of this one |
| DecisionTree.DecisionTreeXG.TryCandidate | xgboost_regression.cs:49-60 | one threshold: skipped when a side is empty, adopted only when its gain is strictly greater than the best so far |
| DecisionTree.DecisionTreeXG.SplitData | xgboost_regression.cs:89-111 | the loop's four lists are exactly the halves of `Partition` |
| DecisionTree.DecisionTreeXG.CalculateGain | xgboost_regression.cs:113-122 | the result is the regularised variance reduction `Stats.Gain` |
| DecisionTree.DecisionTreeXG.Variance | xgboost_regression.cs:124-131 | the accumulated squared deviations over the count equal the population variance `Stats.Variance` |
| DecisionTree.DecisionTreeXG.Mean | xgboost_regression.cs:133-138 | the accumulated sum over the count equals `Stats.Mean` |
| Stats.SumWithin | xgboost_regression.cs:135-136 | a sum of values in [lo, hi] lies between count·lo and count·hi |
| Stats.MeanWithin | xgboost_regression.cs:133-138 | the mean of values in [lo, hi] lies in [lo, hi] |
| Stats.ConstantMean | xgboost_regression.cs:133-138 | the mean of equal values is that value |
| Stats.SquaredDeviationsNonNegative | xgboost_regression.cs:127-129 | the accumulated squared deviations are never negative |
| Stats.VarianceNonNegative | xgboost_regression.cs:124-131 | a variance is never negative |
| Stats.SquaredDeviationsOfConstant | xgboost_regression.cs:127-129 | equal values have no deviation from their common value |
| Stats.ConstantVariance | xgboost_regression.cs:124-131 | equal values have variance zero |
| Dataset.Partition | xgboost_regression.cs:89-111 | the halves pair rows with labels, together hold every sample, and each side holds only samples of the input on the correct side of the test |
| Dataset.PartitionKeepsRect | xgboost_regression.cs:89-111 | both halves keep the number of features of the input |
| Dataset.Positions | xgboost_regression.cs:96-108 | the indices of one side are increasing, in range, and are exactly the samples whose test result matches that side |
| Dataset.PartitionSelects | xgboost_regression.cs:89-111 | each side is the input restricted to the indices of that side, in input order, rows and labels alike: nothing is lost, reordered or invented |
| Dataset.PartitionRoutes | xgboost_regression.cs:96-107 | every sample ends up on the side its test selects |
| Dataset.HalvesWellFormed | xgboost_regression.cs:49-51 | when neither half is empty, both are valid training sets of the input's width |
| SplitSearch.InsertSorted | xgboost_regression.cs:45 | inserting into an ascending list of distinct values keeps it ascending and distinct, and adds exactly the new value |
| SplitSearch.DistinctSorted | xgboost_regression.cs:45 | the result is strictly increasing and has exactly the values of the input |
| SplitSearch.Thresholds | xgboost_regression.cs:45 | the thresholds of a feature are strictly increasing and are exactly its observed values |
| SplitSearch.Candidates | xgboost_regression.cs:43-47 | every candidate names a feature in range and one of its thresholds |
| SplitSearch.TriedStart | xgboost_regression.cs:45-47 | before a feature's pass, the tried candidates are those of the earlier features |
| SplitSearch.TriedNext | xgboost_regression.cs:47 | each inner iteration appends the next threshold of the current feature |
| SplitSearch.TriedAll | xgboost_regression.cs:43-61 | after a feature's pass, the tried candidates are those of the features up to it |
| SplitSearch.CandidatesOrdered | xgboost_regression.cs:43-47 | the search visits candidates strictly by feature, then by threshold, so each exactly once |
| SplitSearch.CandidatesComplete | xgboost_regression.cs:43-47 | the search visits every observed value of every feature |
| SplitSearch.PositionInSearchOrder | xgboost_regression.cs:43-47 | a candidate visited earlier sits at an earlier position of the search |
| SplitSearch.Fold | xgboost_regression.cs:39-62 | with no scored candidate the state is the start state; otherwise it names a candidate that was tried, together with its score |
| SplitSearch.FoldFindsNothingIff | xgboost_regression.cs:41-65 | the search ends on the negative-infinity start value if and only if no candidate has a score |
| SplitSearch.FoldFirstMaximum | xgboost_regression.cs:55-60 | the kept candidate has the maximum score, and every candidate before it scores strictly less |
| SplitSearch.Scan | xgboost_regression.cs:39-62 | a found best is one of the tried candidates, and its stored gain is that candidate's score |
| SplitSearch.ScanAppend | xgboost_regression.cs:47-60 | trying one more candidate is one more step of the fold |
| SplitSearch.ScanFindsNothingIff | xgboost_regression.cs:51-65 | no split is found if and only if every tried candidate leaves a side empty |
| SplitSearch.BestSplit | xgboost_regression.cs:39-62 | a found split names a feature in range, and its gain is that candidate's score |
| SplitSearch.Viability | xgboost_regression.cs:49-51 | an observed threshold has a score exactly when some sample of the feature is strictly below it |
| SplitSearch.BestSplitIsFirstMaximum | xgboost_regression.cs:43-62 | a found split is an observed value with samples strictly below it; no candidate has a greater gain, and every candidate visited before it has a strictly smaller one |
| SplitSearch.NoCandidateBeats | xgboost_regression.cs:55-60 | no candidate outscores the kept one, and no candidate visited before it ties it |
| SplitSearch.ConstantColumnsGiveNoSplit | xgboost_regression.cs:51-65 | when every feature is constant, no split is found |
| SplitSearch.VaryingColumnGivesSplit | xgboost_regression.cs:51-65 | when some feature takes two values, a split is found |
| SplitSearch.NoSplitIffConstantColumns | xgboost_regression.cs:64-70 | no split is found if and only if every feature is constant across the samples |
| SplitSearch.ConstantLabelsScoreMinusRegularization | xgboost_regression.cs:113-122 | with equal labels, every viable threshold's gain is minus the regularisation |
| SplitSearch.ConstantLabelsBestGain | xgboost_regression.cs:39-62 | with equal labels, a found split's gain is minus the regularisation |
| RegressionTree.FeaturesInReadsPath | xgboost_regression.cs:15-24 | a vector at least as long as every feature a tree tests is answered without an index error |
| RegressionTree.ShortVectorExample | xgboost_regression.cs:15-24 | only the tests on a vector's own path are read: a one-feature vector is answered by a tree that tests feature 1 off its path |
| RegressionTree.LeafFor | xgboost_regression.cs:15-24 | the descent on a complete tree ends in a leaf |
| RegressionTree.CompletePredictsFromLeaf | xgboost_regression.cs:15-24 | on a complete tree the prediction is the value of the leaf reached, and the fallback values are never read |
| RegressionTree.Grow | xgboost_regression.cs:26-87 | a trained tree is at most maxDepth − depth levels deep, every internal node has both children, every test reads a feature in range, and every leaf holds the mean label of the samples routed to it |
| RegressionTree.GrowBySearch | xgboost_regression.cs:39-86 | past the stopping test, the same height, completeness, feature and fitting guarantees |
| RegressionTree.GrowStops | xgboost_regression.cs:32-37 | at the depth limit or below the sample minimum, the node becomes a leaf with the label mean and keeps its other fields |
| RegressionTree.GrowSearches | xgboost_regression.cs:32-39 | otherwise training is the split search |
| RegressionTree.GrowBySearchCases | xgboost_regression.cs:64-86 | no split gives a mean leaf; a split gives an internal node on the best split, with children grown from fresh nodes on the two non-empty halves |
| RegressionTree.GrowLeafIff | xgboost_regression.cs:32-70 | a trained node is a leaf if and only if the depth limit is reached, there are too few samples, or every feature is constant; a leaf holds the label mean |
| RegressionTree.GrowChildren | xgboost_regression.cs:72-86 | an internal trained node's children are grown one level deeper on the two halves of its own split, each a valid training set of the same width |
| RegressionTree.GrowSplitIsFirstBest | xgboost_regression.cs:43-62 | an internal trained node tests the first candidate of maximum gain |
| RegressionTree.GrowSplitScore | xgboost_regression.cs:55-74 | an internal trained node tests exactly the feature and threshold `BestSplit` found, and that candidate's score is the recorded gain |
| RegressionTree.Route | xgboost_regression.cs:20-23 | following the tests splits the samples along the path of a feature vector, rows and labels in step |
| RegressionTree.FittedPredictsLeafMean | xgboost_regression.cs:15-24 | on a fitted tree, a training sample is predicted the mean label of the samples that share its path |
| RegressionTree.FittedPredictsWithin | xgboost_regression.cs:15-24 | on a fitted tree, every prediction lies within the range of the training labels |
| RegressionTree.TrainingSamplePredictsLeafMean | xgboost_regression.cs:15-87 | after training, each training sample is predicted the mean label of the training samples on its path |
| RegressionTree.PredictionWithinLabelRange | xgboost_regression.cs:15-87 | after training, any feature vector as wide as the rows is answered without an index error, and its prediction lies within the range of the training labels |
| RegressionTree.FeaturesInWider | xgboost_regression.cs:20 | a tree whose tests fit n features also fits any wider vector |
| RegressionTree.ConstantLabelsStillSplit | xgboost_regression.cs:55-86 | with equal labels and a varying feature, training still splits, on gain minus the regularisation |
| RegressionTree.EqualLabelsExample | xgboost_regression.cs:26-86 | the samples [1] and [2], both labelled 3, with default parameters give a split node on feature 0 whose gain is −0.0001 |

## Left out

- The program's entry point (its `Main`, which builds data, trains and prints) is not
  part of this model, and nor is any console output.
- Single-precision floating point: rounding, overflow, NaN and infinities. Values are
  reals. `float.NegativeInfinity` as the start of the search is `None`.
- The `Distinct().OrderBy()` query is modelled by its result, `Thresholds`: the distinct
  observed values in ascending order.
- `int` overflow of `depth + 1` is not modelled; integers are unbounded.
- DecisionTree.DecisionTreeXG.Train: requires at least one sample, one label per sample
  and rows of equal length. With no samples the source always throws (it reads `X[0]`,
  xgboost_regression.cs:29). The other excluded inputs are not always errors there. On
  the stopping path (lines 32-36) it averages whatever labels it is given, so labels of
  another count give a leaf, and an empty label array gives the NaN mean 0/0. On the
  search path it throws when `SplitData` reads past a shorter label array (lines 98-106)
  or when a row is shorter than the first (line 45). Extra labels and extra row entries
  are ignored by the split, though a leaf still averages every label. None of these
  inputs is modelled.
- DecisionTree.DecisionTreeXG.Predict: requires every test on the vector's own path to
  read a feature the vector has (`PathIn`); on any other vector the source throws an
  index exception, which the model does not represent.
- DecisionTree.DecisionTreeXG.Train is split into helper methods (`TrainBySearch`,
  `FinishAsLeaf`, `FinishWithSplit`, `Commit`, `TrainChildren`, `Attach`, `TrainNew`).
  The source sets the split fields and allocates both children before training them.
  The model trains two fresh children first, then records the split and attaches them.
  No other reference to the fresh children exists in between, so the final state is the
  same.
