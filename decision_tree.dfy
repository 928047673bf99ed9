/**
 * The trainer as the program writes it: a tree of mutable node objects,
 * trained in place by a recursive method and read by a recursive predictor.
 * Each node's ghost `Tree` is the value-level tree of module RegressionTree, and
 * every operation is proved to agree with its counterpart there.
 */
module DecisionTree {
  import opened Wrappers
  import opened Stats
  import opened Dataset
  import opened SplitSearch
  import opened RegressionTree

  class DecisionTreeXG {
    var splitValue: real
    var splitFeature: int
    var leftValue: real
    var rightValue: real
    var left: DecisionTreeXG?
    var right: DecisionTreeXG?
    var isLeaf: bool

    /** This node and every node below it. */
    ghost var Repr: set<object>
    /** The tree rooted here, as a value. */
    ghost var Tree: Node

    /**
     * The nodes below form a tree (no node is shared and none points back
     * up), and `Tree` is the value of this node's fields and its children's trees.
     */
    ghost predicate Valid()
      reads this, Repr
      decreases Repr
    {
      var valid :=
        && this in Repr
        && (left != null ==>
              left in Repr && left.Repr <= Repr && this !in left.Repr && left.Valid())
        && (right != null ==>
              right in Repr && right.Repr <= Repr && this !in right.Repr && right.Valid())
        && (left != null && right != null ==> left.Repr !! right.Repr)
        && Tree == Node(isLeaf, splitFeature, splitValue, leftValue, rightValue,
                        if left == null then None else Some(left.Tree),
                        if right == null then None else Some(right.Tree));
      valid
    }

    /** A new node holds the default of every field: not a leaf, no children, all numbers zero. */
    constructor()
      ensures Valid() && fresh(Repr)
      ensures Tree == Untrained
    {
      splitValue, splitFeature, leftValue, rightValue := 0.0, 0, 0.0, 0.0;
      left, right, isLeaf := null, null, false;
      Repr := {this};
      Tree := Untrained;
    }

    /**
     * The prediction for `features`: a leaf answers its stored value, an
     * internal node asks the child on the side of its test, or answers the
     * stored value of that side when the child is missing.
     */
    function Predict(features: seq<real>): (r: real)
      reads this, Repr
      requires Valid() && PathIn(Tree, features)
      ensures r == RegressionTree.Predict(Tree, features)
      decreases Repr
    {
      if isLeaf then leftValue
      else if features[splitFeature] < splitValue then
        if left != null then left.Predict(features) else leftValue
      else
        if right != null then right.Predict(features) else rightValue
    }

    /**
     * Trains the tree rooted here on `X` and `y`, starting at level `depth`:
     * the node becomes what `Grow` makes of it. Only this node's fields
     * change; the children it had are left alone, and new children are
     * fresh nodes.
     */
    method Train(X: seq<Row>, y: seq<real>, depth: int := 0, maxDepth: int := 3,
                 minSamplesSplit: int := 2, regularization: real := 0.0001)
      requires Valid() && WellFormed(X, y)
      modifies this
      ensures Valid() && fresh(Repr - old(Repr))
      ensures Tree == Grow(old(Tree), X, y, depth, Hyper(maxDepth, minSamplesSplit, regularization))
      decreases maxDepth - depth, 4
    {
      if depth >= maxDepth || |X| < minSamplesSplit {
        ghost var prev := Tree;
        MakeLeaf(y);
        GrowStops(prev, X, y, depth, Hyper(maxDepth, minSamplesSplit, regularization));
        return;
      }
      ghost var prev := Tree;
      TrainBySearch(X, y, depth, maxDepth, minSamplesSplit, regularization);
      GrowSearches(prev, X, y, depth, Hyper(maxDepth, minSamplesSplit, regularization));
    }

    /**
     * Training past the stopping test: the search for the best split, then a
     * leaf when there is none and two trained children when there is one.
     */
    method TrainBySearch(X: seq<Row>, y: seq<real>, depth: int, maxDepth: int,
                         minSamplesSplit: int, regularization: real)
      requires Valid() && WellFormed(X, y) && depth < maxDepth
      modifies this
      ensures Valid() && fresh(Repr - old(Repr))
      ensures Tree == GrowBySearch(old(Tree), X, y, depth, Hyper(maxDepth, minSamplesSplit, regularization))
      decreases maxDepth - depth, 3
    {
      var bestGain, bestFeature, bestSplit := SearchSplit(X, y, regularization);
      if bestGain.None? {
        FinishAsLeaf(X, y, depth, maxDepth, minSamplesSplit, regularization);
      } else {
        FinishWithSplit(X, y, depth, maxDepth, minSamplesSplit, regularization, bestGain, bestFeature, bestSplit);
      }
    }

    /** No split found: this node becomes a leaf predicting the mean label. */
    method FinishAsLeaf(X: seq<Row>, y: seq<real>, depth: int, maxDepth: int,
                        minSamplesSplit: int, regularization: real)
      requires Valid() && WellFormed(X, y) && depth < maxDepth
      requires BestSplit(X, y, regularization).bestGain.None?
      modifies this
      ensures Valid() && fresh(Repr - old(Repr))
      ensures Tree == GrowBySearch(old(Tree), X, y, depth, Hyper(maxDepth, minSamplesSplit, regularization))
    {
      GrowBySearchCases(Tree, X, y, depth, Hyper(maxDepth, minSamplesSplit, regularization));
      MakeLeaf(y);
    }

    /** Turns this node into a leaf predicting the mean label; nothing else changes. */
    method MakeLeaf(y: seq<real>)
      requires Valid() && |y| > 0
      modifies this
      ensures Valid() && Repr == old(Repr)
      ensures Tree == old(Tree).(isLeaf := true, leftValue := Stats.Mean(y))
    {
      var m := Mean(y);
      isLeaf := true;
      leftValue := m;
      Tree := Tree.(isLeaf := true, leftValue := m);
    }

    /** A split found: this node tests it and gets two children trained on its sides. */
    method FinishWithSplit(X: seq<Row>, y: seq<real>, depth: int, maxDepth: int, minSamplesSplit: int,
                           regularization: real, bestGain: Option<real>, bestFeature: nat, bestSplit: real)
      requires Valid() && WellFormed(X, y) && depth < maxDepth
      requires bestGain.Some? && SearchState(bestGain, bestFeature, bestSplit) == BestSplit(X, y, regularization)
      modifies this
      ensures Valid() && fresh(Repr - old(Repr))
      ensures Tree == GrowBySearch(old(Tree), X, y, depth, Hyper(maxDepth, minSamplesSplit, regularization))
      decreases maxDepth - depth, 2
    {
      GrowBySearchCases(Tree, X, y, depth, Hyper(maxDepth, minSamplesSplit, regularization));
      Commit(X, y, depth, maxDepth, minSamplesSplit, regularization, bestFeature, bestSplit);
    }

    /**
     * The end of training an internal node: records the split, partitions
     * the samples on it and gives the node two fresh children trained on the
     * two sides, one level deeper.
     */
    method Commit(X: seq<Row>, y: seq<real>, depth: int, maxDepth: int, minSamplesSplit: int,
                  regularization: real, bestFeature: nat, bestSplit: real)
      requires Valid() && |X| == |y| && HasColumn(X, bestFeature) && depth < maxDepth
      requires var h := Partition(X, y, bestFeature, bestSplit);
        WellFormed(h.leftX, h.leftY) && WellFormed(h.rightX, h.rightY)
      modifies this
      ensures Valid() && fresh(Repr - old(Repr))
      ensures var h := Partition(X, y, bestFeature, bestSplit);
        var p := Hyper(maxDepth, minSamplesSplit, regularization);
        Tree == old(Tree).(isLeaf := false, splitFeature := bestFeature, splitValue := bestSplit,
                               left := Some(Grow(Untrained, h.leftX, h.leftY, depth + 1, p)),
                               right := Some(Grow(Untrained, h.rightX, h.rightY, depth + 1, p)))
      decreases maxDepth - depth, 1
    {
      var bestLeftX, bestRightX, bestLeftY, bestRightY := SplitData(X, y, bestFeature, bestSplit);
      var l, r := TrainChildren(bestLeftX, bestLeftY, bestRightX, bestRightY,
                                depth, maxDepth, minSamplesSplit, regularization);
      Attach(bestFeature, bestSplit, l, r);
    }

    /** Two fresh, separate nodes trained on the two sides of a split, one level deeper. */
    static method TrainChildren(leftX: seq<Row>, leftY: seq<real>, rightX: seq<Row>, rightY: seq<real>,
                                depth: int, maxDepth: int, minSamplesSplit: int, regularization: real)
      returns (l: DecisionTreeXG, r: DecisionTreeXG)
      requires WellFormed(leftX, leftY) && WellFormed(rightX, rightY) && depth < maxDepth
      ensures l.Valid() && r.Valid() && l.Repr !! r.Repr && fresh(l.Repr + r.Repr)
      ensures var p := Hyper(maxDepth, minSamplesSplit, regularization);
        && l.Tree == Grow(Untrained, leftX, leftY, depth + 1, p)
        && r.Tree == Grow(Untrained, rightX, rightY, depth + 1, p)
      decreases maxDepth - depth, 0
    {
      l := TrainNew(leftX, leftY, depth + 1, maxDepth, minSamplesSplit, regularization);
      r := TrainNew(rightX, rightY, depth + 1, maxDepth, minSamplesSplit, regularization);
    }

    /** Records the split test and hangs two separate trained subtrees below this node. */
    method Attach(feature: nat, threshold: real, l: DecisionTreeXG, r: DecisionTreeXG)
      requires Valid() && l.Valid() && r.Valid()
      requires this !in l.Repr && this !in r.Repr && l.Repr !! r.Repr
      modifies this
      ensures Valid() && Repr == {this} + l.Repr + r.Repr
      ensures Repr - old(Repr) <= l.Repr + r.Repr
      ensures Tree == old(Tree).(isLeaf := false, splitFeature := feature, splitValue := threshold,
                                 left := Some(l.Tree), right := Some(r.Tree))
    {
      assert l in l.Repr && r in r.Repr;
      splitFeature, splitValue := feature, threshold;
      left, right := l, r;
      isLeaf := false;
      Repr := {this} + l.Repr + r.Repr;
      Tree := Tree.(isLeaf := false, splitFeature := feature, splitValue := threshold,
                    left := Some(l.Tree), right := Some(r.Tree));
    }

    /** A new node, trained on `X` and `y` at level `depth`: one child of a split. */
    static method TrainNew(X: seq<Row>, y: seq<real>, depth: int, maxDepth: int,
                           minSamplesSplit: int, regularization: real) returns (child: DecisionTreeXG)
      requires WellFormed(X, y)
      ensures child.Valid() && fresh(child.Repr)
      ensures child.Tree == Grow(Untrained, X, y, depth, Hyper(maxDepth, minSamplesSplit, regularization))
      decreases maxDepth - depth, 5
    {
      child := new DecisionTreeXG();
      child.Train(X, y, depth, maxDepth, minSamplesSplit, regularization);
    }

    /**
     * The search for the best split of a node, feature by feature and
     * threshold by threshold; `None` stands for the negative-infinity gain
     * the search starts from. Its result is `BestSplit`.
     */
    static method SearchSplit(X: seq<Row>, y: seq<real>, regularization: real)
      returns (bestGain: Option<real>, bestFeature: nat, bestSplit: real)
      requires WellFormed(X, y)
      ensures SearchState(bestGain, bestFeature, bestSplit) == BestSplit(X, y, regularization)
    {
      var nFeatures := |X[0]|;
      bestGain, bestFeature, bestSplit := None, 0, 0.0;
      for featureIndex := 0 to nFeatures
        invariant Columns(X, featureIndex)
        invariant SearchState(bestGain, bestFeature, bestSplit)
               == Scan(X, y, regularization, Candidates(X, featureIndex))
      {
        assert Columns(X, featureIndex + 1);
        bestGain, bestFeature, bestSplit :=
          SearchFeature(X, y, regularization, featureIndex, bestGain, bestFeature, bestSplit);
      }
    }

    /**
     * One pass of the search's outer loop: every distinct value of feature
     * `featureIndex`, in ascending order, tried as a threshold against the
     * best split found so far.
     */
    static method SearchFeature(X: seq<Row>, y: seq<real>, regularization: real, featureIndex: nat,
                                gain0: Option<real>, feature0: nat, split0: real)
      returns (bestGain: Option<real>, bestFeature: nat, bestSplit: real)
      requires |X| == |y| && Columns(X, featureIndex + 1)
      requires Columns(X, featureIndex)
      requires SearchState(gain0, feature0, split0) == Scan(X, y, regularization, Candidates(X, featureIndex))
      ensures SearchState(bestGain, bestFeature, bestSplit) == Scan(X, y, regularization, Candidates(X, featureIndex + 1))
    {
      bestGain, bestFeature, bestSplit := gain0, feature0, split0;
      var possibleSplits := Thresholds(X, featureIndex);
      TriedStart(X, featureIndex);
      for k := 0 to |possibleSplits|
        invariant SearchState(bestGain, bestFeature, bestSplit)
               == Scan(X, y, regularization, Tried(X, featureIndex, k))
      {
        var splitValue := possibleSplits[k];
        TriedNext(X, featureIndex, k);
        ScanAppend(X, y, regularization, Tried(X, featureIndex, k), Candidate(featureIndex, splitValue));
        bestGain, bestFeature, bestSplit :=
          TryCandidate(X, y, regularization, featureIndex, splitValue, bestGain, bestFeature, bestSplit);
      }
      TriedAll(X, featureIndex);
    }

    /**
     * One step of the search's inner loop: a threshold that leaves a side
     * empty is skipped, and one whose gain is strictly greater than the best
     * so far replaces it.
     */
    static method TryCandidate(X: seq<Row>, y: seq<real>, regularization: real, featureIndex: nat, splitValue: real,
                               gain0: Option<real>, feature0: nat, split0: real)
      returns (bestGain: Option<real>, bestFeature: nat, bestSplit: real)
      requires |X| == |y| && HasColumn(X, featureIndex)
      ensures var c := Candidate(featureIndex, splitValue);
        SearchState(bestGain, bestFeature, bestSplit)
          == Step(SearchState(gain0, feature0, split0), c, Score(X, y, regularization, c))
    {
      bestGain, bestFeature, bestSplit := gain0, feature0, split0;
      var leftX, rightX, leftY, rightY := SplitData(X, y, featureIndex, splitValue);
      if |leftY| == 0 || |rightY| == 0 {
        return;
      }
      var gain := CalculateGain(y, leftY, rightY, regularization);
      if bestGain.None? || gain > bestGain.value {
        bestGain := Some(gain);
        bestFeature := featureIndex;
        bestSplit := splitValue;
      }
    }

    /**
     * Splits the samples on `featureIndex` at `splitValue`, keeping each label
     * with its row and the samples' order on each side. Its result is `Partition`.
     */
    static method SplitData(X: seq<Row>, y: seq<real>, featureIndex: nat, splitValue: real)
      returns (leftX: seq<Row>, rightX: seq<Row>, leftY: seq<real>, rightY: seq<real>)
      requires |X| == |y| && HasColumn(X, featureIndex)
      ensures Halves(leftX, rightX, leftY, rightY) == Partition(X, y, featureIndex, splitValue)
    {
      leftX, rightX, leftY, rightY := [], [], [], [];
      for i := 0 to |X|
        invariant Halves(leftX, rightX, leftY, rightY) == Partition(X[..i], y[..i], featureIndex, splitValue)
      {
        assert X[..i + 1][..i] == X[..i] && y[..i + 1][..i] == y[..i];
        if X[i][featureIndex] < splitValue {
          leftX := leftX + [X[i]];
          leftY := leftY + [y[i]];
        } else {
          rightX := rightX + [X[i]];
          rightY := rightY + [y[i]];
        }
      }
      assert X[..|X|] == X && y[..|y|] == y;
    }

    /** The regularised variance reduction of a split; its result is `Gain`. */
    static method CalculateGain(parent: seq<real>, left: seq<real>, right: seq<real>, regularization: real)
      returns (gain: real)
      requires |parent| > 0 && |left| > 0 && |right| > 0
      ensures gain == Gain(parent, left, right, regularization)
    {
      var parentVar := Variance(parent);
      var leftVar := Variance(left);
      var rightVar := Variance(right);
      gain := parentVar
        - ((|left| as real) / (|parent| as real)) * leftVar
        - ((|right| as real) / (|parent| as real)) * rightVar;
      gain := gain - regularization;
    }

    /** Population variance, accumulated value by value; its result is `Stats.Variance`. */
    static method Variance(values: seq<real>) returns (v: real)
      requires |values| > 0
      ensures v == Stats.Variance(values)
    {
      var mean := Mean(values);
      var variance := 0.0;
      for i := 0 to |values|
        invariant variance == SquaredDeviations(values[..i], mean)
      {
        assert values[..i + 1][..i] == values[..i];
        variance := variance + (values[i] - mean) * (values[i] - mean);
      }
      assert values[..|values|] == values;
      v := variance / (|values| as real);
    }

    /** Arithmetic mean, accumulated value by value; its result is `Stats.Mean`. */
    static method Mean(values: seq<real>) returns (m: real)
      requires |values| > 0
      ensures m == Stats.Mean(values)
    {
      var sum := 0.0;
      for i := 0 to |values|
        invariant sum == Sum(values[..i])
      {
        assert values[..i + 1][..i] == values[..i];
        sum := sum + values[i];
      }
      assert values[..|values|] == values;
      m := sum / (|values| as real);
    }
  }
}
