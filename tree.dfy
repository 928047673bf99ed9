/**
 * The regression tree as a value: the node record the trainer fills in,
 * prediction by walking it, and `Grow`, the tree that training produces.
 */
module RegressionTree {
  import opened Wrappers
  import opened Stats
  import opened Dataset
  import opened SplitSearch

  /**
   * One node with the fields of the trained object. A leaf predicts
   * `leftValue`; an internal node tests `splitFeature` against `splitValue`
   * and uses `leftValue`/`rightValue` only when the chosen child is missing.
   */
  datatype Node = Node(
    isLeaf: bool,
    splitFeature: int,
    splitValue: real,
    leftValue: real,
    rightValue: real,
    left: Option<Node>,
    right: Option<Node>)

  /** A freshly constructed node: every field at its default. */
  const Untrained := Node(false, 0, 0.0, 0.0, 0.0, None, None)

  /** The training hyper-parameters. */
  datatype Hyper = Hyper(maxDepth: int, minSamplesSplit: int, regularization: real)

  /** Every test Predict can reach reads a feature below `n`. */
  predicate FeaturesIn(t: Node, n: nat)
  {
    t.isLeaf ||
    (0 <= t.splitFeature < n
      && (t.left.Some? ==> FeaturesIn(t.left.value, n))
      && (t.right.Some? ==> FeaturesIn(t.right.value, n)))
  }

  /**
   * Every test Predict makes on its way down for `x` reads a feature of `x`:
   * the vectors Predict answers without an index error.
   */
  predicate PathIn(t: Node, x: Row)
  {
    t.isLeaf ||
    (0 <= t.splitFeature < |x|
      && if x[t.splitFeature] < t.splitValue then (t.left.Some? ==> PathIn(t.left.value, x))
         else (t.right.Some? ==> PathIn(t.right.value, x)))
  }

  /** A tree whose every test reads a feature of `x` reads only features of `x` on its path. */
  lemma {:induction false} FeaturesInReadsPath(t: Node, x: Row)
    requires FeaturesIn(t, |x|)
    ensures PathIn(t, x)
  {
    if !t.isLeaf {
      if t.left.Some? { FeaturesInReadsPath(t.left.value, x); }
      if t.right.Some? { FeaturesInReadsPath(t.right.value, x); }
    }
  }

  /**
   * Only the path of `x` matters: the root tests feature 0 and sends `[-1.0]`
   * to a leaf, so the right child's test of feature 1 is never read.
   */
  lemma ShortVectorExample()
    ensures var t := Node(false, 0, 0.0, 0.0, 0.0,
                          Some(Node(true, 0, 0.0, 7.0, 0.0, None, None)),
                          Some(Node(false, 1, 0.0, 0.0, 0.0, None, None)));
      && !FeaturesIn(t, 1) && PathIn(t, [-1.0]) && Predict(t, [-1.0]) == 7.0
  {
  }

  /** Every internal node Predict can reach has both children. */
  predicate Complete(t: Node)
  {
    t.isLeaf ||
    (t.left.Some? && t.right.Some? && Complete(t.left.value) && Complete(t.right.value))
  }

  /** The most threshold tests Predict makes on the way down. */
  function Height(t: Node): nat
  {
    if t.isLeaf then 0
    else
      var l := if t.left.Some? then Height(t.left.value) else 0;
      var r := if t.right.Some? then Height(t.right.value) else 0;
      1 + (if l < r then r else l)
  }

  /** The prediction for `x`, falling back to the stored value when a child is missing. */
  function Predict(t: Node, x: Row): real
    requires PathIn(t, x)
  {
    if t.isLeaf then t.leftValue
    else if x[t.splitFeature] < t.splitValue then
      if t.left.Some? then Predict(t.left.value, x) else t.leftValue
    else
      if t.right.Some? then Predict(t.right.value, x) else t.rightValue
  }

  /** The leaf Predict stops at on a complete tree. */
  function LeafFor(t: Node, x: Row): (leaf: Node)
    requires Complete(t) && PathIn(t, x)
    ensures leaf.isLeaf
  {
    if t.isLeaf then t
    else if x[t.splitFeature] < t.splitValue then LeafFor(t.left.value, x)
    else LeafFor(t.right.value, x)
  }

  /** On a complete tree the fallback values are never read: the prediction is a leaf's value. */
  lemma {:induction false} CompletePredictsFromLeaf(t: Node, x: Row)
    requires Complete(t) && PathIn(t, x)
    ensures Predict(t, x) == LeafFor(t, x).leftValue
  {
    if !t.isLeaf {
      if x[t.splitFeature] < t.splitValue {
        CompletePredictsFromLeaf(t.left.value, x);
      } else {
        CompletePredictsFromLeaf(t.right.value, x);
      }
    }
  }

  /**
   * The node that training turns `prev` into: a leaf holding the label mean
   * when the depth or sample count stops it, otherwise whatever the split
   * search makes of it. Fields training does not assign keep their values
   * from `prev`.
   */
  function Grow(prev: Node, X: seq<Row>, y: seq<real>, depth: int, p: Hyper): (t: Node)
    requires WellFormed(X, y)
    ensures Height(t) <= if depth < p.maxDepth then p.maxDepth - depth else 0
    ensures Complete(t)
    ensures FeaturesIn(t, Width(X))
    ensures Fitted(t, X, y)
    decreases p.maxDepth - depth, 1
  {
    if depth >= p.maxDepth || |X| < p.minSamplesSplit then
      prev.(isLeaf := true, leftValue := Mean(y))
    else
      GrowBySearch(prev, X, y, depth, p)
  }

  /**
   * A node past the stop test: a leaf holding the label mean when no split
   * exists, otherwise an internal node on the first best split whose
   * children are grown from fresh nodes on the two sides, one level deeper.
   */
  function GrowBySearch(prev: Node, X: seq<Row>, y: seq<real>, depth: int, p: Hyper): (t: Node)
    requires WellFormed(X, y) && depth < p.maxDepth
    ensures Height(t) <= p.maxDepth - depth
    ensures Complete(t)
    ensures FeaturesIn(t, Width(X))
    ensures Fitted(t, X, y)
    decreases p.maxDepth - depth, 0
  {
    var st := BestSplit(X, y, p.regularization);
    if st.bestGain.None? then
      prev.(isLeaf := true, leftValue := Mean(y))
    else
      var h := Partition(X, y, st.bestFeature, st.bestSplit);
      HalvesWellFormed(X, y, st.bestFeature, st.bestSplit);
      prev.(isLeaf := false, splitFeature := st.bestFeature, splitValue := st.bestSplit,
            left := Some(Grow(Untrained, h.leftX, h.leftY, depth + 1, p)),
            right := Some(Grow(Untrained, h.rightX, h.rightY, depth + 1, p)))
  }

  /** The three outcomes of training one node, one lemma each. */
  lemma GrowStops(prev: Node, X: seq<Row>, y: seq<real>, depth: int, p: Hyper)
    requires WellFormed(X, y) && (depth >= p.maxDepth || |X| < p.minSamplesSplit)
    ensures Grow(prev, X, y, depth, p) == prev.(isLeaf := true, leftValue := Mean(y))
  {
  }

  lemma GrowSearches(prev: Node, X: seq<Row>, y: seq<real>, depth: int, p: Hyper)
    requires WellFormed(X, y) && depth < p.maxDepth && |X| >= p.minSamplesSplit
    ensures Grow(prev, X, y, depth, p) == GrowBySearch(prev, X, y, depth, p)
  {
  }

  /** The two outcomes of the search, in one lemma: no split gives a leaf, a split two grown children. */
  lemma GrowBySearchCases(prev: Node, X: seq<Row>, y: seq<real>, depth: int, p: Hyper)
    requires WellFormed(X, y) && depth < p.maxDepth
    ensures var st := BestSplit(X, y, p.regularization);
      && (st.bestGain.None? ==> GrowBySearch(prev, X, y, depth, p) == prev.(isLeaf := true, leftValue := Mean(y)))
      && (st.bestGain.Some? ==>
            && st.bestFeature < Width(X) && HasColumn(X, st.bestFeature)
            && var h := Partition(X, y, st.bestFeature, st.bestSplit);
               && WellFormed(h.leftX, h.leftY) && WellFormed(h.rightX, h.rightY)
               && GrowBySearch(prev, X, y, depth, p)
                    == prev.(isLeaf := false, splitFeature := st.bestFeature, splitValue := st.bestSplit,
                             left := Some(Grow(Untrained, h.leftX, h.leftY, depth + 1, p)),
                             right := Some(Grow(Untrained, h.rightX, h.rightY, depth + 1, p))))
  {
    var st := BestSplit(X, y, p.regularization);
    if st.bestGain.Some? {
      HalvesWellFormed(X, y, st.bestFeature, st.bestSplit);
    }
  }

  /**
   * A trained node is a leaf exactly when the depth limit or the sample
   * count stops it, or every feature is constant over its samples (the sign
   * of the best gain plays no part); a leaf holds the mean of its labels and
   * keeps the rest of `prev` as it was.
   */
  lemma GrowLeafIff(prev: Node, X: seq<Row>, y: seq<real>, depth: int, p: Hyper)
    requires WellFormed(X, y)
    ensures var t := Grow(prev, X, y, depth, p);
      && (t.isLeaf <==> depth >= p.maxDepth || |X| < p.minSamplesSplit || ConstantColumns(X))
      && (t.isLeaf ==> t == prev.(isLeaf := true, leftValue := Mean(y)))
  {
    NoSplitIffConstantColumns(X, y, p.regularization);
  }

  /**
   * An internal node's children are grown from fresh nodes on exactly the
   * two sides of its test, one level deeper.
   */
  lemma GrowChildren(prev: Node, X: seq<Row>, y: seq<real>, depth: int, p: Hyper)
    requires WellFormed(X, y)
    ensures var t := Grow(prev, X, y, depth, p);
      !t.isLeaf ==>
        && depth < p.maxDepth && |X| >= p.minSamplesSplit
        && 0 <= t.splitFeature < Width(X) && HasColumn(X, t.splitFeature)
        && var h := Partition(X, y, t.splitFeature, t.splitValue);
           && WellFormed(h.leftX, h.leftY) && Width(h.leftX) == Width(X)
           && WellFormed(h.rightX, h.rightY) && Width(h.rightX) == Width(X)
           && t.left == Some(Grow(Untrained, h.leftX, h.leftY, depth + 1, p))
           && t.right == Some(Grow(Untrained, h.rightX, h.rightY, depth + 1, p))
  {
    if depth < p.maxDepth && |X| >= p.minSamplesSplit {
      GrowSearches(prev, X, y, depth, p);
      GrowBySearchCases(prev, X, y, depth, p);
      var st := BestSplit(X, y, p.regularization);
      if st.bestGain.Some? {
        HalvesWellFormed(X, y, st.bestFeature, st.bestSplit);
      }
    }
  }

  /** An internal node's test is the first split of maximum gain over its samples. */
  lemma GrowSplitIsFirstBest(prev: Node, X: seq<Row>, y: seq<real>, depth: int, p: Hyper)
    requires WellFormed(X, y)
    ensures var t := Grow(prev, X, y, depth, p);
      !t.isLeaf ==>
        && 0 <= t.splitFeature
        && exists g :: FirstBest(X, y, p.regularization, Candidate(t.splitFeature, t.splitValue), g)
  {
    BestSplitIsFirstMaximum(X, y, p.regularization);
  }

  /** An internal node tests exactly the split the search found, and its score is the gain it recorded. */
  lemma GrowSplitScore(prev: Node, X: seq<Row>, y: seq<real>, depth: int, p: Hyper)
    requires WellFormed(X, y)
    ensures var t := Grow(prev, X, y, depth, p);
      !t.isLeaf ==>
        && 0 <= t.splitFeature && HasColumn(X, t.splitFeature)
        && var st := BestSplit(X, y, p.regularization);
           && st.bestGain.Some?
           && t.splitFeature == st.bestFeature && t.splitValue == st.bestSplit
           && Score(X, y, p.regularization, Candidate(t.splitFeature, t.splitValue)) == st.bestGain
  {
  }

  /**
   * The training samples that share a leaf with `x`: the tests on the way to
   * `x`'s leaf, replayed on the samples with the partition training uses.
   */
  function Route(t: Node, X: seq<Row>, y: seq<real>, x: Row): (r: (seq<Row>, seq<real>))
    requires Complete(t) && PathIn(t, x) && |X| == |y| && Rect(X, |x|)
    ensures |r.0| == |r.1|
  {
    if t.isLeaf then (X, y)
    else
      var f: nat := t.splitFeature;
      PartitionKeepsRect(X, y, f, t.splitValue, |x|);
      var h := Partition(X, y, f, t.splitValue);
      if x[f] < t.splitValue then Route(t.left.value, h.leftX, h.leftY, x)
      else Route(t.right.value, h.rightX, h.rightY, x)
  }

  /**
   * `t` is fitted to the samples `X`, `y`: there is at least one sample, a
   * leaf holds the mean of its labels, and an internal node has both
   * children, each fitted to its side of the node's test.
   */
  ghost predicate Fitted(t: Node, X: seq<Row>, y: seq<real>)
    requires |X| == |y|
  {
    && |X| > 0
    && if t.isLeaf then t.leftValue == Mean(y)
       else
         && 0 <= t.splitFeature && HasColumn(X, t.splitFeature)
         && t.left.Some? && t.right.Some?
         && var h := Partition(X, y, t.splitFeature, t.splitValue);
            Fitted(t.left.value, h.leftX, h.leftY) && Fitted(t.right.value, h.rightX, h.rightY)
  }

  /**
   * On a fitted tree, prediction for one of the training samples follows the
   * path the sample was partitioned along: the sample is among those that
   * reach its leaf, and the prediction is the mean of exactly their labels.
   */
  lemma {:induction false} FittedPredictsLeafMean(t: Node, X: seq<Row>, y: seq<real>, x: Row)
    requires |X| == |y| && Fitted(t, X, y) && Complete(t) && PathIn(t, x)
    requires Rect(X, |x|) && x in X
    ensures var r := Route(t, X, y, x);
      x in r.0 && |r.1| > 0 && Predict(t, x) == Mean(r.1)
  {
    if !t.isLeaf {
      var i :| 0 <= i < |X| && X[i] == x;
      var f: nat, thr := t.splitFeature, t.splitValue;
      var h := Partition(X, y, f, thr);
      PartitionKeepsRect(X, y, f, thr, |x|);
      PartitionRoutes(X, y, f, thr, i);
      if x[f] < thr {
        FittedPredictsLeafMean(t.left.value, h.leftX, h.leftY, x);
      } else {
        FittedPredictsLeafMean(t.right.value, h.rightX, h.rightY, x);
      }
    }
  }

  /** Every prediction of a fitted tree lies within any bounds of its training labels. */
  lemma {:induction false} FittedPredictsWithin(t: Node, X: seq<Row>, y: seq<real>, x: Row, lo: real, hi: real)
    requires |X| == |y| && Fitted(t, X, y) && PathIn(t, x) && Within(y, lo, hi)
    ensures lo <= Predict(t, x) <= hi
  {
    if t.isLeaf {
      MeanWithin(y, lo, hi);
    } else {
      var f: nat, thr := t.splitFeature, t.splitValue;
      var h := Partition(X, y, f, thr);
      if x[f] < thr {
        assert Within(h.leftY, lo, hi);
        FittedPredictsWithin(t.left.value, h.leftX, h.leftY, x, lo, hi);
      } else {
        assert Within(h.rightY, lo, hi);
        FittedPredictsWithin(t.right.value, h.rightX, h.rightY, x, lo, hi);
      }
    }
  }

  /**
   * After training, predicting a training sample gives the mean label of the
   * training samples that share its leaf, and the sample is one of them.
   */
  lemma TrainingSamplePredictsLeafMean(prev: Node, X: seq<Row>, y: seq<real>, depth: int, p: Hyper, x: Row)
    requires WellFormed(X, y) && x in X
    ensures |x| == Width(X) && PathIn(Grow(prev, X, y, depth, p), x)
    ensures var t := Grow(prev, X, y, depth, p);
      var r := Route(t, X, y, x);
      x in r.0 && |r.1| > 0 && Predict(t, x) == Mean(r.1)
  {
    var t := Grow(prev, X, y, depth, p);
    FeaturesInReadsPath(t, x);
    FittedPredictsLeafMean(t, X, y, x);
  }

  /** Every prediction of a trained tree lies between the smallest and largest training label. */
  lemma PredictionWithinLabelRange(prev: Node, X: seq<Row>, y: seq<real>, depth: int, p: Hyper, x: Row, lo: real, hi: real)
    requires WellFormed(X, y) && |x| >= Width(X) && Within(y, lo, hi)
    ensures FeaturesIn(Grow(prev, X, y, depth, p), |x|) && PathIn(Grow(prev, X, y, depth, p), x)
    ensures lo <= Predict(Grow(prev, X, y, depth, p), x) <= hi
  {
    var t := Grow(prev, X, y, depth, p);
    FeaturesInWider(t, Width(X), |x|);
    FeaturesInReadsPath(t, x);
    FittedPredictsWithin(t, X, y, x, lo, hi);
  }

  lemma {:induction false} FeaturesInWider(t: Node, n: nat, m: nat)
    requires FeaturesIn(t, n) && n <= m
    ensures FeaturesIn(t, m)
  {
    if !t.isLeaf {
      if t.left.Some? { FeaturesInWider(t.left.value, n, m); }
      if t.right.Some? { FeaturesInWider(t.right.value, n, m); }
    }
  }

  /**
   * Identical labels do not stop training: while some feature still varies
   * and neither limit is reached, the node is split even though the gain of
   * its split is minus the regularization, below zero.
   */
  lemma ConstantLabelsStillSplit(prev: Node, X: seq<Row>, y: seq<real>, depth: int, p: Hyper, v: real)
    requires WellFormed(X, y) && !ConstantColumns(X)
    requires depth < p.maxDepth && |X| >= p.minSamplesSplit
    requires Within(y, v, v)
    ensures var t := Grow(prev, X, y, depth, p);
      var st := BestSplit(X, y, p.regularization);
      && !t.isLeaf && t.splitFeature == st.bestFeature && t.splitValue == st.bestSplit
      && st.bestGain.Some? && st.bestGain.value == -p.regularization
  {
    GrowLeafIff(prev, X, y, depth, p);
    GrowSplitScore(prev, X, y, depth, p);
    ConstantLabelsBestGain(X, y, p.regularization, v);
  }

  /** Two samples with equal labels and different features: the root still splits, at gain -0.0001. */
  lemma EqualLabelsExample()
    ensures var X: seq<Row> := [[1.0], [2.0]];
      var t := Grow(Untrained, X, [3.0, 3.0], 0, Hyper(3, 2, 0.0001));
      var st := BestSplit(X, [3.0, 3.0], 0.0001);
      && !t.isLeaf && t.splitFeature == 0
      && st.bestGain.Some? && st.bestGain.value == -0.0001
  {
    var X: seq<Row> := [[1.0], [2.0]];
    assert X[1][0] != X[0][0];
    ConstantLabelsStillSplit(Untrained, X, [3.0, 3.0], 0, Hyper(3, 2, 0.0001), 3.0);
  }
}
