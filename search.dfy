/**
 * The greedy split search of one node: every feature in index order, every
 * distinct observed value of that feature in ascending order as a threshold,
 * degenerate partitions skipped, and the first candidate with a strictly
 * greater gain kept.
 */
module SplitSearch {
  import opened Wrappers
  import opened Stats
  import opened Dataset

  predicate StrictlyIncreasing(s: seq<real>)
  {
    forall i, j :: 0 <= i < j < |s| ==> s[i] < s[j]
  }

  /** Inserts `v` into an ascending sequence of distinct values unless it is already there. */
  function InsertSorted(s: seq<real>, v: real): (r: seq<real>)
    requires StrictlyIncreasing(s)
    ensures StrictlyIncreasing(r)
    ensures forall w :: w in r <==> w in s || w == v
  {
    if s == [] then [v]
    else
      HeadBelowTail(s);
      if v < s[0] then
        ConsIncreasing(v, s);
        [v] + s
      else if v == s[0] then s
      else
        var rest := InsertSorted(s[1..], v);
        ConsIncreasing(s[0], rest);
        [s[0]] + rest
  }

  /** The head of an ascending sequence lies below every later value. */
  lemma HeadBelowTail(s: seq<real>)
    requires StrictlyIncreasing(s) && s != []
    ensures s == [s[0]] + s[1..]
    ensures forall w :: w in s[1..] ==> s[0] < w
  {
    forall w | w in s[1..] ensures s[0] < w {
      var k :| 0 <= k < |s[1..]| && s[1..][k] == w;
      assert w == s[k + 1];
    }
  }

  /** A value below every value of an ascending sequence can go in front of it. */
  lemma ConsIncreasing(a: real, s: seq<real>)
    requires StrictlyIncreasing(s)
    requires forall w :: w in s ==> a < w
    ensures StrictlyIncreasing([a] + s)
  {
    var r := [a] + s;
    forall i, j | 0 <= i < j < |r| ensures r[i] < r[j] {
      assert r[j] == s[j - 1];
      if i > 0 {
        assert r[i] == s[i - 1];
      } else {
        assert s[j - 1] in s;
      }
    }
  }

  /** The distinct values of `s`, in ascending order. */
  function DistinctSorted(s: seq<real>): (r: seq<real>)
    ensures StrictlyIncreasing(r)
    ensures forall w :: w in r <==> w in s
  {
    if s == [] then []
    else InsertSorted(DistinctSorted(s[..|s| - 1]), s[|s| - 1])
  }

  /** The values of feature `f` over all samples. */
  function Column(X: seq<Row>, f: nat): seq<real>
    requires HasColumn(X, f)
  {
    seq(|X|, i requires 0 <= i < |X| => X[i][f])
  }

  /** The thresholds tried for feature `f`: its observed values, distinct and ascending. */
  function Thresholds(X: seq<Row>, f: nat): (ts: seq<real>)
    requires HasColumn(X, f)
    ensures StrictlyIncreasing(ts)
    ensures forall w :: w in ts <==> exists i :: 0 <= i < |X| && X[i][f] == w
  {
    var col := Column(X, f);
    assert forall i :: 0 <= i < |X| ==> col[i] == X[i][f];
    DistinctSorted(col)
  }

  /** A threshold test on one feature. */
  datatype Candidate = Candidate(feature: nat, threshold: real)

  /** The order in which the search visits candidates: by feature, then by threshold. */
  predicate Before(a: Candidate, b: Candidate)
  {
    a.feature < b.feature || (a.feature == b.feature && a.threshold < b.threshold)
  }

  /**
   * Every row has at least `n` features: the features the search has
   * reached so far can be read. Unlike `HasColumn(X, n - 1)` it also
   * covers `n == 0`, before any feature.
   */
  predicate Columns(X: seq<Row>, n: nat)
  {
    forall i :: 0 <= i < |X| ==> n <= |X[i]|
  }

  function FeatureCandidates(f: nat, ts: seq<real>): seq<Candidate>
  {
    seq(|ts|, k requires 0 <= k < |ts| => Candidate(f, ts[k]))
  }

  /** The candidates of the first `n` features, in the order they are tried. */
  function Candidates(X: seq<Row>, n: nat): (cs: seq<Candidate>)
    requires Columns(X, n)
    ensures forall k :: 0 <= k < |cs| ==> cs[k].feature < n
    ensures forall k :: 0 <= k < |cs| ==> cs[k].threshold in Thresholds(X, cs[k].feature)
  {
    if n == 0 then []
    else
      assert Columns(X, n - 1);
      Candidates(X, n - 1) + FeatureCandidates(n - 1, Thresholds(X, n - 1))
  }

  /** The candidates tried once feature `f` is reached and its first `k` thresholds are done. */
  function Tried(X: seq<Row>, f: nat, k: nat): (cs: seq<Candidate>)
    requires Columns(X, f + 1) && k <= |Thresholds(X, f)|
    ensures Scorable(X, cs)
  {
    assert Columns(X, f);
    Candidates(X, f) + FeatureCandidates(f, Thresholds(X, f)[..k])
  }

  lemma TriedStart(X: seq<Row>, f: nat)
    requires Columns(X, f + 1)
    ensures Columns(X, f) && Tried(X, f, 0) == Candidates(X, f)
  {
    assert Columns(X, f);
    assert Thresholds(X, f)[..0] == [];
  }

  lemma TriedNext(X: seq<Row>, f: nat, k: nat)
    requires Columns(X, f + 1) && k < |Thresholds(X, f)|
    ensures Tried(X, f, k + 1) == Tried(X, f, k) + [Candidate(f, Thresholds(X, f)[k])]
  {
    assert Columns(X, f);
    var ts := Thresholds(X, f);
    assert FeatureCandidates(f, ts[..k + 1]) == FeatureCandidates(f, ts[..k]) + [Candidate(f, ts[k])];
  }

  lemma TriedAll(X: seq<Row>, f: nat)
    requires Columns(X, f + 1)
    ensures Tried(X, f, |Thresholds(X, f)|) == Candidates(X, f + 1)
  {
    assert Columns(X, f);
    var ts := Thresholds(X, f);
    assert ts[..|ts|] == ts;
  }

  /** A threshold the search tries: a feature index in range and an observed value of it. */
  predicate IsCandidate(X: seq<Row>, c: Candidate)
    requires |X| > 0 && Rect(X, Width(X))
  {
    c.feature < Width(X) && exists i :: 0 <= i < |X| && X[i][c.feature] == c.threshold
  }

  predicate InSearchOrder(cs: seq<Candidate>)
  {
    forall a, b :: 0 <= a < b < |cs| ==> Before(cs[a], cs[b])
  }

  /** The candidate list is strictly ordered by `Before`, so it visits each candidate once. */
  lemma {:induction false} CandidatesOrdered(X: seq<Row>, n: nat)
    requires Columns(X, n)
    ensures InSearchOrder(Candidates(X, n))
  {
    if n > 0 {
      assert Columns(X, n - 1);
      CandidatesOrdered(X, n - 1);
      var front, back := Candidates(X, n - 1), FeatureCandidates(n - 1, Thresholds(X, n - 1));
      var cs := front + back;
      forall a, b | 0 <= a < b < |cs| ensures Before(cs[a], cs[b]) {
        if b < |front| {
          assert cs[a] == front[a] && cs[b] == front[b];
        } else if a < |front| {
          assert cs[a] == front[a] && cs[b] == back[b - |front|];
          assert front[a].feature < n - 1 && back[b - |front|].feature == n - 1;
        } else {
          var ts := Thresholds(X, n - 1);
          assert StrictlyIncreasing(ts);
          assert cs[a] == back[a - |front|] && cs[b] == back[b - |front|];
          assert back[a - |front|].threshold == ts[a - |front|];
          assert back[b - |front|].threshold == ts[b - |front|];
        }
      }
    }
  }

  /** The candidate list holds every candidate of the first `n` features. */
  lemma {:induction false} CandidatesComplete(X: seq<Row>, n: nat, c: Candidate)
    requires Columns(X, n)
    requires c.feature < n && c.threshold in Thresholds(X, c.feature)
    ensures c in Candidates(X, n)
  {
    assert Columns(X, n - 1);
    if c.feature < n - 1 {
      CandidatesComplete(X, n - 1, c);
    } else {
      var ts := Thresholds(X, n - 1);
      var k :| 0 <= k < |ts| && ts[k] == c.threshold;
      assert FeatureCandidates(n - 1, ts)[k] == c;
    }
  }

  /** In a list in search order, a candidate visited before another sits at a smaller position. */
  lemma PositionInSearchOrder(cs: seq<Candidate>, k: nat, j: nat)
    requires InSearchOrder(cs) && k < |cs| && j < |cs| && Before(cs[k], cs[j])
    ensures k < j
  {
  }

  /** The gain of a candidate, or None when one side of its partition is empty. */
  function Score(X: seq<Row>, y: seq<real>, regularization: real, c: Candidate): Option<real>
    requires |X| == |y| && HasColumn(X, c.feature)
  {
    var h := Partition(X, y, c.feature, c.threshold);
    if |h.leftY| == 0 || |h.rightY| == 0 then None
    else Some(Gain(y, h.leftY, h.rightY, regularization))
  }

  /** The search's running state; `bestGain == None` stands for the negative-infinity start. */
  datatype SearchState = SearchState(bestGain: Option<real>, bestFeature: nat, bestSplit: real)

  const Unsearched := SearchState(None, 0, 0.0)

  /** One candidate's effect on the state: it replaces the best only with a strictly greater gain. */
  function Step(st: SearchState, c: Candidate, score: Option<real>): SearchState
  {
    if score.Some? && (st.bestGain.None? || score.value > st.bestGain.value)
    then SearchState(score, c.feature, c.threshold)
    else st
  }

  /**
   * The state after trying the candidates `cs` in order, when the k-th one
   * scores `scores[k]`.
   */
  function Fold(cs: seq<Candidate>, scores: seq<Option<real>>): (st: SearchState)
    requires |cs| == |scores|
    ensures st.bestGain.None? ==> st == Unsearched
    ensures st.bestGain.Some? ==>
      exists k :: 0 <= k < |cs| && cs[k] == Candidate(st.bestFeature, st.bestSplit) && scores[k] == st.bestGain
  {
    if cs == [] then Unsearched
    else
      var n := |cs| - 1;
      var st := Step(Fold(cs[..n], scores[..n]), cs[n], scores[n]);
      assert forall k :: 0 <= k < n ==> cs[..n][k] == cs[k] && scores[..n][k] == scores[k];
      st
  }

  /** The fold finds nothing exactly when no candidate has a score. */
  lemma {:induction false} FoldFindsNothingIff(cs: seq<Candidate>, scores: seq<Option<real>>)
    requires |cs| == |scores|
    ensures Fold(cs, scores).bestGain.None? <==> forall k :: 0 <= k < |scores| ==> scores[k].None?
  {
    if cs != [] {
      var n := |cs| - 1;
      FoldFindsNothingIff(cs[..n], scores[..n]);
      assert forall k :: 0 <= k < n ==> scores[..n][k] == scores[k];
    }
  }

  /** Every score in `scores` is at most `best`. */
  predicate NoneGreater(scores: seq<Option<real>>, best: real)
  {
    forall k :: 0 <= k < |scores| && scores[k].Some? ==> scores[k].value <= best
  }

  /** Every score among the first `j` of `scores` is strictly below `best`. */
  predicate AllBelow(scores: seq<Option<real>>, j: nat, best: real)
    requires j <= |scores|
  {
    forall k :: 0 <= k < j && scores[k].Some? ==> scores[k].value < best
  }

  /**
   * The fold keeps the first candidate of maximum score: no score beats it
   * and every score before it is strictly smaller.
   */
  lemma {:induction false} FoldFirstMaximum(cs: seq<Candidate>, scores: seq<Option<real>>)
    requires |cs| == |scores|
    ensures var st := Fold(cs, scores);
      st.bestGain.Some? ==>
        exists j :: 0 <= j < |cs| && cs[j] == Candidate(st.bestFeature, st.bestSplit)
          && scores[j] == st.bestGain
          && NoneGreater(scores, st.bestGain.value)
          && AllBelow(scores, j, st.bestGain.value)
  {
    if cs != [] {
      var n := |cs| - 1;
      var init, sInit := cs[..n], scores[..n];
      assert forall k :: 0 <= k < n ==> init[k] == cs[k] && sInit[k] == scores[k];
      FoldFirstMaximum(init, sInit);
      FoldFindsNothingIff(init, sInit);
      var prev := Fold(init, sInit);
      var s := scores[n];
      var st := Fold(cs, scores);
      assert st == Step(prev, cs[n], s);
      if s.Some? && (prev.bestGain.None? || s.value > prev.bestGain.value) {
        assert cs[n] == Candidate(st.bestFeature, st.bestSplit);
        assert AllBelow(scores, n, st.bestGain.value);
      } else if prev.bestGain.Some? {
        var j :| 0 <= j < n && init[j] == Candidate(prev.bestFeature, prev.bestSplit)
          && sInit[j] == prev.bestGain
          && NoneGreater(sInit, prev.bestGain.value)
          && AllBelow(sInit, j, prev.bestGain.value);
        assert cs[j] == Candidate(st.bestFeature, st.bestSplit);
        assert AllBelow(scores, j, st.bestGain.value);
      }
    }
  }

  predicate Scorable(X: seq<Row>, cs: seq<Candidate>)
  {
    forall k :: 0 <= k < |cs| ==> HasColumn(X, cs[k].feature)
  }

  /** The score of each candidate of `cs`. */
  function Scores(X: seq<Row>, y: seq<real>, regularization: real, cs: seq<Candidate>): (scores: seq<Option<real>>)
    requires |X| == |y| && Scorable(X, cs)
  {
    seq(|cs|, k requires 0 <= k < |cs| => Score(X, y, regularization, cs[k]))
  }

  /** The state after trying the candidates `cs` in order. */
  function Scan(X: seq<Row>, y: seq<real>, regularization: real, cs: seq<Candidate>): (st: SearchState)
    requires |X| == |y| && Scorable(X, cs)
    ensures st.bestGain.Some? ==>
      var c := Candidate(st.bestFeature, st.bestSplit);
      c in cs && HasColumn(X, c.feature) && Score(X, y, regularization, c) == st.bestGain
  {
    Fold(cs, Scores(X, y, regularization, cs))
  }

  lemma ScanAppend(X: seq<Row>, y: seq<real>, regularization: real, cs: seq<Candidate>, c: Candidate)
    requires |X| == |y| && Scorable(X, cs) && HasColumn(X, c.feature)
    ensures Scorable(X, cs + [c])
    ensures Scan(X, y, regularization, cs + [c])
         == Step(Scan(X, y, regularization, cs), c, Score(X, y, regularization, c))
  {
    var scores := Scores(X, y, regularization, cs + [c]);
    assert (cs + [c])[..|cs|] == cs;
    assert scores[..|cs|] == Scores(X, y, regularization, cs);
  }

  /** The scan finds nothing exactly when no candidate has a score. */
  lemma ScanFindsNothingIff(X: seq<Row>, y: seq<real>, regularization: real, cs: seq<Candidate>)
    requires |X| == |y| && Scorable(X, cs)
    ensures Scan(X, y, regularization, cs).bestGain.None?
        <==> forall k :: 0 <= k < |cs| ==> Score(X, y, regularization, cs[k]).None?
  {
    var scores := Scores(X, y, regularization, cs);
    FoldFindsNothingIff(cs, scores);
    assert forall k :: 0 <= k < |cs| ==> scores[k] == Score(X, y, regularization, cs[k]);
  }

  /** The search over all candidates of a node's samples, as training runs it. */
  function BestSplit(X: seq<Row>, y: seq<real>, regularization: real): (st: SearchState)
    requires WellFormed(X, y)
    ensures Columns(X, Width(X))
    ensures st.bestGain.Some? ==>
      var c := Candidate(st.bestFeature, st.bestSplit);
      c.feature < Width(X) && HasColumn(X, c.feature)
        && Score(X, y, regularization, c) == st.bestGain
  {
    assert Columns(X, Width(X));
    Scan(X, y, regularization, Candidates(X, Width(X)))
  }

  /**
   * A candidate threshold partitions the samples into two non-empty sides
   * exactly when some sample's value lies below it.
   */
  lemma Viability(X: seq<Row>, y: seq<real>, regularization: real, c: Candidate)
    requires WellFormed(X, y) && IsCandidate(X, c)
    ensures HasColumn(X, c.feature)
    ensures Score(X, y, regularization, c).Some?
        <==> exists i :: 0 <= i < |X| && X[i][c.feature] < c.threshold
  {
    var f, t := c.feature, c.threshold;
    var h := Partition(X, y, f, t);
    var j :| 0 <= j < |X| && X[j][f] == t;
    PartitionRoutes(X, y, f, t, j);
    assert |h.rightX| > 0;
    if i :| 0 <= i < |X| && X[i][f] < t {
      PartitionRoutes(X, y, f, t, i);
      assert |h.leftX| > 0;
    }
    if |h.leftX| > 0 {
      var r := h.leftX[0];
      var i :| 0 <= i < |X| && X[i] == r;
      assert X[i][f] < t;
    }
  }

  /**
   * `c` is a candidate of the samples with some sample below its threshold
   * (so both sides are non-empty) and gain `gain`; no candidate has a
   * greater gain, and every candidate visited before it has a strictly
   * smaller one.
   */
  ghost predicate FirstBest(X: seq<Row>, y: seq<real>, regularization: real, c: Candidate, gain: real)
    requires WellFormed(X, y)
  {
    && IsCandidate(X, c)
    && (exists i :: 0 <= i < |X| && X[i][c.feature] < c.threshold)
    && Score(X, y, regularization, c) == Some(gain)
    && (forall d :: IsCandidate(X, d) && Score(X, y, regularization, d).Some? ==>
          Score(X, y, regularization, d).value <= gain)
    && (forall d :: IsCandidate(X, d) && Before(d, c) && Score(X, y, regularization, d).Some? ==>
          Score(X, y, regularization, d).value < gain)
  }

  /** The split the search commits to is the first candidate of maximum gain. */
  lemma BestSplitIsFirstMaximum(X: seq<Row>, y: seq<real>, regularization: real)
    requires WellFormed(X, y)
    ensures var st := BestSplit(X, y, regularization);
      st.bestGain.Some? ==>
        FirstBest(X, y, regularization, Candidate(st.bestFeature, st.bestSplit), st.bestGain.value)
  {
    var st := BestSplit(X, y, regularization);
    var c := Candidate(st.bestFeature, st.bestSplit);
    var w := Width(X);
    var cs := Candidates(X, w);
    var scores := Scores(X, y, regularization, cs);
    if st.bestGain.Some? {
      FoldFirstMaximum(cs, scores);
      CandidatesOrdered(X, w);
      var j :| 0 <= j < |cs| && cs[j] == c && scores[j] == st.bestGain
        && NoneGreater(scores, st.bestGain.value) && AllBelow(scores, j, st.bestGain.value);
      assert c.threshold in Thresholds(X, c.feature);
      assert IsCandidate(X, c);
      Viability(X, y, regularization, c);
      forall d | IsCandidate(X, d) && Score(X, y, regularization, d).Some?
        ensures Score(X, y, regularization, d).value <= st.bestGain.value
        ensures Before(d, c) ==> Score(X, y, regularization, d).value < st.bestGain.value
      {
        NoCandidateBeats(X, y, regularization, j, st.bestGain.value, d);
      }
    }
  }

  /**
   * When the `j`-th candidate's gain `best` is at least every score and
   * strictly above every earlier one, no candidate beats it and none before
   * it ties it.
   */
  lemma NoCandidateBeats(X: seq<Row>, y: seq<real>, regularization: real, j: nat, best: real, d: Candidate)
    requires WellFormed(X, y)
    requires var cs := Candidates(X, Width(X));
      && j < |cs|
      && NoneGreater(Scores(X, y, regularization, cs), best)
      && AllBelow(Scores(X, y, regularization, cs), j, best)
    requires IsCandidate(X, d) && Score(X, y, regularization, d).Some?
    ensures var c := Candidates(X, Width(X))[j];
      && Score(X, y, regularization, d).value <= best
      && (Before(d, c) ==> Score(X, y, regularization, d).value < best)
  {
    var w := Width(X);
    var cs := Candidates(X, w);
    CandidatesOrdered(X, w);
    assert d.threshold in Thresholds(X, d.feature);
    CandidatesComplete(X, w, d);
    var k :| 0 <= k < |cs| && cs[k] == d;
    assert Scores(X, y, regularization, cs)[k] == Score(X, y, regularization, d);
    if Before(d, cs[j]) {
      PositionInSearchOrder(cs, k, j);
    }
  }

  /** Every feature takes one value over all samples. */
  predicate ConstantColumns(X: seq<Row>)
    requires |X| > 0 && Rect(X, Width(X))
  {
    forall i, f :: 0 <= i < |X| && 0 <= f < Width(X) ==> X[i][f] == X[0][f]
  }

  lemma ConstantColumnsGiveNoSplit(X: seq<Row>, y: seq<real>, regularization: real)
    requires WellFormed(X, y) && ConstantColumns(X)
    ensures BestSplit(X, y, regularization).bestGain.None?
  {
    var cs := Candidates(X, Width(X));
    ScanFindsNothingIff(X, y, regularization, cs);
    forall k | 0 <= k < |cs| ensures Score(X, y, regularization, cs[k]).None? {
      var c := cs[k];
      assert c.threshold in Thresholds(X, c.feature);
      var j :| 0 <= j < |X| && X[j][c.feature] == c.threshold;
      assert forall i :: 0 <= i < |X| ==> X[i][c.feature] == c.threshold by {
        forall i | 0 <= i < |X| ensures X[i][c.feature] == c.threshold {
          assert X[i][c.feature] == X[0][c.feature] == X[j][c.feature];
        }
      }
      Viability(X, y, regularization, c);
    }
  }

  lemma VaryingColumnGivesSplit(X: seq<Row>, y: seq<real>, regularization: real, i: nat, f: nat)
    requires WellFormed(X, y) && i < |X| && f < Width(X) && X[i][f] != X[0][f]
    ensures BestSplit(X, y, regularization).bestGain.Some?
  {
    var cs := Candidates(X, Width(X));
    ScanFindsNothingIff(X, y, regularization, cs);
    var c := if X[i][f] < X[0][f] then Candidate(f, X[0][f]) else Candidate(f, X[i][f]);
    assert IsCandidate(X, c);
    Viability(X, y, regularization, c);
    assert c.threshold in Thresholds(X, c.feature);
    CandidatesComplete(X, Width(X), c);
    var k :| 0 <= k < |cs| && cs[k] == c;
    assert Score(X, y, regularization, cs[k]).Some?;
  }

  /**
   * The search finds no split exactly when every feature is constant over
   * the samples; the sign of the gain plays no part.
   */
  lemma NoSplitIffConstantColumns(X: seq<Row>, y: seq<real>, regularization: real)
    requires WellFormed(X, y)
    ensures BestSplit(X, y, regularization).bestGain.None? <==> ConstantColumns(X)
  {
    if ConstantColumns(X) {
      ConstantColumnsGiveNoSplit(X, y, regularization);
    } else {
      var i, f :| 0 <= i < |X| && 0 <= f < Width(X) && X[i][f] != X[0][f];
      VaryingColumnGivesSplit(X, y, regularization, i, f);
    }
  }

  /**
   * When every label is the same, every split that leaves both sides
   * non-empty scores exactly minus the regularization: the search compares
   * nothing but this constant, and the score it keeps is negative whenever
   * the regularization is positive.
   */
  lemma ConstantLabelsScoreMinusRegularization(X: seq<Row>, y: seq<real>, regularization: real, c: Candidate, v: real)
    requires |X| == |y| && HasColumn(X, c.feature)
    requires Within(y, v, v)
    ensures Score(X, y, regularization, c).Some? ==> Score(X, y, regularization, c) == Some(-regularization)
  {
    var h := Partition(X, y, c.feature, c.threshold);
    if |h.leftY| > 0 && |h.rightY| > 0 {
      ConstantVariance(y, v);
      assert forall i :: 0 <= i < |y| ==> y[i] == v;
      forall k | 0 <= k < |h.leftY| ensures h.leftY[k] == v {
        assert h.leftY[k] in y;
      }
      forall k | 0 <= k < |h.rightY| ensures h.rightY[k] == v {
        assert h.rightY[k] in y;
      }
      ConstantVariance(h.leftY, v);
      ConstantVariance(h.rightY, v);
    }
  }

  /** With identical labels, any gain the search records is minus the regularization. */
  lemma ConstantLabelsBestGain(X: seq<Row>, y: seq<real>, regularization: real, v: real)
    requires WellFormed(X, y) && Within(y, v, v)
    ensures var st := BestSplit(X, y, regularization);
      st.bestGain.Some? ==> st.bestGain.value == -regularization
  {
    var st := BestSplit(X, y, regularization);
    if st.bestGain.Some? {
      ConstantLabelsScoreMinusRegularization(X, y, regularization, Candidate(st.bestFeature, st.bestSplit), v);
    }
  }
}
