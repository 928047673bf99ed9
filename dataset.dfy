/**
 * Training data and the stable two-way partition of it by one feature test.
 * A sample is a row of feature values; rows and labels are parallel sequences.
 */
module Dataset {

  type Row = seq<real>

  /**
   * Every row has exactly `n` feature values: the shape of a training set.
   * `HasColumn` is the weaker demand of reading one feature, which is all
   * `Partition` needs.
   */
  predicate Rect(X: seq<Row>, n: nat)
  {
    forall i :: 0 <= i < |X| ==> |X[i]| == n
  }

  /** Every row has a value for feature `f`. */
  predicate HasColumn(X: seq<Row>, f: nat)
  {
    forall i :: 0 <= i < |X| ==> f < |X[i]|
  }

  /** What training demands of its input: at least one sample, one label per sample, rectangular rows. */
  predicate WellFormed(X: seq<Row>, y: seq<real>)
  {
    |X| > 0 && |X| == |y| && Rect(X, |X[0]|)
  }

  /** The number of features, read from the first row as training does. */
  function Width(X: seq<Row>): nat
    requires |X| > 0
  {
    |X[0]|
  }

  /** The four sequences that a split produces: rows and labels of each side. */
  datatype Halves = Halves(leftX: seq<Row>, rightX: seq<Row>, leftY: seq<real>, rightY: seq<real>)

  /**
   * Sends each sample, in order, left when its feature `f` is below `t` and
   * right otherwise, keeping every label with its row.
   */
  function Partition(X: seq<Row>, y: seq<real>, f: nat, t: real): (h: Halves)
    requires |X| == |y| && HasColumn(X, f)
    ensures |h.leftX| == |h.leftY| && |h.rightX| == |h.rightY|
    ensures |h.leftX| + |h.rightX| == |X|
    ensures forall k :: 0 <= k < |h.leftX| ==> h.leftX[k] in X && f < |h.leftX[k]| && h.leftX[k][f] < t
    ensures forall k :: 0 <= k < |h.rightX| ==> h.rightX[k] in X && f < |h.rightX[k]| && !(h.rightX[k][f] < t)
    ensures forall k :: 0 <= k < |h.leftY| ==> h.leftY[k] in y
    ensures forall k :: 0 <= k < |h.rightY| ==> h.rightY[k] in y
  {
    if X == [] then Halves([], [], [], [])
    else
      var n := |X| - 1;
      var h := Partition(X[..n], y[..n], f, t);
      if X[n][f] < t then Halves(h.leftX + [X[n]], h.rightX, h.leftY + [y[n]], h.rightY)
      else Halves(h.leftX, h.rightX + [X[n]], h.leftY, h.rightY + [y[n]])
  }

  /** Both sides of a split keep the row width. */
  lemma PartitionKeepsRect(X: seq<Row>, y: seq<real>, f: nat, t: real, n: nat)
    requires |X| == |y| && Rect(X, n) && f < n
    ensures HasColumn(X, f)
    ensures Rect(Partition(X, y, f, t).leftX, n) && Rect(Partition(X, y, f, t).rightX, n)
  {
    var h := Partition(X, y, f, t);
    forall k | 0 <= k < |h.leftX| ensures |h.leftX[k]| == n {
      var i :| 0 <= i < |X| && X[i] == h.leftX[k];
    }
    forall k | 0 <= k < |h.rightX| ensures |h.rightX[k]| == n {
      var i :| 0 <= i < |X| && X[i] == h.rightX[k];
    }
  }

  /**
   * The positions, in increasing order, of the samples whose test
   * `X[i][f] < t` comes out as `goLeft`.
   */
  function Positions(X: seq<Row>, f: nat, t: real, goLeft: bool): (idx: seq<nat>)
    requires HasColumn(X, f)
    ensures forall k :: 0 <= k < |idx| ==> idx[k] < |X|
    ensures forall j, k :: 0 <= j < k < |idx| ==> idx[j] < idx[k]
    ensures forall i :: 0 <= i < |X| ==> (i in idx <==> (X[i][f] < t) == goLeft)
  {
    if X == [] then []
    else
      var n := |X| - 1;
      assert forall i :: 0 <= i < n ==> X[..n][i] == X[i];
      var idx := Positions(X[..n], f, t, goLeft);
      if (X[n][f] < t) == goLeft then idx + [n] else idx
  }

  /** The elements of `s` at the positions `idx`, in that order. */
  function Select<T>(s: seq<T>, idx: seq<nat>): (r: seq<T>)
    requires forall k :: 0 <= k < |idx| ==> idx[k] < |s|
  {
    seq(|idx|, k requires 0 <= k < |idx| => s[idx[k]])
  }

  lemma SelectPrefix<T>(s: seq<T>, n: nat, idx: seq<nat>)
    requires n <= |s| && forall k :: 0 <= k < |idx| ==> idx[k] < n
    ensures Select(s[..n], idx) == Select(s, idx)
  {
  }

  lemma SelectSnoc<T>(s: seq<T>, idx: seq<nat>, n: nat)
    requires n < |s| && forall k :: 0 <= k < |idx| ==> idx[k] < |s|
    ensures Select(s, idx + [n]) == Select(s, idx) + [s[n]]
  {
  }

  /** The rows sent to one side of a split. */
  function SideRows(h: Halves, goLeft: bool): seq<Row>
  {
    if goLeft then h.leftX else h.rightX
  }

  /** The labels sent to one side of a split. */
  function SideLabels(h: Halves, goLeft: bool): seq<real>
  {
    if goLeft then h.leftY else h.rightY
  }

  /**
   * Each side of the partition is exactly the selection of the samples whose
   * test comes out that way, in their original order, each label staying
   * with its own row.
   */
  lemma {:induction false} PartitionSelects(X: seq<Row>, y: seq<real>, f: nat, t: real, goLeft: bool)
    requires |X| == |y| && HasColumn(X, f)
    ensures SideRows(Partition(X, y, f, t), goLeft) == Select(X, Positions(X, f, t, goLeft))
    ensures SideLabels(Partition(X, y, f, t), goLeft) == Select(y, Positions(X, f, t, goLeft))
  {
    if X != [] {
      var n := |X| - 1;
      assert HasColumn(X[..n], f) by {
        forall i | 0 <= i < n ensures f < |X[..n][i]| {
          assert X[..n][i] == X[i];
        }
      }
      PartitionSelects(X[..n], y[..n], f, t, goLeft);
      var h, h' := Partition(X, y, f, t), Partition(X[..n], y[..n], f, t);
      var idx := Positions(X[..n], f, t, goLeft);
      SelectPrefix(X, n, idx);
      SelectPrefix(y, n, idx);
      if (X[n][f] < t) == goLeft {
        assert Positions(X, f, t, goLeft) == idx + [n];
        assert SideRows(h, goLeft) == SideRows(h', goLeft) + [X[n]];
        assert SideLabels(h, goLeft) == SideLabels(h', goLeft) + [y[n]];
        SelectSnoc(X, idx, n);
        SelectSnoc(y, idx, n);
      } else {
        assert Positions(X, f, t, goLeft) == idx;
        assert SideRows(h, goLeft) == SideRows(h', goLeft);
        assert SideLabels(h, goLeft) == SideLabels(h', goLeft);
      }
    }
  }

  /** A sample always lands on the side its own test selects. */
  lemma PartitionRoutes(X: seq<Row>, y: seq<real>, f: nat, t: real, i: nat)
    requires |X| == |y| && HasColumn(X, f) && i < |X|
    ensures X[i] in SideRows(Partition(X, y, f, t), X[i][f] < t)
  {
    var goLeft := X[i][f] < t;
    PartitionSelects(X, y, f, t, goLeft);
    var idx := Positions(X, f, t, goLeft);
    var k :| 0 <= k < |idx| && idx[k] == i;
    assert Select(X, idx)[k] == X[i];
  }

  /** A split with two non-empty sides hands each side a well-formed training set of the same width. */
  lemma HalvesWellFormed(X: seq<Row>, y: seq<real>, f: nat, t: real)
    requires WellFormed(X, y) && f < Width(X)
    requires HasColumn(X, f)
    requires |Partition(X, y, f, t).leftY| > 0 && |Partition(X, y, f, t).rightY| > 0
    ensures var h := Partition(X, y, f, t);
      && WellFormed(h.leftX, h.leftY) && Width(h.leftX) == Width(X)
      && WellFormed(h.rightX, h.rightY) && Width(h.rightX) == Width(X)
  {
    PartitionKeepsRect(X, y, f, t, Width(X));
  }
}
