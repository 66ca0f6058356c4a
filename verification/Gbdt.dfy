/** Gradient boosting with small regression trees, over exact reals: what one tree takes out of the
    residuals, and why the training loss never rises. */
module Gbdt {

  /** The result of a search for a split. */
  datatype Choice = NoSplit | Chosen(feat: nat, thresh: real)

  /** A training row and its target. */
  datatype Sample = Sample(x: seq<real>, y: real)

  type Data = seq<Sample>

  datatype Cart = Leaf(value: real) | Split(feat: nat, thresh: real, left: Cart, right: Cart)

  const TINY := 0.0000000001

  /** Rows are equally wide, so the default is never used on training data. */
  function Feature(x: seq<real>, feat: nat): real {
    if feat < |x| then x[feat] else 0.0
  }

  /** `_prefict_one`. */
  function Predict(x: seq<real>, tree: Cart): real {
    match tree
    case Leaf(value) => value
    case Split(feat, thresh, left, right) =>
      if Feature(x, feat) <= thresh then Predict(x, left) else Predict(x, right)
  }

  // ---------- sums ----------

  function Total(d: Data, f: Sample -> real): real {
    if d == [] then 0.0 else f(d[0]) + Total(d[1..], f)
  }

  function SumY(d: Data): real {
    Total(d, (s: Sample) => s.y)
  }

  function Mean(d: Data): real
    requires d != []
  {
    SumY(d) / |d| as real
  }

  function Square(a: real): real {
    a * a
  }

  /** The sum of squared distances from c. */
  function Deviation(d: Data, c: real): real {
    Total(d, (s: Sample) => Square(s.y - c))
  }

  /** `_mse`. */
  function Mse(d: Data): real {
    if d == [] then 0.0 else Deviation(d, Mean(d)) / |d| as real
  }

  function Left(d: Data, feat: nat, thresh: real): Data {
    if d == [] then []
    else (if Feature(d[0].x, feat) <= thresh then [d[0]] else []) + Left(d[1..], feat, thresh)
  }

  function Right(d: Data, feat: nat, thresh: real): Data {
    if d == [] then []
    else (if Feature(d[0].x, feat) <= thresh then [] else [d[0]]) + Right(d[1..], feat, thresh)
  }

  lemma {:induction false} TotalSplit(d: Data, feat: nat, thresh: real, f: Sample -> real)
    ensures Total(d, f) == Total(Left(d, feat, thresh), f) + Total(Right(d, feat, thresh), f)
    ensures |d| == |Left(d, feat, thresh)| + |Right(d, feat, thresh)|
  {
    if d != [] {
      TotalSplit(d[1..], feat, thresh, f);
      var l, r := Left(d[1..], feat, thresh), Right(d[1..], feat, thresh);
      assert ([d[0]] + l)[1..] == l && ([d[0]] + r)[1..] == r && [] + l == l && [] + r == r;
    }
  }

  lemma {:induction false} TotalSame(d: Data, f: Sample -> real, g: Sample -> real)
    requires forall s :: s in d ==> f(s) == g(s)
    ensures Total(d, f) == Total(d, g)
  {
    if d != [] {
      TotalSame(d[1..], f, g);
    }
  }

  lemma {:induction false} SideMembers(d: Data, feat: nat, thresh: real)
    ensures forall s :: s in Left(d, feat, thresh) ==> s in d && Feature(s.x, feat) <= thresh
    ensures forall s :: s in Right(d, feat, thresh) ==> s in d && !(Feature(s.x, feat) <= thresh)
  {
    if d != [] {
      SideMembers(d[1..], feat, thresh);
    }
  }

  // ---------- choosing a split ----------

  function Gain(d: Data, feat: nat, thresh: real): real
    requires d != []
  {
    var l, r := Left(d, feat, thresh), Right(d, feat, thresh);
    Mse(d) - (|l| as real / |d| as real * Mse(l) + |r| as real / |d| as real * Mse(r))
  }

  function Column(d: Data, feat: nat): seq<real> {
    seq(|d|, i requires 0 <= i < |d| => Feature(d[i].x, feat))
  }

  ghost predicate Candidate(d: Data, width: nat, feat: nat, thresh: real) {
    feat < width && thresh in Column(d, feat) && Left(d, feat, thresh) != [] && Right(d, feat, thresh) != []
  }

  predicate Before(f: nat, t: real, feat: nat, thresh: real) {
    f < feat || (f == feat && t < thresh)
  }

  /** The candidate with the largest gain, the first of them in scanning order. */
  ghost predicate IsBest(d: Data, width: nat, feat: nat, thresh: real)
    requires d != []
  {
    && Candidate(d, width, feat, thresh) && Gain(d, feat, thresh) > 0.0
    && forall f, t :: Candidate(d, width, f, t) ==>
         Gain(d, f, t) <= Gain(d, feat, thresh)
         && (Before(f, t, feat, thresh) ==> Gain(d, f, t) < Gain(d, feat, thresh))
  }

  ghost predicate Increasing(s: seq<real>) {
    forall i, j :: 0 <= i < j < |s| ==> s[i] < s[j]
  }

  /** `np.unique`: the distinct values in increasing order. */
  function Unique(s: seq<real>): (r: seq<real>)
    ensures Increasing(r) && forall v :: v in r <==> v in s
  {
    if s == [] then []
    else
      assert s == [s[0]] + s[1..];
      Inserted(s[0], Unique(s[1..]))
  }

  function Inserted(v: real, s: seq<real>): (r: seq<real>)
    requires Increasing(s)
    ensures Increasing(r) && forall w :: w in r <==> w == v || w in s
  {
    if s == [] || v < s[0] then [v] + s
    else if v == s[0] then s
    else
      var rest := Inserted(v, s[1..]);
      assert forall i :: 0 < i < |s| ==> s[i] == s[1..][i - 1];
      assert forall w :: w in s[1..] ==> s[0] < w;
      assert forall i :: 0 <= i < |rest| ==> rest[i] in rest;
      assert forall w :: w in s <==> w == s[0] || w in s[1..];
      [s[0]] + rest
  }

  /** Scanned before threshold number i of the feature. */
  ghost predicate Scanned(f: nat, t: real, feat: nat, thresholds: seq<real>, i: nat) {
    f < feat || (f == feat && i <= |thresholds| && t in thresholds[..i])
  }

  /** The best of what has been scanned. */
  ghost predicate BestSoFar(d: Data, width: nat, best: Choice, gain: real, feat: nat, thresholds: seq<real>, i: nat)
    requires d != []
  {
    && (best.NoSplit? ==> gain == 0.0)
    && (best.Chosen? ==>
          && Candidate(d, width, best.feat, best.thresh) && gain == Gain(d, best.feat, best.thresh) > 0.0
          && Scanned(best.feat, best.thresh, feat, thresholds, i))
    && forall f, t :: Candidate(d, width, f, t) && Scanned(f, t, feat, thresholds, i) ==>
         Gain(d, f, t) <= gain
         && (best.Chosen? && Before(f, t, best.feat, best.thresh) ==> Gain(d, f, t) < gain)
  }

  /** `_best_split`. */
  method BestSplit(d: Data, width: nat) returns (best: Choice, gain: real)
    requires d != []
    ensures best.Chosen? ==> IsBest(d, width, best.feat, best.thresh) && gain == Gain(d, best.feat, best.thresh)
    ensures best.NoSplit? ==> gain == 0.0 && forall f, t :: Candidate(d, width, f, t) ==> Gain(d, f, t) <= 0.0
  {
    hide BestSoFar, Gain, Column, Left, Right;
    best, gain := NoSplit, 0.0;
    NothingScanned(d, width);
    for feat := 0 to width
      invariant BestSoFar(d, width, best, gain, feat, [], 0)
    {
      var thresholds := Unique(Column(d, feat));
      FeatureBegun(d, width, best, gain, feat, thresholds);
      for i := 0 to |thresholds|
        invariant BestSoFar(d, width, best, gain, feat, thresholds, i)
      {
        var thresh := thresholds[i];
        if Left(d, feat, thresh) == [] || Right(d, feat, thresh) == [] {
          NoCandidate(d, width, best, gain, feat, thresholds, i);
          continue;
        }
        var g := Gain(d, feat, thresh);
        Weighed(d, width, best, gain, feat, thresholds, i);
        if g > gain {
          best, gain := Chosen(feat, thresh), g;
        }
      }
      FeatureDone(d, width, best, gain, feat, thresholds);
    }
    AllScanned(d, width, best, gain);
  }

  lemma NothingScanned(d: Data, width: nat)
    requires d != []
    ensures BestSoFar(d, width, NoSplit, 0.0, 0, [], 0)
  {
  }

  lemma FeatureBegun(d: Data, width: nat, best: Choice, gain: real, feat: nat, thresholds: seq<real>)
    requires d != [] && BestSoFar(d, width, best, gain, feat, [], 0)
    ensures BestSoFar(d, width, best, gain, feat, thresholds, 0)
  {
    hide Gain, Candidate;
  }

  lemma NoCandidate(d: Data, width: nat, best: Choice, gain: real, feat: nat, thresholds: seq<real>, i: nat)
    requires d != [] && i < |thresholds| && !Candidate(d, width, feat, thresholds[i])
    requires BestSoFar(d, width, best, gain, feat, thresholds, i)
    ensures BestSoFar(d, width, best, gain, feat, thresholds, i + 1)
  {
    hide Gain, Candidate;
    assert thresholds[..i + 1] == thresholds[..i] + [thresholds[i]];
  }

  /** One more candidate: the better of it and the best so far, which wins a draw. */
  lemma Weighed(d: Data, width: nat, best: Choice, gain: real, feat: nat, thresholds: seq<real>, i: nat)
    requires d != [] && i < |thresholds| && Increasing(thresholds) && Candidate(d, width, feat, thresholds[i])
    requires BestSoFar(d, width, best, gain, feat, thresholds, i)
    ensures var g := Gain(d, feat, thresholds[i]);
      if g > gain then BestSoFar(d, width, Chosen(feat, thresholds[i]), g, feat, thresholds, i + 1)
      else BestSoFar(d, width, best, gain, feat, thresholds, i + 1)
  {
    hide Gain, Candidate;
    assert thresholds[..i + 1] == thresholds[..i] + [thresholds[i]];
    assert forall t :: t in thresholds[..i] ==> t < thresholds[i];
  }

  lemma AllScanned(d: Data, width: nat, best: Choice, gain: real)
    requires d != [] && BestSoFar(d, width, best, gain, width, [], 0)
    ensures best.Chosen? ==> IsBest(d, width, best.feat, best.thresh) && gain == Gain(d, best.feat, best.thresh)
    ensures best.NoSplit? ==> gain == 0.0 && forall f, t :: Candidate(d, width, f, t) ==> Gain(d, f, t) <= 0.0
  {
    hide Gain;
    assert forall f, t :: Candidate(d, width, f, t) ==> Scanned(f, t, width, [], 0);
  }

  lemma FeatureDone(d: Data, width: nat, best: Choice, gain: real, feat: nat, thresholds: seq<real>)
    requires d != [] && feat < width && (forall t :: t in Column(d, feat) ==> t in thresholds)
    requires BestSoFar(d, width, best, gain, feat, thresholds, |thresholds|)
    ensures BestSoFar(d, width, best, gain, feat + 1, [], 0)
  {
    hide Gain, Column, Left, Right;
    assert thresholds[..|thresholds|] == thresholds;
    forall f, t | Candidate(d, width, f, t) && Scanned(f, t, feat + 1, [], 0)
      ensures Scanned(f, t, feat, thresholds, |thresholds|)
    {
    }
  }

  // ---------- growing a tree ----------

  predicate Stops(d: Data, depth: nat, maxDepth: nat) {
    depth >= maxDepth || |d| <= 1 || Mse(d) < TINY
  }

  /** The tree that `_build_tree` grows on these samples. */
  ghost predicate IsCart(tree: Cart, d: Data, depth: nat, maxDepth: nat, width: nat)
    requires d != []
    decreases tree
  {
    if Stops(d, depth, maxDepth) then tree == Leaf(Mean(d))
    else
      match tree
      case Leaf(value) =>
        value == Mean(d) && forall f, t :: Candidate(d, width, f, t) ==> Gain(d, f, t) < TINY
      case Split(feat, thresh, left, right) =>
        && IsBest(d, width, feat, thresh) && Gain(d, feat, thresh) >= TINY
        && IsCart(left, Left(d, feat, thresh), depth + 1, maxDepth, width)
        && IsCart(right, Right(d, feat, thresh), depth + 1, maxDepth, width)
  }

  /** `_build_tree`. */
  method BuildTree(d: Data, depth: nat, maxDepth: nat, width: nat) returns (tree: Cart)
    requires d != []
    ensures IsCart(tree, d, depth, maxDepth, width)
    decreases maxDepth - depth
  {
    hide IsBest, Gain, Mse, Mean, Left, Right;
    if Stops(d, depth, maxDepth) {
      return Leaf(Mean(d));
    }
    var best, gain := BestSplit(d, width);
    if best.NoSplit? || gain < TINY {
      BestIsLargest(d, width, best, gain);
      return Leaf(Mean(d));
    }
    BestSplitsBoth(d, width, best.feat, best.thresh);
    var left := BuildTree(Left(d, best.feat, best.thresh), depth + 1, maxDepth, width);
    var right := BuildTree(Right(d, best.feat, best.thresh), depth + 1, maxDepth, width);
    tree := Split(best.feat, best.thresh, left, right);
  }

  lemma BestSplitsBoth(d: Data, width: nat, feat: nat, thresh: real)
    requires d != [] && IsBest(d, width, feat, thresh)
    ensures Left(d, feat, thresh) != [] && Right(d, feat, thresh) != []
  {
  }

  lemma BestIsLargest(d: Data, width: nat, best: Choice, gain: real)
    requires d != []
    requires best.Chosen? ==> IsBest(d, width, best.feat, best.thresh) && gain == Gain(d, best.feat, best.thresh)
    requires best.NoSplit? ==> gain == 0.0 && forall f, t :: Candidate(d, width, f, t) ==> Gain(d, f, t) <= 0.0
    ensures forall f, t :: Candidate(d, width, f, t) ==> Gain(d, f, t) <= gain
  {
    hide Gain;
  }

  function HeightOf(tree: Cart): nat {
    match tree
    case Leaf(_) => 0
    case Split(_, _, left, right) =>
      1 + if HeightOf(left) > HeightOf(right) then HeightOf(left) else HeightOf(right)
  }

  /** Some candidate gains at least 10^-10. */
  ghost predicate WorthSplitting(d: Data, width: nat)
    requires d != []
  {
    exists f, t :: Candidate(d, width, f, t) && Gain(d, f, t) >= 0.0000000001
  }

  /** The tree grows as far as it may with so many levels left: at every node, for the samples that
      reach it, it splits if and only if it has a level left, more than one sample, a squared error of at
      least 10^-10 and a candidate worth it. */
  ghost predicate GrownFully(tree: Cart, d: Data, levels: nat, width: nat)
    requires d != []
    decreases tree
  {
    && (tree.Split? <==> levels > 0 && |d| > 1 && Mse(d) >= 0.0000000001 && WorthSplitting(d, width))
    && (tree.Split? ==>
          var l, r := Left(d, tree.feat, tree.thresh), Right(d, tree.feat, tree.thresh);
          && l != [] && r != []
          && GrownFully(tree.left, l, levels - 1, width) && GrownFully(tree.right, r, levels - 1, width))
  }

  /** A tree is never higher than the levels that are left, and makes full use of them. */
  lemma {:induction false} GrowsFully(tree: Cart, d: Data, depth: nat, maxDepth: nat, width: nat)
    requires d != [] && IsCart(tree, d, depth, maxDepth, width)
    ensures var levels := if maxDepth > depth then maxDepth - depth else 0;
      HeightOf(tree) <= levels && GrownFully(tree, d, levels, width)
    decreases tree
  {
    hide Gain, Mse, Left, Right, Mean;
    if tree.Split? {
      BestSplitsBoth(d, width, tree.feat, tree.thresh);
      GrowsFully(tree.left, Left(d, tree.feat, tree.thresh), depth + 1, maxDepth, width);
      GrowsFully(tree.right, Right(d, tree.feat, tree.thresh), depth + 1, maxDepth, width);
    }
  }

  lemma {:induction false} DeviationPositive(d: Data, c: real)
    ensures Deviation(d, c) >= 0.0
  {
    if d != [] {
      DeviationPositive(d[1..], c);
    }
  }

  lemma MsePositive(d: Data)
    ensures Mse(d) >= 0.0
  {
    if d != [] {
      DeviationPositive(d, Mean(d));
    }
  }

  /** No split gains more than there is. */
  lemma GainAtMost(d: Data, feat: nat, thresh: real)
    requires d != []
    ensures Gain(d, feat, thresh) <= Mse(d)
  {
    hide Mse;
    var l, r := Left(d, feat, thresh), Right(d, feat, thresh);
    MsePositive(l);
    MsePositive(r);
    NonNegativeProduct(|l| as real / |d| as real, Mse(l));
    NonNegativeProduct(|r| as real / |d| as real, Mse(r));
  }

  // ---------- what a tree takes out ----------

  function PredictionOf(tree: Cart): Sample -> real {
    (s: Sample) => Predict(s.x, tree)
  }

  function SquareOf(tree: Cart): Sample -> real {
    (s: Sample) => Square(Predict(s.x, tree))
  }

  function ProductOf(tree: Cart): Sample -> real {
    (s: Sample) => s.y * Predict(s.x, tree)
  }

  /** The sum of the squared predictions on the samples. */
  function Strength(d: Data, tree: Cart): real {
    Total(d, SquareOf(tree))
  }

  lemma {:induction false} LeafSums(d: Data, m: real)
    ensures Total(d, PredictionOf(Leaf(m))) == |d| as real * m
    ensures Total(d, SquareOf(Leaf(m))) == |d| as real * Square(m)
    ensures Total(d, ProductOf(Leaf(m))) == m * SumY(d)
  {
    if d != [] {
      LeafSums(d[1..], m);
      assert SumY(d) == d[0].y + SumY(d[1..]);
      Distribute(m, d[0].y, SumY(d[1..]));
      assert |d| as real == 1.0 + |d[1..]| as real;
      Distribute(m, 1.0, |d[1..]| as real);
      Distribute(Square(m), 1.0, |d[1..]| as real);
    }
  }

  lemma Distribute(a: real, b: real, c: real)
    ensures a * (b + c) == a * b + a * c
  {
  }

  lemma SplitSums(d: Data, feat: nat, thresh: real, left: Cart, right: Cart)
    ensures var t, l, r := Split(feat, thresh, left, right), Left(d, feat, thresh), Right(d, feat, thresh);
      && Total(d, PredictionOf(t)) == Total(l, PredictionOf(left)) + Total(r, PredictionOf(right))
      && Total(d, SquareOf(t)) == Total(l, SquareOf(left)) + Total(r, SquareOf(right))
      && Total(d, ProductOf(t)) == Total(l, ProductOf(left)) + Total(r, ProductOf(right))
      && SumY(d) == SumY(l) + SumY(r)
  {
    hide Total;
    var t := Split(feat, thresh, left, right);
    SplitTotal(d, feat, thresh, PredictionOf(t), PredictionOf(left), PredictionOf(right));
    SplitTotal(d, feat, thresh, SquareOf(t), SquareOf(left), SquareOf(right));
    SplitTotal(d, feat, thresh, ProductOf(t), ProductOf(left), ProductOf(right));
    TotalSplit(d, feat, thresh, (s: Sample) => s.y);
  }

  lemma SplitTotal(d: Data, feat: nat, thresh: real, f: Sample -> real, fl: Sample -> real, fr: Sample -> real)
    requires forall s :: f(s) == if Feature(s.x, feat) <= thresh then fl(s) else fr(s)
    ensures Total(d, f) == Total(Left(d, feat, thresh), fl) + Total(Right(d, feat, thresh), fr)
  {
    hide Total;
    TotalSplit(d, feat, thresh, f);
    SideMembers(d, feat, thresh);
    TotalSame(Left(d, feat, thresh), f, fl);
    TotalSame(Right(d, feat, thresh), f, fr);
  }

  /** Every sample reaches the leaf that holds the mean of its group: so the predictions sum to the
      targets, and the errors are orthogonal to the predictions. */
  lemma {:induction false} TreeSums(tree: Cart, d: Data, depth: nat, maxDepth: nat, width: nat)
    requires d != [] && IsCart(tree, d, depth, maxDepth, width)
    ensures Total(d, PredictionOf(tree)) == SumY(d)
    ensures Total(d, ProductOf(tree)) == Strength(d, tree)
    decreases tree
  {
    hide Total, Gain, Mse, Left, Right;
    match tree
    case Leaf(m) =>
      LeafSums(d, m);
      MeanTimesCount(d);
    case Split(feat, thresh, left, right) =>
      BestSplitsBoth(d, width, feat, thresh);
      SplitSums(d, feat, thresh, left, right);
      TreeSums(left, Left(d, feat, thresh), depth + 1, maxDepth, width);
      TreeSums(right, Right(d, feat, thresh), depth + 1, maxDepth, width);
  }

  lemma MeanTimesCount(d: Data)
    requires d != []
    ensures |d| as real * Mean(d) == SumY(d)
    ensures Mean(d) * SumY(d) == |d| as real * Square(Mean(d))
  {
    var n, m := |d| as real, Mean(d);
    assert n * m == SumY(d);
    assert m * (n * m) == n * (m * m);
  }

  // ---------- boosting ----------

  /** What one more tree, shrunk by the learning rate, leaves of a sample. */
  function ShiftedSample(s: Sample, rate: real, tree: Cart): Sample {
    Sample(s.x, s.y - rate * Predict(s.x, tree))
  }

  /** The residuals after one more tree. */
  function Shifted(d: Data, rate: real, tree: Cart): (r: Data)
    ensures |r| == |d|
    ensures forall i :: 0 <= i < |d| ==> r[i] == ShiftedSample(d[i], rate, tree)
  {
    seq(|d|, i requires 0 <= i < |d| => ShiftedSample(d[i], rate, tree))
  }

  function Centered(d: Data, init: real): (r: Data)
    ensures |r| == |d|
  {
    seq(|d|, i requires 0 <= i < |d| => Sample(d[i].x, d[i].y - init))
  }

  function Residuals(d: Data, init: real, rate: real, trees: seq<Cart>): (r: Data)
    ensures |r| == |d|
  {
    if trees == [] then Centered(d, init)
    else Shifted(Residuals(d, init, rate, trees[..|trees| - 1]), rate, trees[|trees| - 1])
  }

  /** The model's prediction. */
  function Boosted(x: seq<real>, init: real, rate: real, trees: seq<Cart>): real {
    if trees == [] then init
    else Boosted(x, init, rate, trees[..|trees| - 1]) + rate * Predict(x, trees[|trees| - 1])
  }

  lemma {:induction false} ResidualAt(d: Data, init: real, rate: real, trees: seq<Cart>, i: nat)
    requires i < |d|
    ensures Residuals(d, init, rate, trees)[i] == Sample(d[i].x, d[i].y - Boosted(d[i].x, init, rate, trees))
    decreases |trees|
  {
    if trees != [] {
      ResidualAt(d, init, rate, trees[..|trees| - 1], i);
    }
  }

  /** What `fit` produces: every tree was grown on the residuals of the trees before it. */
  ghost predicate Fitted(d: Data, width: nat, maxDepth: nat, rate: real, init: real, trees: seq<Cart>)
    requires d != []
  {
    init == Mean(d) &&
    forall k :: 0 <= k < |trees| ==> IsCart(trees[k], Residuals(d, init, rate, trees[..k]), 0, maxDepth, width)
  }

  class Regressor {
    const nEstimator: nat
    const learningRate: real
    const maxDepth: nat
    var trees: seq<Cart>
    var initPred: real

    constructor (nEstimator: nat, learningRate: real, maxDepth: nat)
      ensures this.nEstimator == nEstimator && this.learningRate == learningRate && this.maxDepth == maxDepth
      ensures trees == []
    {
      this.nEstimator, this.learningRate, this.maxDepth := nEstimator, learningRate, maxDepth;
      trees, initPred := [], 0.0;
    }

    /** `fit`. */
    method Fit(d: Data, width: nat)
      requires d != []
      modifies this
      ensures |trees| == nEstimator && Fitted(d, width, maxDepth, learningRate, initPred, trees)
    {
      hide Fitted, IsCart, Residuals, Mean;
      initPred := Mean(d);
      var init := initPred;
      var current := new real[|d|](_ => init);
      trees := [];
      NothingFitted(d, width, maxDepth, learningRate);
      for k := 0 to nEstimator
        invariant |trees| == k && initPred == init && Fitted(d, width, maxDepth, learningRate, init, trees)
        invariant forall i :: 0 <= i < |d| ==> current[i] == Boosted(d[i].x, init, learningRate, trees)
      {
        var residuals := seq(|d|, i requires 0 <= i < |d| reads current => Sample(d[i].x, d[i].y - current[i]));
        ResidualsAre(d, init, learningRate, trees, residuals);
        var tree := BuildTree(residuals, 0, maxDepth, width);
        FittedMore(d, width, maxDepth, learningRate, init, trees, tree);
        forall i | 0 <= i < |d| {
          current[i] := current[i] + learningRate * Predict(d[i].x, tree);
        }
        assert (trees + [tree])[..k] == trees;
        trees := trees + [tree];
      }
    }
  }

  lemma NothingFitted(d: Data, width: nat, maxDepth: nat, rate: real)
    requires d != []
    ensures Fitted(d, width, maxDepth, rate, Mean(d), [])
  {
  }

  lemma ResidualsAre(d: Data, init: real, rate: real, trees: seq<Cart>, r: Data)
    requires |r| == |d|
    requires forall i :: 0 <= i < |d| ==> r[i] == Sample(d[i].x, d[i].y - Boosted(d[i].x, init, rate, trees))
    ensures r == Residuals(d, init, rate, trees)
  {
    forall i | 0 <= i < |d| ensures r[i] == Residuals(d, init, rate, trees)[i] {
      ResidualAt(d, init, rate, trees, i);
    }
  }

  lemma FittedMore(d: Data, width: nat, maxDepth: nat, rate: real, init: real, trees: seq<Cart>, tree: Cart)
    requires d != [] && Fitted(d, width, maxDepth, rate, init, trees)
    requires IsCart(tree, Residuals(d, init, rate, trees), 0, maxDepth, width)
    ensures Fitted(d, width, maxDepth, rate, init, trees + [tree])
  {
    hide IsCart, Residuals;
    var more := trees + [tree];
    forall k | 0 <= k < |more| ensures IsCart(more[k], Residuals(d, init, rate, more[..k]), 0, maxDepth, width) {
      assert more[..k] == trees[..k];
      assert trees[..|trees|] == trees;
    }
  }

  // ---------- the loss ----------

  function Loss(d: Data): real {
    Deviation(d, 0.0)
  }

  /** Shifting by a tree's predictions, in sums. */
  lemma {:induction false} ShiftedSums(d: Data, rate: real, tree: Cart)
    ensures SumY(Shifted(d, rate, tree)) == SumY(d) - rate * Total(d, PredictionOf(tree))
    ensures Loss(Shifted(d, rate, tree))
         == Loss(d) - 2.0 * rate * Total(d, ProductOf(tree)) + Square(rate) * Strength(d, tree)
  {
    hide Total, Shifted, Square, Strength, Loss, SumY, Predict;
    if d != [] {
      var rest, p, next := d[1..], Predict(d[0].x, tree), Shifted(d, rate, tree);
      var y, a, b, c := d[0].y, Loss(rest), Total(rest, ProductOf(tree)), Strength(rest, tree);
      ShiftedSums(rest, rate, tree);
      ShiftedTail(d, rate, tree);
      Heads(d, tree);
      Heads(next, tree);
      Distribute(rate, p, Total(rest, PredictionOf(tree)));
      ShiftedSquare(y, rate, p);
      Combined(Square(y - 0.0), y * p, Square(p), a, b, c, 2.0 * rate, Square(rate));
      assert next[0].y - 0.0 == y - rate * p - 0.0;
      assert Loss(next) == Square(y - rate * p - 0.0) + Loss(next[1..]);
    } else {
      NoSums(rate, tree);
    }
  }

  lemma NoSums(rate: real, tree: Cart)
    ensures Shifted([], rate, tree) == [] && SumY([]) == Loss([]) == Strength([], tree) == 0.0
    ensures Total([], PredictionOf(tree)) == Total([], ProductOf(tree)) == 0.0
  {
  }

  lemma Combined(y2: real, yp: real, p2: real, a: real, b: real, c: real, r: real, q: real)
    ensures (y2 - r * yp + q * p2) + (a - r * b + q * c) == (y2 + a) - r * (yp + b) + q * (p2 + c)
  {
    Distribute(r, yp, b);
    Distribute(q, p2, c);
  }

  lemma ShiftedTail(d: Data, rate: real, tree: Cart)
    requires d != []
    ensures var r := Shifted(d, rate, tree);
      r[0].y == d[0].y - rate * Predict(d[0].x, tree) && r[1..] == Shifted(d[1..], rate, tree)
  {
    hide Predict, Shifted, ShiftedSample;
    var r, rest := Shifted(d, rate, tree), Shifted(d[1..], rate, tree);
    forall i | 0 <= i < |rest| ensures r[1..][i] == rest[i] {
      assert d[1..][i] == d[i + 1];
    }
    ShiftedIs(d[0], rate, tree);
  }

  lemma ShiftedIs(s: Sample, rate: real, tree: Cart)
    ensures ShiftedSample(s, rate, tree).y == s.y - rate * Predict(s.x, tree)
  {
  }

  /** Every sum is its first term and the sum of the rest. */
  lemma Heads(d: Data, tree: Cart)
    requires d != []
    ensures SumY(d) == d[0].y + SumY(d[1..]) && Loss(d) == Square(d[0].y - 0.0) + Loss(d[1..])
    ensures Total(d, PredictionOf(tree)) == Predict(d[0].x, tree) + Total(d[1..], PredictionOf(tree))
    ensures Total(d, ProductOf(tree)) == d[0].y * Predict(d[0].x, tree) + Total(d[1..], ProductOf(tree))
    ensures Strength(d, tree) == Square(Predict(d[0].x, tree)) + Strength(d[1..], tree)
  {
    hide Total, Predict, Square;
    TotalHead(d, (s: Sample) => s.y);
    TotalHead(d, PredictionOf(tree));
    TotalHead(d, ProductOf(tree));
    TotalHead(d, SquareOf(tree));
    LossHead(d);
  }

  lemma TotalHead(d: Data, f: Sample -> real)
    requires d != []
    ensures Total(d, f) == f(d[0]) + Total(d[1..], f)
  {
  }

  lemma LossHead(d: Data)
    requires d != []
    ensures Loss(d) == Square(d[0].y - 0.0) + Loss(d[1..])
  {
    hide Square;
  }

  lemma ShiftedSquare(y: real, rate: real, p: real)
    ensures Square(y - rate * p - 0.0) == Square(y - 0.0) - 2.0 * rate * (y * p) + Square(rate) * Square(p)
  {
    var q := rate * p;
    assert (y - q) * (y - q) == y * y - 2.0 * y * q + q * q;
    assert q * q == rate * rate * (p * p);
    assert y * q == rate * (y * p);
  }

  /** What one tree does to the loss, exactly. */
  lemma RoundLoss(d: Data, rate: real, tree: Cart, maxDepth: nat, width: nat)
    requires d != [] && IsCart(tree, d, 0, maxDepth, width)
    ensures Loss(Shifted(d, rate, tree)) == Loss(d) - rate * (2.0 - rate) * Strength(d, tree)
    ensures SumY(d) == 0.0 ==> SumY(Shifted(d, rate, tree)) == 0.0
  {
    hide Total, IsCart, Shifted;
    TreeSums(tree, d, 0, maxDepth, width);
    ShiftedSums(d, rate, tree);
    RateFactor(rate, Strength(d, tree));
  }

  lemma RateFactor(rate: real, s: real)
    ensures - 2.0 * rate * s + Square(rate) * s == - (rate * (2.0 - rate) * s)
  {
    assert rate * (2.0 - rate) == 2.0 * rate - rate * rate;
  }

  lemma {:induction false} StrengthPositive(d: Data, tree: Cart)
    ensures Strength(d, tree) >= 0.0
  {
    if d != [] {
      StrengthPositive(d[1..], tree);
    }
  }

  /** The residuals sum to zero before the first round and after every round. */
  lemma {:induction false} ResidualsSumToZero(d: Data, width: nat, maxDepth: nat, rate: real, init: real,
                                              trees: seq<Cart>, k: nat)
    requires d != [] && Fitted(d, width, maxDepth, rate, init, trees) && k <= |trees|
    ensures SumY(Residuals(d, init, rate, trees[..k])) == 0.0
  {
    hide Total, IsCart, Shifted;
    if k == 0 {
      CenteredSum(d, init);
      MeanTimesCount(d);
    } else {
      ResidualsSumToZero(d, width, maxDepth, rate, init, trees, k - 1);
      var r := Residuals(d, init, rate, trees[..k - 1]);
      assert trees[..k][..k - 1] == trees[..k - 1];
      RoundLoss(r, rate, trees[k - 1], maxDepth, width);
    }
  }

  lemma {:induction false} CenteredSum(d: Data, init: real)
    ensures SumY(Centered(d, init)) == SumY(d) - |d| as real * init
  {
    if d != [] {
      CenteredSum(d[1..], init);
      assert Centered(d, init)[1..] == Centered(d[1..], init);
      Distribute(init, 1.0, |d[1..]| as real);
    }
  }

  /** A round changes the training loss by exactly rate * (2 - rate) times the strength of its tree:
      it never rises for rates in [0, 2], and outside only a tree that predicts zero avoids that. */
  lemma LossOverRounds(d: Data, width: nat, maxDepth: nat, rate: real, init: real, trees: seq<Cart>, k: nat)
    requires d != [] && Fitted(d, width, maxDepth, rate, init, trees) && k < |trees|
    ensures var r, next := Residuals(d, init, rate, trees[..k]), Residuals(d, init, rate, trees[..k + 1]);
      && Loss(next) == Loss(r) - rate * (2.0 - rate) * Strength(r, trees[k])
      && (Loss(next) <= Loss(r) <==> 0.0 <= rate <= 2.0 || Strength(r, trees[k]) == 0.0)
  {
    hide Total, IsCart, Shifted, Strength;
    var r := Residuals(d, init, rate, trees[..k]);
    assert trees[..k + 1][..k] == trees[..k];
    RoundLoss(r, rate, trees[k], maxDepth, width);
    StrengthPositive(r, trees[k]);
    RateSign(rate, Strength(r, trees[k]));
  }

  lemma NonNegativeProduct(a: real, b: real)
    requires a >= 0.0 && b >= 0.0
    ensures a * b >= 0.0
  {
  }

  lemma NegativeProduct(a: real, b: real)
    requires a > 0.0 && b < 0.0
    ensures a * b < 0.0 && b * a < 0.0
  {
  }

  lemma RateSign(rate: real, s: real)
    requires s >= 0.0
    ensures rate * (2.0 - rate) * s >= 0.0 <==> 0.0 <= rate <= 2.0 || s == 0.0
  {
    var c := rate * (2.0 - rate);
    if 0.0 <= rate <= 2.0 {
      NonNegativeProduct(rate, 2.0 - rate);
      NonNegativeProduct(c, s);
    } else {
      if rate < 0.0 {
        NegativeProduct(2.0 - rate, rate);
      } else {
        NegativeProduct(rate, 2.0 - rate);
      }
      if s > 0.0 {
        NegativeProduct(s, c);
      }
    }
  }

  // ---------- how much a round gains ----------

  lemma {:induction false} DeviationAbout(d: Data, c: real)
    ensures Deviation(d, c) == Loss(d) - 2.0 * c * SumY(d) + |d| as real * Square(c)
  {
    hide Square;
    if d != [] {
      var y, rest := d[0].y, d[1..];
      DeviationAbout(rest, c);
      SquareAbout(y, c);
      Distribute(2.0 * c, y, SumY(rest));
      Distribute(Square(c), 1.0, |rest| as real);
      assert Deviation(d, c) == Square(y - c) + Deviation(rest, c);
      assert Loss(d) == Square(y - 0.0) + Loss(rest);
      assert SumY(d) == y + SumY(rest);
    }
  }

  lemma SquareAbout(y: real, c: real)
    ensures Square(y - c) == Square(y - 0.0) - 2.0 * c * y + Square(c)
  {
  }

  /** The deviation from the mean is what the mean does not explain. */
  lemma MseTimesCount(d: Data)
    requires d != []
    ensures |d| as real * Mse(d) == Loss(d) - |d| as real * Square(Mean(d))
  {
    hide SumY, Mean, Deviation, Loss, Square;
    DeviationAbout(d, Mean(d));
    MeanTimesCount(d);
    var n, dev := |d| as real, Deviation(d, Mean(d));
    assert n * (dev / n) == dev;
    assert 2.0 * Mean(d) * SumY(d) == 2.0 * (Mean(d) * SumY(d));
  }

  /** The gain of a split, scaled by the samples, is what the two means explain beyond the one. */
  lemma GainTimesCount(d: Data, feat: nat, thresh: real)
    requires d != [] && Left(d, feat, thresh) != [] && Right(d, feat, thresh) != []
    ensures var l, r := Left(d, feat, thresh), Right(d, feat, thresh);
      |d| as real * Gain(d, feat, thresh)
        == |l| as real * Square(Mean(l)) + |r| as real * Square(Mean(r)) - |d| as real * Square(Mean(d))
  {
    hide Mse, Mean, Left, Right, Square;
    var l, r := Left(d, feat, thresh), Right(d, feat, thresh);
    MseTimesCount(d);
    MseTimesCount(l);
    MseTimesCount(r);
    TotalSplit(d, feat, thresh, (s: Sample) => Square(s.y - 0.0));
    LossIsTotal(d);
    LossIsTotal(l);
    LossIsTotal(r);
    Weighted(|d| as real, |l| as real, |r| as real, Mse(d), Mse(l), Mse(r));
  }

  lemma LossIsTotal(d: Data)
    ensures Loss(d) == Total(d, (s: Sample) => Square(s.y - 0.0))
  {
    hide Square;
    TotalSame(d, (s: Sample) => Square(s.y - 0.0), (s: Sample) => Square(s.y - 0.0));
  }

  lemma Weighted(n: real, nl: real, nr: real, m: real, ml: real, mr: real)
    requires n > 0.0
    ensures n * (m - (nl / n * ml + nr / n * mr)) == n * m - nl * ml - nr * mr
  {
    assert n * (nl / n) == nl && n * (nr / n) == nr;
    assert n * (nl / n * ml) == nl * ml;
    assert n * (nr / n * mr) == nr * mr;
    Distribute(n, m, - (nl / n * ml + nr / n * mr));
    Distribute(n, nl / n * ml, nr / n * mr);
  }

  /** A tree explains at least what its root's mean explains, and its first split adds the gain. */
  lemma {:induction false} StrengthAtLeast(tree: Cart, d: Data, depth: nat, maxDepth: nat, width: nat)
    requires d != [] && IsCart(tree, d, depth, maxDepth, width)
    ensures Strength(d, tree) >= |d| as real * Square(Mean(d))
    ensures tree.Leaf? ==> Strength(d, tree) == |d| as real * Square(Mean(d))
    ensures tree.Split? ==>
      Strength(d, tree) >= |d| as real * Square(Mean(d)) + |d| as real * Gain(d, tree.feat, tree.thresh)
    decreases tree
  {
    hide Total, Gain, Mse, Left, Right, Square, Mean;
    match tree
    case Leaf(m) => LeafSums(d, m);
    case Split(feat, thresh, left, right) =>
      BestSplitsBoth(d, width, feat, thresh);
      SplitSums(d, feat, thresh, left, right);
      StrengthAtLeast(left, Left(d, feat, thresh), depth + 1, maxDepth, width);
      StrengthAtLeast(right, Right(d, feat, thresh), depth + 1, maxDepth, width);
      GainTimesCount(d, feat, thresh);
      NonNegativeProduct(|d| as real, Gain(d, feat, thresh));
  }

  /** A round whose tree splits lowers the loss by at least rate * (2 - rate) times the gain of its
      best first split over all samples; a round whose tree is a single leaf changes nothing. With a
      level to grow and a rate between 0 and 2 the loss falls whenever some split is worth it. */
  lemma RoundProgress(d: Data, width: nat, maxDepth: nat, rate: real, init: real, trees: seq<Cart>, k: nat)
    requires d != [] && Fitted(d, width, maxDepth, rate, init, trees) && k < |trees| && 0.0 <= rate <= 2.0
    ensures var r, next := Residuals(d, init, rate, trees[..k]), Residuals(d, init, rate, trees[..k + 1]);
            var tree := trees[k];
      && (tree.Leaf? ==> Loss(next) == Loss(r))
      && (tree.Split? ==>
            && Gain(r, tree.feat, tree.thresh) >= TINY
            && Loss(next) <= Loss(r) - rate * (2.0 - rate) * (|d| as real * Gain(r, tree.feat, tree.thresh)))
      && (maxDepth >= 1 && 0.0 < rate < 2.0 && WorthSplitting(r, width) ==> Loss(next) < Loss(r))
  {
    hide Total, Gain, Mse, Left, Right, Shifted, Strength, Loss, SumY, Square, Fitted, IsCart, Residuals;
    var r, tree := Residuals(d, init, rate, trees[..k]), trees[k];
    LossOverRounds(d, width, maxDepth, rate, init, trees, k);
    ResidualsSumToZero(d, width, maxDepth, rate, init, trees, k);
    RoundTree(d, width, maxDepth, rate, init, trees, k);
    StrengthAtLeast(tree, r, 0, maxDepth, width);
    ZeroMean(r);
    if tree.Split? {
      ScaledGain(rate, Strength(r, tree), |d| as real * Gain(r, tree.feat, tree.thresh));
    }
    if maxDepth >= 1 && 0.0 < rate < 2.0 && WorthSplitting(r, width) {
      RootSplits(tree, r, maxDepth, width);
      GainCounts(rate, |d| as real, Gain(r, tree.feat, tree.thresh));
    }
  }

  /** With a level left, a split that is worth it is made. */
  lemma RootSplits(tree: Cart, d: Data, maxDepth: nat, width: nat)
    requires d != [] && IsCart(tree, d, 0, maxDepth, width) && maxDepth >= 1 && WorthSplitting(d, width)
    ensures tree.Split?
  {
    hide Gain, Mse, Left, Right, Mean, IsCart;
    var f, t :| Candidate(d, width, f, t) && Gain(d, f, t) >= 0.0000000001;
    GainAtMost(d, f, t);
    TotalSplit(d, f, t, (s: Sample) => s.y);
    GrowsFully(tree, d, 0, maxDepth, width);
  }

  lemma GainCounts(rate: real, n: real, gain: real)
    requires 0.0 < rate < 2.0 && n > 0.0 && gain > 0.0
    ensures rate * (2.0 - rate) * (n * gain) > 0.0
  {
    PositiveProduct(rate, 2.0 - rate);
    PositiveProduct(n, gain);
    PositiveProduct(rate * (2.0 - rate), n * gain);
  }

  lemma PositiveProduct(a: real, b: real)
    requires a > 0.0 && b > 0.0
    ensures a * b > 0.0
  {
  }

  lemma RoundTree(d: Data, width: nat, maxDepth: nat, rate: real, init: real, trees: seq<Cart>, k: nat)
    requires d != [] && Fitted(d, width, maxDepth, rate, init, trees) && k < |trees|
    ensures var r := Residuals(d, init, rate, trees[..k]);
      && |r| == |d| && IsCart(trees[k], r, 0, maxDepth, width)
      && (trees[k].Split? ==> Gain(r, trees[k].feat, trees[k].thresh) >= TINY)
  {
    hide Gain;
    var r := Residuals(d, init, rate, trees[..k]);
    assert IsCart(trees[k], r, 0, maxDepth, width);
  }

  lemma ScaledGain(rate: real, strength: real, gain: real)
    requires 0.0 <= rate <= 2.0 && strength >= gain
    ensures rate * (2.0 - rate) * strength >= rate * (2.0 - rate) * gain
  {
    NonNegativeProduct(rate, 2.0 - rate);
    NonNegativeProduct(rate * (2.0 - rate), strength - gain);
    Distribute(rate * (2.0 - rate), strength, -gain);
  }

  lemma ZeroMean(d: Data)
    requires d != [] && SumY(d) == 0.0
    ensures |d| as real * Square(Mean(d)) == 0.0
  {
  }
}
