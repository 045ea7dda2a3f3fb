/** The arithmetic of one Lloyd iteration: nearest centroid, cluster totals, and why the error falls. */
module Lloyd {
  import opened Vectors

  /** An empty cluster has no centroid: its division by zero yields a value no comparison accepts. */
  type Codebook = seq<Option<Vec>>

  const FLT_MAX: real := 340282346638528859811704183484516925440.0

  ghost predicate Fits(cb: Codebook, K: nat, D: nat) {
    |cb| == K && forall k :: 0 <= k < K && cb[k].Some? ==> |cb[k].value| == D
  }

  /** The squared Euclidean distance. */
  function SqDist(x: Vec, c: Vec): (r: real)
    requires |x| == |c|
    ensures r >= 0.0
  {
    if |x| == 0 then 0.0
    else var n := |x| - 1; SqDist(x[..n], c[..n]) + Square(x[n] - c[n])
  }

  function TwoTo(n: nat): nat {
    if n == 0 then 1 else 2 * TwoTo(n - 1)
  }

  lemma {:induction false} FourMore(n: nat, v: int)
    requires TwoTo(n) == v
    ensures TwoTo(n + 4) == 16 * v
  {
    assert TwoTo(n + 1) == 2 * v;
    assert TwoTo(n + 2) == 4 * v;
    assert TwoTo(n + 3) == 8 * v;
  }

  lemma {:induction false} MoreBy32(n: nat, v: int)
    requires TwoTo(n) == v
    ensures TwoTo(n + 32) == 0x1_0000_0000 * v
  {
    FourMore(n, v);
    FourMore(n + 4, 16 * v);
    FourMore(n + 8, 0x100 * v);
    FourMore(n + 12, 0x1000 * v);
    FourMore(n + 16, 0x1_0000 * v);
    FourMore(n + 20, 0x10_0000 * v);
    FourMore(n + 24, 0x100_0000 * v);
    FourMore(n + 28, 0x1000_0000 * v);
  }

  /** The largest 32-bit float: 24 binary ones, the highest worth 2^127. */
  lemma {:induction false} LargestFloat()
    ensures FLT_MAX == (TwoTo(128) - TwoTo(104)) as real
  {
    MoreBy32(0, 1);
    MoreBy32(32, 0x1_0000_0000);
    MoreBy32(64, 0x1_0000_0000_0000_0000);
    MoreBy32(96, 0x1_0000_0000_0000_0000_0000_0000);
    FourMore(96, 0x1_0000_0000_0000_0000_0000_0000);
    FourMore(100, 0x10_0000_0000_0000_0000_0000_0000);
  }

  function SquaredGaps(x: Vec, c: Vec): (r: Vec)
    requires |x| == |c|
    ensures |r| == |x|
  {
    seq(|x|, i requires 0 <= i < |x| => (x[i] - c[i]) * (x[i] - c[i]))
  }

  /** The distance is the sum over the coordinates of the squared differences. */
  lemma {:induction false} SqDistIsSum(x: Vec, c: Vec)
    requires |x| == |c|
    ensures SqDist(x, c) == Total(SquaredGaps(x, c), Id())
  {
    if |x| > 0 {
      var n := |x| - 1;
      SqDistIsSum(x[..n], c[..n]);
      forall i | 0 <= i < n ensures SquaredGaps(x, c)[..n][i] == SquaredGaps(x[..n], c[..n])[i] {}
      assert SquaredGaps(x, c)[..n] == SquaredGaps(x[..n], c[..n]);
      assert Square(x[n] - c[n]) == SquaredGaps(x, c)[n];
    }
  }

  // ----- the nearest centroid -----

  /** err is None while no centroid has been accepted. */
  datatype Best = Best(argmin: nat, err: Option<real>)

  function Nearest(x: Vec, cb: Codebook, k: nat): (b: Best)
    requires k <= |cb| && forall j :: 0 <= j < k && cb[j].Some? ==> |cb[j].value| == |x|
    ensures k > 0 ==> b.argmin < k
  {
    if k == 0 then Best(0, None) else
    var b := Nearest(x, cb, k - 1);
    if cb[k - 1].Some? && (b.err.None? || SqDist(x, cb[k - 1].value) <= b.err.value)
    then Best(k - 1, Some(SqDist(x, cb[k - 1].value)))
    else b
  }

  function ErrorOf(b: Best): real {
    if b.err.Some? then b.err.value else FLT_MAX
  }

  /** The scan finds a centroid of least distance, the last one among equals, whenever there is one. */
  lemma {:induction false} NearestIsLeast(x: Vec, cb: Codebook, k: nat)
    requires k <= |cb| && forall j :: 0 <= j < k && cb[j].Some? ==> |cb[j].value| == |x|
    ensures var b := Nearest(x, cb, k);
      && (b.err.Some? ==> b.argmin < k && cb[b.argmin].Some? && b.err.value == SqDist(x, cb[b.argmin].value))
      && (forall j :: 0 <= j < k && cb[j].Some? ==> b.err.Some? && b.err.value <= SqDist(x, cb[j].value))
      && (forall j :: b.argmin < j < k && cb[j].Some? ==> b.err.value < SqDist(x, cb[j].value))
      && (b.err.None? ==> b.argmin == 0)
  {
    if k > 0 { NearestIsLeast(x, cb, k - 1); }
  }

  // ----- cluster totals for an assignment -----

  ghost predicate Assignment(a: seq<nat>, n: nat, K: nat) {
    |a| == n && forall i :: 0 <= i < n ==> a[i] < K
  }

  /** The sum of the points of each cluster. */
  function Sums(X: Mat, a: seq<nat>, K: nat, D: nat): (S: Mat)
    requires Shape(X, |X|, D) && Assignment(a, |X|, K)
    ensures Shape(S, K, D)
  {
    if |X| == 0 then ZeroM(K, D) else
    var n := |X| - 1;
    var S := Sums(X[..n], a[..n], K, D);
    S[a[n] := Add(S[a[n]], X[n])]
  }

  /** The number of points of each cluster. */
  function Counts(a: seq<nat>, K: nat): (w: Vec)
    requires Assignment(a, |a|, K)
    ensures |w| == K
  {
    if |a| == 0 then Zero(K) else
    var n := |a| - 1;
    var w := Counts(a[..n], K);
    w[a[n] := w[a[n]] + 1.0]
  }

  /** The totals of one more point. */
  lemma TallyOne(X: Mat, a: seq<nat>, K: nat, D: nat, i: nat)
    requires Shape(X, |X|, D) && Assignment(a, |X|, K) && i < |X|
    ensures var S, w := Sums(X[..i], a[..i], K, D), Counts(a[..i], K);
      && Sums(X[..i + 1], a[..i + 1], K, D) == S[a[i] := Add(S[a[i]], X[i])]
      && Counts(a[..i + 1], K) == w[a[i] := w[a[i]] + 1.0]
  {
    assert X[..i + 1][..i] == X[..i] && a[..i + 1][..i] == a[..i];
  }

  function Centroids(S: Mat, w: Vec): (cb: Codebook)
    requires |S| == |w|
    ensures |cb| == |w|
  {
    seq(|w|, k requires 0 <= k < |w| => if w[k] == 0.0 then None else Some(Scale(S[k], 1.0 / w[k])))
  }

  /** The assignment made by one E-step. */
  function Assigned(X: Mat, cb: Codebook, D: nat): (a: seq<nat>)
    requires Shape(X, |X|, D) && Fits(cb, |cb|, D) && |cb| > 0
    ensures Assignment(a, |X|, |cb|)
  {
    seq(|X|, i requires 0 <= i < |X| => Nearest(X[i], cb, |cb|).argmin)
  }

  /** The error accumulated by one E-step. */
  function Errors(X: Mat, cb: Codebook, D: nat): real
    requires Shape(X, |X|, D) && Fits(cb, |cb|, D)
  {
    if |X| == 0 then 0.0
    else var n := |X| - 1; Errors(X[..n], cb, D) + ErrorOf(Nearest(X[n], cb, |cb|))
  }

  /** The error of one more point. */
  lemma ErrorOne(X: Mat, cb: Codebook, D: nat, i: nat)
    requires Shape(X, |X|, D) && Fits(cb, |cb|, D) && i < |X|
    ensures Errors(X[..i + 1], cb, D) == Errors(X[..i], cb, D) + ErrorOf(Nearest(X[i], cb, |cb|))
  {
    assert X[..i + 1][..i] == X[..i];
  }

  // ----- the cost of an assignment -----

  /** Every point is assigned to a cluster that has a centroid. */
  ghost predicate Covers(cb: Codebook, a: seq<nat>) {
    forall i :: 0 <= i < |a| ==> a[i] < |cb| && cb[a[i]].Some?
  }

  function Cost(X: Mat, a: seq<nat>, cb: Codebook, D: nat): (r: real)
    requires Shape(X, |X|, D) && |a| == |X| && Fits(cb, |cb|, D) && Covers(cb, a)
    ensures r >= 0.0
  {
    if |X| == 0 then 0.0
    else var n := |X| - 1; Cost(X[..n], a[..n], cb, D) + SqDist(X[n], cb[a[n]].value)
  }

  /** The E-step's error is the cost of its own assignment, and no covered assignment costs less. */
  lemma {:induction false} ErrorsAreLeastCost(X: Mat, cb: Codebook, b: seq<nat>, D: nat)
    requires Shape(X, |X|, D) && Fits(cb, |cb|, D) && |b| == |X| && Covers(cb, b)
    ensures Errors(X, cb, D) <= Cost(X, b, cb, D)
    ensures |X| > 0 ==> Covers(cb, Assigned(X, cb, D)) && Errors(X, cb, D) == Cost(X, Assigned(X, cb, D), cb, D)
  {
    if |X| > 0 {
      var n := |X| - 1;
      ErrorsAreLeastCost(X[..n], cb, b[..n], D);
      NearestIsLeast(X[n], cb, |cb|);
      assert cb[b[n]].Some?;
      assert Assigned(X, cb, D)[..n] == Assigned(X[..n], cb, D);
    }
  }

  // ----- why the centroid is the best centre -----

  lemma {:induction false} CountsNonNegative(a: seq<nat>, K: nat)
    requires Assignment(a, |a|, K)
    ensures forall k :: 0 <= k < K ==> Counts(a, K)[k] >= 0.0
    ensures forall i :: 0 <= i < |a| ==> Counts(a, K)[a[i]] >= 1.0
  {
    if |a| > 0 { CountsNonNegative(a[..|a| - 1], K); }
  }

  /** A cluster that counts nothing sums to nothing. */
  lemma {:induction false} UncountedIsZero(X: Mat, a: seq<nat>, K: nat, D: nat, k: nat)
    requires Shape(X, |X|, D) && Assignment(a, |X|, K) && k < K && Counts(a, K)[k] == 0.0
    ensures Sums(X, a, K, D)[k] == Zero(D)
    ensures forall i :: 0 <= i < |a| ==> a[i] != k
  {
    CountsNonNegative(a, K);
    if |X| > 0 {
      var n := |X| - 1;
      CountsNonNegative(a[..n], K);
      UncountedIsZero(X[..n], a[..n], K, D, k);
    }
  }

  /** The inner product of x - c1 with c1 - c2, over the first n coordinates. */
  function Pull(x: Vec, c1: Vec, c2: Vec, n: nat): real
    requires |x| == |c1| == |c2| && n <= |x|
  {
    if n == 0 then 0.0 else Pull(x, c1, c2, n - 1) + Lever(x[n - 1], 1.0, c1[n - 1], c2[n - 1])
  }

  lemma SquareShift(x: real, c: real, d: real)
    ensures Square(x - d) == Square(x - c) + Square(c - d) + 2.0 * Lever(x, 1.0, c, d)
  {
  }

  lemma {:induction false} MoveCentre(x: Vec, c1: Vec, c2: Vec, n: nat)
    requires |x| == |c1| == |c2| && n <= |x|
    ensures SqDist(x[..n], c2[..n]) == SqDist(x[..n], c1[..n]) + SqDist(c1[..n], c2[..n]) + 2.0 * Pull(x, c1, c2, n)
  {
    if n > 0 {
      MoveCentre(x, c1, c2, n - 1);
      SquareShift(x[n - 1], c1[n - 1], c2[n - 1]);
      TakeTwice(x, n);
      TakeTwice(c1, n);
      TakeTwice(c2, n);
    }
  }

  lemma TakeTwice(x: Vec, n: nat)
    requires 0 < n <= |x|
    ensures x[..n][..n - 1] == x[..n - 1]
  {
  }

  /** A cluster with sum s and count w, measured against c1 along c1 - c2, over the first n coordinates. */
  function Balance(s: Vec, w: real, c1: Vec, c2: Vec, n: nat): real
    requires |s| == |c1| == |c2| && n <= |s|
  {
    if n == 0 then 0.0 else Balance(s, w, c1, c2, n - 1) + Lever(s[n - 1], w, c1[n - 1], c2[n - 1])
  }

  function Lever(s: real, w: real, c: real, d: real): real {
    (s - w * c) * (c - d)
  }

  lemma {:induction false} BalanceAddsPoint(s: Vec, w: real, x: Vec, c1: Vec, c2: Vec, n: nat)
    requires |s| == |x| == |c1| == |c2| && n <= |s|
    ensures Balance(Add(s, x), w + 1.0, c1, c2, n) == Balance(s, w, c1, c2, n) + Pull(x, c1, c2, n)
  {
    if n > 0 {
      BalanceAddsPoint(s, w, x, c1, c2, n - 1);
      LeverAddsPoint(s[n - 1], x[n - 1], w, c1[n - 1], c2[n - 1]);
    }
  }

  lemma LeverAddsPoint(s: real, x: real, w: real, c: real, d: real)
    ensures Lever(s + x, w + 1.0, c, d) == Lever(s, w, c, d) + Lever(x, 1.0, c, d)
  {
    Distribute(c - d, s - w * c, x - c);
  }

  lemma {:induction false} BalanceVanishes(s: Vec, w: real, c1: Vec, c2: Vec, n: nat)
    requires |s| == |c1| == |c2| && n <= |s|
    requires (forall d :: 0 <= d < |s| ==> s[d] == w * c1[d]) || c1 == c2
    ensures Balance(s, w, c1, c2, n) == 0.0
  {
    if n > 0 {
      BalanceVanishes(s, w, c1, c2, n - 1);
      LeverVanishes(s[n - 1], w, c1[n - 1], c2[n - 1]);
    }
  }

  lemma LeverVanishes(s: real, w: real, c: real, d: real)
    requires s == w * c || c == d
    ensures Lever(s, w, c, d) == 0.0
  {
    if c != d { assert s - w * c == 0.0; }
  }

  /** All the balances, one per cluster. */
  function Balances(S: Mat, w: Vec, c1: Mat, c2: Mat, D: nat): (r: Vec)
    requires |w| == |S| && Shape(S, |S|, D) && Shape(c1, |S|, D) && Shape(c2, |S|, D)
    ensures |r| == |S|
  {
    seq(|S|, k requires 0 <= k < |S| => Balance(S[k], w[k], c1[k], c2[k], D))
  }

  function Pulls(X: Mat, a: seq<nat>, c1: Mat, c2: Mat, ghost K: nat, D: nat): real
    requires Shape(X, |X|, D) && Assignment(a, |X|, K) && Shape(c1, K, D) && Shape(c2, K, D)
  {
    if |X| == 0 then 0.0
    else var n := |X| - 1; Pulls(X[..n], a[..n], c1, c2, K, D) + Pull(X[n], c1[a[n]], c2[a[n]], D)
  }

  /** Summing over points is summing over clusters. */
  lemma {:induction false} PullsAreBalances(X: Mat, a: seq<nat>, c1: Mat, c2: Mat, K: nat, D: nat)
    requires Shape(X, |X|, D) && Assignment(a, |X|, K) && Shape(c1, K, D) && Shape(c2, K, D)
    ensures Pulls(X, a, c1, c2, K, D) == Total(Balances(Sums(X, a, K, D), Counts(a, K), c1, c2, D), Id())
  {
    if |X| == 0 {
      forall k | 0 <= k < K
        ensures Balance(Zero(D), 0.0, c1[k], c2[k], D) == 0.0
      {
        BalanceVanishes(Zero(D), 0.0, c1[k], c2[k], D);
      }
      TotalVanishes(Balances(Sums(X, a, K, D), Counts(a, K), c1, c2, D), Id());
    } else {
      var n := |X| - 1;
      var k := a[n];
      PullsAreBalances(X[..n], a[..n], c1, c2, K, D);
      var S, w := Sums(X[..n], a[..n], K, D), Counts(a[..n], K);
      var before := Balances(S, w, c1, c2, D);
      BalanceAddsPoint(S[k], w[k], X[n], c1[k], c2[k], D);
      var moved := Balance(Add(S[k], X[n]), w[k] + 1.0, c1[k], c2[k], D);
      assert Balances(Sums(X, a, K, D), Counts(a, K), c1, c2, D) == before[k := moved];
      TotalUpdate(before, k, moved, Id());
    }
  }

  /** Two codebooks made total on the clusters the first one has. */
  function Table(cb: Codebook, mask: Codebook, ghost K: nat, D: nat): (c: Mat)
    requires Fits(cb, K, D) && |mask| == K
    ensures Shape(c, K, D)
  {
    seq(|cb|, k requires 0 <= k < |cb| => if mask[k].Some? && cb[k].Some? then cb[k].value else Zero(D))
  }

  /** Moving the centres from cb1 to cb2 raises the cost by at least twice the total pull. */
  lemma {:induction false} CostGap(X: Mat, a: seq<nat>, cb1: Codebook, cb2: Codebook, K: nat, D: nat)
    requires Shape(X, |X|, D) && Assignment(a, |X|, K) && Fits(cb1, K, D) && Fits(cb2, K, D)
    requires Covers(cb1, a) && Covers(cb2, a)
    ensures Cost(X, a, cb2, D) >= Cost(X, a, cb1, D)
      + 2.0 * Pulls(X, a, Table(cb1, cb1, K, D), Table(cb2, cb1, K, D), K, D)
  {
    if |X| > 0 {
      var n := |X| - 1;
      CostGap(X[..n], a[..n], cb1, cb2, K, D);
      MoveCentre(X[n], cb1[a[n]].value, cb2[a[n]].value, D);
      assert X[n][..D] == X[n] && cb1[a[n]].value[..D] == cb1[a[n]].value && cb2[a[n]].value[..D] == cb2[a[n]].value;
    }
  }

  /** The centroids of an assignment minimise its cost. */
  lemma CentroidsAreBest(X: Mat, a: seq<nat>, cb: Codebook, K: nat, D: nat)
    requires Shape(X, |X|, D) && Assignment(a, |X|, K) && Fits(cb, K, D) && Covers(cb, a)
    ensures var own := Centroids(Sums(X, a, K, D), Counts(a, K));
      Fits(own, K, D) && Covers(own, a) && Cost(X, a, own, D) <= Cost(X, a, cb, D)
  {
    var S, w := Sums(X, a, K, D), Counts(a, K);
    var own := Centroids(S, w);
    CountsNonNegative(a, K);
    CostGap(X, a, own, cb, K, D);
    var c1, c2 := Table(own, own, K, D), Table(cb, own, K, D);
    PullsAreBalances(X, a, c1, c2, K, D);
    forall k | 0 <= k < K
      ensures Balance(S[k], w[k], c1[k], c2[k], D) == 0.0
    {
      CentroidBalances(S[k], w[k], c1[k], c2[k]);
    }
    TotalVanishes(Balances(S, w, c1, c2, D), Id());
  }

  lemma CentroidBalances(s: Vec, w: real, c1: Vec, c2: Vec)
    requires |s| == |c1| == |c2|
    requires if w == 0.0 then c1 == c2 else c1 == Scale(s, 1.0 / w)
    ensures Balance(s, w, c1, c2, |s|) == 0.0
  {
    if w != 0.0 {
      forall d | 0 <= d < |s|
        ensures s[d] == w * c1[d]
      {
        DivMul(s[d], w);
      }
    }
    BalanceVanishes(s, w, c1, c2, |s|);
  }

  lemma DivMul(s: real, w: real)
    requires w != 0.0
    ensures s == w * (s * (1.0 / w))
  {
    assert w * (1.0 / w) == 1.0;
    assert w * (s * (1.0 / w)) == s * (w * (1.0 / w));
  }

  /**
   One Lloyd iteration: starting from an assignment a that cost at most e, the error of the E-step made
   with a's centroids is at most e, and a cluster that a leaves empty stays empty.
   */
  lemma LloydStep(X: Mat, a: seq<nat>, cb: Codebook, K: nat, D: nat)
    requires |X| > 0 && K > 0 && Shape(X, |X|, D) && Assignment(a, |X|, K) && Fits(cb, K, D) && Covers(cb, a)
    ensures var own := Centroids(Sums(X, a, K, D), Counts(a, K));
      && Fits(own, K, D)
      && Errors(X, own, D) <= Cost(X, a, cb, D)
      && Covers(own, Assigned(X, own, D))
      && Errors(X, own, D) == Cost(X, Assigned(X, own, D), own, D)
    ensures var own := Centroids(Sums(X, a, K, D), Counts(a, K));
      forall k :: 0 <= k < K && Counts(a, K)[k] == 0.0 ==> Counts(Assigned(X, own, D), K)[k] == 0.0
  {
    var own := Centroids(Sums(X, a, K, D), Counts(a, K));
    CentroidsAreBest(X, a, cb, K, D);
    ErrorsAreLeastCost(X, own, a, D);
    forall k | 0 <= k < K && Counts(a, K)[k] == 0.0
      ensures Counts(Assigned(X, own, D), K)[k] == 0.0
    {
      NeverAssigned(Assigned(X, own, D), K, k);
    }
  }

  lemma {:induction false} NeverAssigned(a: seq<nat>, K: nat, k: nat)
    requires Assignment(a, |a|, K) && k < K && forall i :: 0 <= i < |a| ==> a[i] != k
    ensures Counts(a, K)[k] == 0.0
  {
    if |a| > 0 { NeverAssigned(a[..|a| - 1], K, k); }
  }
}
