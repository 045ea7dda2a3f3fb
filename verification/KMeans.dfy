/**
 The state of one K-means node as a value, and the isolated node: a node without out-neighbours runs
 plain Lloyd iterations, its error never rises, and with a positive epsilon it stops within a bound
 computed from the error of its first E-step.
 */
module KMeans {
  import opened Vectors
  import opened Lloyd

  /** The node's properties: number of clusters, dimension, stopping threshold, sends between two E-steps. */
  datatype Config = Config(K: nat, D: nat, epsilon: real, M: int)

  /** Consecutive small improvements after which a node finishes (epsilon_t). */
  const PATIENCE: nat := 100

  datatype KNode = KNode(
    X: Mat, S: Mat, w: Vec, Sn: Mat, wn: Vec, sMSE: real, sMSEn: real, w0: real,
    codebook: Codebook, MSE: real, tepsilon: nat, finished: bool, m: int, nbE: nat, nbM: nat)

  ghost predicate Formed(cfg: Config, n: KNode) {
    && cfg.K > 0 && |n.X| > 0 && Shape(n.X, |n.X|, cfg.D)
    && Shape(n.S, cfg.K, cfg.D) && Shape(n.Sn, cfg.K, cfg.D)
    && |n.w| == |n.wn| == cfg.K
    && Fits(n.codebook, cfg.K, cfg.D)
    && n.w0 > 0.0
  }

  /** A node after init on training data X, with a as the random initial assignment. */
  function InitNode(cfg: Config, X: Mat, a: seq<nat>): (n: KNode)
    requires cfg.K > 0 && |X| > 0 && Shape(X, |X|, cfg.D) && Assignment(a, |X|, cfg.K)
    ensures Formed(cfg, n)
  {
    var Sn, wn := Sums(X, a, cfg.K, cfg.D), Counts(a, cfg.K);
    KNode(X, AddM(ZeroM(cfg.K, cfg.D), Sn, cfg.D), Add(Zero(cfg.K), wn), Sn, wn, 0.0, 0.0, |X| as real,
      seq(cfg.K, _ => None), FLT_MAX, 0, false, 0, 0, 0)
  }

  /** New centroids and MSE, then the termination test. */
  function ComputeCodebook(cfg: Config, n: KNode): (r: KNode)
    requires Formed(cfg, n)
    ensures Formed(cfg, r)
  {
    var mse := n.sMSE / n.w0;
    var t := if cfg.epsilon > 0.0 then (if n.MSE - mse < cfg.epsilon then n.tepsilon + 1 else 0) else n.tepsilon;
    n.(codebook := Centroids(n.S, n.w), MSE := mse, tepsilon := t,
       finished := n.finished || (cfg.epsilon > 0.0 && t >= PATIENCE))
  }

  /** Replace the node's own contribution to S, w and s_MSE by the one of the new assignment. */
  function EStep(cfg: Config, n: KNode): (r: KNode)
    requires Formed(cfg, n)
    ensures Formed(cfg, r)
  {
    var c := ComputeCodebook(cfg, n);
    var a := Assigned(c.X, c.codebook, cfg.D);
    var Sn, wn, e := Sums(c.X, a, cfg.K, cfg.D), Counts(a, cfg.K), Errors(c.X, c.codebook, cfg.D);
    c.(S := AddM(SubM(c.S, c.Sn, cfg.D), Sn, cfg.D), w := Add(Sub(c.w, c.wn), wn), sMSE := c.sMSE - c.sMSEn + e,
       Sn := Sn, wn := wn, sMSEn := e)
  }

  // ----- the isolated node -----

  /** A turn of a node without out-neighbours: the scheduler skips it once it has finished. */
  function TurnAlone(cfg: Config, n: KNode): (r: KNode)
    requires Formed(cfg, n)
    ensures Formed(cfg, r)
  {
    if n.finished then n else var e := EStep(cfg, n); e.(nbE := e.nbE + 1, m := 0)
  }

  function TurnsAlone(cfg: Config, n: KNode, t: nat): (r: KNode)
    requires Formed(cfg, n)
    ensures Formed(cfg, r)
  {
    if t == 0 then n else TurnAlone(cfg, TurnsAlone(cfg, n, t - 1))
  }

  /** S, w and s_MSE hold nothing but the node's own contribution, which is that of assignment a. */
  ghost predicate Alone(cfg: Config, n: KNode, a: seq<nat>) {
    && Formed(cfg, n) && Assignment(a, |n.X|, cfg.K)
    && n.S == n.Sn == Sums(n.X, a, cfg.K, cfg.D)
    && n.w == n.wn == Counts(a, cfg.K)
    && n.sMSE == n.sMSEn
    && n.w0 == |n.X| as real
  }

  /** Moreover s_MSE is the cost of a for the node's codebook: at least one E-step has been made. */
  ghost predicate Settled(cfg: Config, n: KNode, a: seq<nat>) {
    && Alone(cfg, n, a)
    && Covers(n.codebook, a)
    && n.sMSE == Cost(n.X, a, n.codebook, cfg.D)
  }

  lemma InitIsAlone(cfg: Config, X: Mat, a: seq<nat>)
    requires cfg.K > 0 && |X| > 0 && Shape(X, |X|, cfg.D) && Assignment(a, |X|, cfg.K)
    ensures Alone(cfg, InitNode(cfg, X, a), a)
  {
    var n := InitNode(cfg, X, a);
    forall k | 0 <= k < cfg.K ensures n.S[k] == n.Sn[k] {
      assert Add(Zero(cfg.D), n.Sn[k]) == n.Sn[k];
    }
    assert n.S == n.Sn && n.w == n.wn;
  }

  lemma ReplaceOwn(a: Mat, b: Mat, D: nat)
    requires Shape(a, |a|, D) && Shape(b, |a|, D)
    ensures AddM(SubM(a, a, D), b, D) == b
  {
    forall k | 0 <= k < |a| ensures AddM(SubM(a, a, D), b, D)[k] == b[k] {
      assert Add(Sub(a[k], a[k]), b[k]) == b[k];
    }
  }

  /** Every assignment is covered by some codebook. */
  lemma SomeCover(cfg: Config, X: Mat, a: seq<nat>) returns (cb: Codebook)
    requires Shape(X, |X|, cfg.D) && Assignment(a, |X|, cfg.K)
    ensures Fits(cb, cfg.K, cfg.D) && Covers(cb, a)
  {
    cb := seq(cfg.K, _ => Some(Zero(cfg.D)));
  }

  /**
   One E-step of an isolated node.  Its error is at most the previous error once the node is settled, and
   at most the cost of the assignment it started from for every codebook covering that assignment.
   */
  lemma LloydMonotone(cfg: Config, n: KNode, a: seq<nat>)
    requires Alone(cfg, n, a)
    ensures var r := EStep(cfg, n);
      && Settled(cfg, r, Assigned(n.X, r.codebook, cfg.D))
      && (Settled(cfg, n, a) ==> r.sMSE <= n.sMSE)
      && (forall cb :: Fits(cb, cfg.K, cfg.D) && Covers(cb, a) ==> r.sMSE <= Cost(n.X, a, cb, cfg.D))
      && (forall k :: 0 <= k < cfg.K && n.w[k] == 0.0 ==> r.w[k] == 0.0)
  {
    var r := EStep(cfg, n);
    ReplaceOwn(n.S, r.Sn, cfg.D);
    assert Add(Sub(n.w, n.w), r.wn) == r.wn;
    var any := SomeCover(cfg, n.X, a);
    LloydStep(n.X, a, any, cfg.K, cfg.D);
    forall cb | Fits(cb, cfg.K, cfg.D) && Covers(cb, a)
      ensures r.sMSE <= Cost(n.X, a, cb, cfg.D)
    {
      LloydStep(n.X, a, cb, cfg.K, cfg.D);
    }
  }

  /** Over any number of turns after the first, the accumulated error never rises. */
  lemma {:induction false} ErrorNeverRises(cfg: Config, n: KNode, a: seq<nat>, t: nat) returns (b: seq<nat>)
    requires Settled(cfg, n, a)
    ensures Settled(cfg, TurnsAlone(cfg, n, t), b)
    ensures TurnsAlone(cfg, n, t).sMSE <= n.sMSE
    ensures forall k :: 0 <= k < cfg.K && n.w[k] == 0.0 ==> TurnsAlone(cfg, n, t).w[k] == 0.0
  {
    b := a;
    if t > 0 {
      b := ErrorNeverRises(cfg, n, a, t - 1);
      var p := TurnsAlone(cfg, n, t - 1);
      if !p.finished {
        LloydMonotone(cfg, p, b);
        b := Assigned(p.X, EStep(cfg, p).codebook, cfg.D);
      }
    }
  }

  // ----- termination -----

  /** The MSE produced by the first E-step of a freshly initialised node. */
  function FirstError(cfg: Config, X: Mat, a: seq<nat>): real
    requires cfg.K > 0 && |X| > 0 && Shape(X, |X|, cfg.D) && Assignment(a, |X|, cfg.K)
  {
    TurnAlone(cfg, InitNode(cfg, X, a)).sMSE / |X| as real
  }

  /** After t turns the node is unfinished, t - 1 <= 100 r + tepsilon, and r resets have cost r * epsilon. */
  ghost predicate Pace(cfg: Config, n: KNode, t: nat, r: nat, e1: real) {
    && !n.finished && n.tepsilon < PATIENCE && n.nbE == t
    && t <= 1 + PATIENCE * r + n.tepsilon
    && r as real * cfg.epsilon <= e1 - n.MSE
    && 0.0 <= n.MSE
    && n.w0 > 0.0 && n.sMSE / n.w0 <= n.MSE
  }

  lemma NonNegativeRatio(x: real, y: real, w: real)
    requires 0.0 <= x <= y && w > 0.0
    ensures 0.0 <= x / w <= y / w
  {
    assert (x / w) * w == x && (y / w) * w == y;
    assert (y / w - x / w) * w >= 0.0;
  }

  lemma PaceStep(cfg: Config, n: KNode, a: seq<nat>, t: nat, r: nat, e1: real) returns (r': nat)
    requires cfg.epsilon > 0.0 && Settled(cfg, n, a) && Pace(cfg, n, t, r, e1)
    ensures var q := TurnAlone(cfg, n);
      && Settled(cfg, q, Assigned(n.X, q.codebook, cfg.D))
      && (q.finished ==> q.nbE == t + 1) && (!q.finished ==> Pace(cfg, q, t + 1, r', e1))
  {
    var q := TurnAlone(cfg, n);
    LloydMonotone(cfg, n, a);
    assert q.sMSE >= 0.0;
    NonNegativeRatio(q.sMSE, n.sMSE, n.w0);
    r' := r;
    if n.MSE - q.MSE >= cfg.epsilon {
      r' := r + 1;
      assert r' as real * cfg.epsilon == r as real * cfg.epsilon + cfg.epsilon;
    }
  }

  /** The first turn sees no error yet, so the second one starts the count at e1. */
  lemma {:induction false} FirstTurns(cfg: Config, X: Mat, a: seq<nat>) returns (b: seq<nat>)
    requires cfg.epsilon > 0.0 && cfg.K > 0 && |X| > 0 && Shape(X, |X|, cfg.D) && Assignment(a, |X|, cfg.K)
    ensures var n := TurnsAlone(cfg, InitNode(cfg, X, a), 2);
      Settled(cfg, n, b) && Pace(cfg, n, 2, 0, FirstError(cfg, X, a))
  {
    var n0 := InitNode(cfg, X, a);
    var n1 := TurnAlone(cfg, n0);
    FirstTurn(cfg, X, a);
    SecondTurn(cfg, n1, Assigned(X, n1.codebook, cfg.D));
    var n2 := TurnAlone(cfg, n1);
    b := Assigned(X, n2.codebook, cfg.D);
    assert TurnsAlone(cfg, n0, 1) == n1 by { assert TurnsAlone(cfg, n0, 0) == n0; }
    assert TurnsAlone(cfg, n0, 2) == n2;
  }

  lemma {:induction false} FirstTurn(cfg: Config, X: Mat, a: seq<nat>)
    requires cfg.epsilon > 0.0 && cfg.K > 0 && |X| > 0 && Shape(X, |X|, cfg.D) && Assignment(a, |X|, cfg.K)
    ensures var n1 := TurnAlone(cfg, InitNode(cfg, X, a));
      && Settled(cfg, n1, Assigned(X, n1.codebook, cfg.D)) && n1.X == X
      && n1.MSE == 0.0 && n1.tepsilon <= 1 && !n1.finished && n1.nbE == 1
  {
    var n := InitNode(cfg, X, a);
    InitIsAlone(cfg, X, a);
    LloydMonotone(cfg, n, a);
    NoErrorYet(cfg, n);
    assert EStep(cfg, n).MSE == ComputeCodebook(cfg, n).MSE;
  }

  lemma {:induction false} NoErrorYet(cfg: Config, n: KNode)
    requires Formed(cfg, n) && n.sMSE == 0.0 && n.tepsilon == 0 && !n.finished
    ensures var c := ComputeCodebook(cfg, n); c.MSE == 0.0 && c.tepsilon <= 1 && !c.finished
  {
    NonNegativeRatio(0.0, 0.0, n.w0);
    assert 0.0 / n.w0 * n.w0 == 0.0;
  }

  lemma SecondTurn(cfg: Config, n1: KNode, a1: seq<nat>)
    requires cfg.epsilon > 0.0 && Settled(cfg, n1, a1)
    requires n1.MSE == 0.0 && n1.tepsilon <= 1 && !n1.finished && n1.nbE == 1
    ensures var n2 := TurnAlone(cfg, n1);
      && Settled(cfg, n2, Assigned(n1.X, n2.codebook, cfg.D))
      && Pace(cfg, n2, 2, 0, n1.sMSE / |n1.X| as real)
  {
    var n2 := TurnAlone(cfg, n1);
    LloydMonotone(cfg, n1, a1);
    NonNegativeRatio(n2.sMSE, n1.sMSE, n1.w0);
    assert n2.MSE == n1.sMSE / n1.w0;
  }

  /** A node unfinished after t >= 2 turns keeps the pace. */
  lemma {:induction false} KeepsPace(cfg: Config, X: Mat, a: seq<nat>, t: nat) returns (r: nat, b: seq<nat>)
    requires cfg.epsilon > 0.0 && cfg.K > 0 && |X| > 0 && Shape(X, |X|, cfg.D) && Assignment(a, |X|, cfg.K)
    requires t >= 2
    ensures var n := TurnsAlone(cfg, InitNode(cfg, X, a), t);
      && Settled(cfg, n, b)
      && (!n.finished ==> Pace(cfg, n, t, r, FirstError(cfg, X, a)))
      && (n.finished ==> n.nbE <= t)
  {
    var n0 := InitNode(cfg, X, a);
    if t == 2 {
      b := FirstTurns(cfg, X, a);
      r := 0;
    } else {
      r, b := KeepsPace(cfg, X, a, t - 1);
      var n := TurnsAlone(cfg, n0, t - 1);
      if !n.finished {
        r := PaceStep(cfg, n, b, t - 1, r, FirstError(cfg, X, a));
        b := Assigned(n.X, TurnAlone(cfg, n).codebook, cfg.D);
      }
    }
  }

  lemma ResetsAreFew(r: nat, mse: real, e1: real, epsilon: real)
    requires epsilon > 0.0 && mse >= 0.0 && r as real * epsilon <= e1 - mse
    ensures r <= (e1 / epsilon).Floor
  {
    var q := e1 / epsilon;
    assert q * epsilon == e1;
    assert (q - r as real) * epsilon >= 0.0;
    assert r as real <= q;
  }

  /** How many times the node's patience can be reset: floor(e1 / epsilon). */
  function Resets(cfg: Config, X: Mat, a: seq<nat>): (f: nat)
    requires cfg.epsilon > 0.0 && cfg.K > 0 && |X| > 0 && Shape(X, |X|, cfg.D) && Assignment(a, |X|, cfg.K)
  {
    FirstErrorNonNegative(cfg, X, a);
    (FirstError(cfg, X, a) / cfg.epsilon).Floor
  }

  lemma FirstErrorNonNegative(cfg: Config, X: Mat, a: seq<nat>)
    requires cfg.epsilon > 0.0 && cfg.K > 0 && |X| > 0 && Shape(X, |X|, cfg.D) && Assignment(a, |X|, cfg.K)
    ensures FirstError(cfg, X, a) / cfg.epsilon >= 0.0
  {
    InitIsAlone(cfg, X, a);
    LloydMonotone(cfg, InitNode(cfg, X, a), a);
    var s1 := TurnAlone(cfg, InitNode(cfg, X, a)).sMSE;
    NonNegativeRatio(s1, s1, |X| as real);
    NonNegativeRatio(FirstError(cfg, X, a), FirstError(cfg, X, a), cfg.epsilon);
  }

  /**
   An isolated node with a positive epsilon finishes within 1 + 100 * (floor(e1 / epsilon) + 1) E-steps,
   where e1 is the MSE produced by its first E-step.
   */
  lemma TerminationBound(cfg: Config, X: Mat, a: seq<nat>)
    requires cfg.epsilon > 0.0 && cfg.K > 0 && |X| > 0 && Shape(X, |X|, cfg.D) && Assignment(a, |X|, cfg.K)
    ensures var bound := 1 + PATIENCE * (Resets(cfg, X, a) + 1);
      var n := TurnsAlone(cfg, InitNode(cfg, X, a), bound); n.finished && n.nbE <= bound
  {
    var bound := 1 + PATIENCE * (Resets(cfg, X, a) + 1);
    var r, b := KeepsPace(cfg, X, a, bound);
    var n := TurnsAlone(cfg, InitNode(cfg, X, a), bound);
    if !n.finished {
      PaceEnds(cfg, n, bound, r, FirstError(cfg, X, a));
      assert false;
    }
  }

  /** A node that keeps the pace has not used up its resets. */
  lemma PaceEnds(cfg: Config, n: KNode, t: nat, r: nat, e1: real)
    requires cfg.epsilon > 0.0 && Pace(cfg, n, t, r, e1)
    ensures t < 1 + PATIENCE * ((e1 / cfg.epsilon).Floor + 1)
  {
    ResetsAreFew(r, n.MSE, e1, cfg.epsilon);
  }
}
