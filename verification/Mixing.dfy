/**
 The mixing matrix of a gossip run: every share held by a node or travelling in a message is a
 non-negative combination of the injected inputs, and each input is handed out exactly once in total.
 Every estimate S/w therefore stays inside the range of the inputs.
 */
module Mixing {
  import opened Vectors
  import opened PushSum

  /** One row of coefficients, one coefficient per input, for each node and each message. */
  datatype Mix = Mix(nodes: seq<Vec>, flight: seq<Vec>)

  function Blend(alpha: Vec, inputs: seq<Share>, f: Share -> real): real
    requires |alpha| == |inputs|
  {
    if |alpha| == 0 then 0.0
    else var n := |alpha| - 1; Blend(alpha[..n], inputs[..n], f) + alpha[n] * f(inputs[n])
  }

  lemma {:induction false} BlendAdd(a: Vec, b: Vec, inputs: seq<Share>, f: Share -> real)
    requires |a| == |b| == |inputs|
    ensures Blend(Add(a, b), inputs, f) == Blend(a, inputs, f) + Blend(b, inputs, f)
  {
    if |a| > 0 {
      var n := |a| - 1;
      BlendAdd(a[..n], b[..n], inputs[..n], f);
      assert Add(a, b)[..n] == Add(a[..n], b[..n]);
    }
  }

  lemma {:induction false} BlendScale(a: Vec, c: real, inputs: seq<Share>, f: Share -> real)
    requires |a| == |inputs|
    ensures Blend(Scale(a, c), inputs, f) == Blend(a, inputs, f) * c
  {
    if |a| > 0 {
      var n := |a| - 1;
      BlendScale(a[..n], c, inputs[..n], f);
      ScalePrefix(a, c, n);
    }
  }

  lemma {:induction false} BlendZero(n: nat, inputs: seq<Share>, f: Share -> real)
    requires n == |inputs|
    ensures Blend(Zero(n), inputs, f) == 0.0
  {
    if n > 0 {
      BlendZero(n - 1, inputs[..n - 1], f);
      assert Zero(n)[..n - 1] == Zero(n - 1);
    }
  }

  lemma BlendPush(a: Vec, z: real, inputs: seq<Share>, x: Share, f: Share -> real)
    requires |a| == |inputs|
    ensures Blend(a + [z], inputs + [x], f) == Blend(a, inputs, f) + z * f(x)
  {
    assert (a + [z])[..|a|] == a;
    assert (inputs + [x])[..|a|] == inputs;
  }

  /** Bounds that hold for every input hold for every non-negative blend. */
  lemma {:induction false} BlendBetween(
    alpha: Vec, inputs: seq<Share>, f: Share -> real, g: Share -> real, lo: real, hi: real)
    requires |alpha| == |inputs| && NonNegative(alpha)
    requires forall j :: 0 <= j < |inputs| ==> lo * g(inputs[j]) <= f(inputs[j]) <= hi * g(inputs[j])
    ensures lo * Blend(alpha, inputs, g) <= Blend(alpha, inputs, f) <= hi * Blend(alpha, inputs, g)
  {
    if |alpha| > 0 {
      var n := |alpha| - 1;
      BlendBetween(alpha[..n], inputs[..n], f, g, lo, hi);
      ScaleBetween(alpha[n], g(inputs[n]), f(inputs[n]), lo, hi);
      SumBetween(Blend(alpha[..n], inputs[..n], g), Blend(alpha[..n], inputs[..n], f),
        alpha[n] * g(inputs[n]), alpha[n] * f(inputs[n]), lo, hi);
    }
  }

  lemma SumBetween(g1: real, f1: real, g2: real, f2: real, lo: real, hi: real)
    requires lo * g1 <= f1 <= hi * g1 && lo * g2 <= f2 <= hi * g2
    ensures lo * (g1 + g2) <= f1 + f2 <= hi * (g1 + g2)
  {
    Distribute(lo, g1, g2);
    Distribute(hi, g1, g2);
  }

  lemma ScaleBetween(a: real, g: real, f: real, lo: real, hi: real)
    requires a >= 0.0 && lo * g <= f <= hi * g
    ensures lo * (a * g) <= a * f <= hi * (a * g)
  {
    assert a * (f - lo * g) >= 0.0;
    assert a * (hi * g - f) >= 0.0;
  }

  // ----- explaining a network by its inputs -----

  ghost predicate NonNegative(alpha: Vec) {
    forall j :: 0 <= j < |alpha| ==> alpha[j] >= 0.0
  }

  ghost predicate Explains(alpha: Vec, s: Share, inputs: seq<Share>, D: nat) {
    && |alpha| == |inputs|
    && NonNegative(alpha)
    && |s.S| == D
    && (forall d :: 0 <= d < D ==> s.S[d] == Blend(alpha, inputs, Coord(d)))
    && s.w == Blend(alpha, inputs, Weight())
  }

  ghost predicate ExplainsNode(alpha: Vec, o: Option<Share>, inputs: seq<Share>, D: nat) {
    if o.Some? then Explains(alpha, o.value, inputs, D) else alpha == Zero(|inputs|)
  }

  /** How much of input j exists in the network. */
  function ColumnSum(mix: Mix, j: nat): real {
    Total(mix.nodes, At(j)) + Total(mix.flight, At(j))
  }

  ghost predicate Explained(net: Net, mix: Mix, D: nat) {
    && |mix.nodes| == |net.nodes| && |mix.flight| == |net.flight|
    && (forall i :: 0 <= i < |net.nodes| ==> ExplainsNode(mix.nodes[i], net.nodes[i], net.inputs, D))
    && (forall k :: 0 <= k < |net.flight| ==> Explains(mix.flight[k], net.flight[k].share, net.inputs, D))
    && (forall j :: 0 <= j < |net.inputs| ==> ColumnSum(mix, j) == 1.0)
  }

  function Grow(rows: seq<Vec>): (r: seq<Vec>)
    ensures |r| == |rows|
  {
    seq(|rows|, i requires 0 <= i < |rows| => rows[i] + [0.0])
  }

  /** The mixing matrix after one step: the coefficients follow the shares they explain. */
  function MixStep(net: Net, a: Action, mix: Mix): Mix
    requires |mix.nodes| == |net.nodes| && |mix.flight| == |net.flight|
    requires forall i, k :: 0 <= i < |mix.nodes| && 0 <= k < |mix.flight| ==> |mix.nodes[i]| == |mix.flight[k]|
  {
    match a
    case Train(i, x) =>
      if i < |net.nodes| then Mix(Grow(mix.nodes)[i := mix.nodes[i] + [1.0]], Grow(mix.flight)) else mix
    case Send(i, dst) =>
      if i < |net.nodes| && net.nodes[i].Some? && dst < |net.nodes|
      then var half := Scale(mix.nodes[i], 0.5); Mix(mix.nodes[i := half], mix.flight + [half])
      else mix
    case SendFails(i) => mix
    case Deliver(k) =>
      if k < |net.flight| && net.flight[k].dst < |net.nodes|
      then var dst := net.flight[k].dst;
        Mix(mix.nodes[dst := Add(mix.nodes[dst], mix.flight[k])], Without(mix.flight, k))
      else mix
  }

  lemma ExplainsHalf(alpha: Vec, s: Share, inputs: seq<Share>, D: nat)
    requires Explains(alpha, s, inputs, D)
    ensures Explains(Scale(alpha, 0.5), Halve(s), inputs, D)
  {
    forall d | 0 <= d < D
      ensures Halve(s).S[d] == Blend(Scale(alpha, 0.5), inputs, Coord(d))
    {
      BlendScale(alpha, 0.5, inputs, Coord(d));
    }
    BlendScale(alpha, 0.5, inputs, Weight());
  }

  lemma ExplainsAbsorb(alpha: Vec, cur: Option<Share>, beta: Vec, b: Share, inputs: seq<Share>, D: nat)
    requires ExplainsNode(alpha, cur, inputs, D) && Explains(beta, b, inputs, D)
    ensures ExplainsNode(Add(alpha, beta), Absorb(cur, b), inputs, D)
  {
    AbsorbFirst(b);
    forall d | 0 <= d < D
      ensures Absorb(cur, b).value.S[d] == Blend(Add(alpha, beta), inputs, Coord(d))
    {
      BlendAdd(alpha, beta, inputs, Coord(d));
      BlendZero(|inputs|, inputs, Coord(d));
    }
    BlendAdd(alpha, beta, inputs, Weight());
    BlendZero(|inputs|, inputs, Weight());
  }

  lemma ExplainsGrown(alpha: Vec, o: Option<Share>, inputs: seq<Share>, x: Share, D: nat)
    requires ExplainsNode(alpha, o, inputs, D)
    ensures ExplainsNode(alpha + [0.0], o, inputs + [x], D)
  {
    if o.Some? {
      forall d | 0 <= d < D
        ensures o.value.S[d] == Blend(alpha + [0.0], inputs + [x], Coord(d))
      {
        BlendPush(alpha, 0.0, inputs, x, Coord(d));
      }
      BlendPush(alpha, 0.0, inputs, x, Weight());
    }
  }

  lemma ExplainsInput(inputs: seq<Share>, x: Share, D: nat)
    requires |x.S| == D
    ensures Explains(Zero(|inputs|) + [1.0], x, inputs + [x], D)
  {
    var z := Zero(|inputs|);
    forall d | 0 <= d < D
      ensures x.S[d] == Blend(z + [1.0], inputs + [x], Coord(d))
    {
      BlendPush(z, 1.0, inputs, x, Coord(d));
      BlendZero(|inputs|, inputs, Coord(d));
    }
    BlendPush(z, 1.0, inputs, x, Weight());
    BlendZero(|inputs|, inputs, Weight());
  }

  lemma TrainExplainsNode(net: Net, i: nat, x: Share, alpha: Vec, n: nat, D: nat)
    requires i < |net.nodes| && |x.S| == D && n < |net.nodes|
    requires ExplainsNode(alpha, net.nodes[n], net.inputs, D)
    ensures ExplainsNode(alpha + [if n == i then 1.0 else 0.0], Step(net, Train(i, x)).nodes[n], net.inputs + [x], D)
  {
    ExplainsGrown(alpha, net.nodes[n], net.inputs, x, D);
    if n == i {
      var unit := Zero(|net.inputs|) + [1.0];
      ExplainsInput(net.inputs, x, D);
      ExplainsAbsorb(alpha + [0.0], net.nodes[i], unit, x, net.inputs + [x], D);
      assert Add(alpha + [0.0], unit) == alpha + [1.0];
    }
  }

  lemma TrainColumn(mix: Mix, i: nat, j: nat, J: nat)
    requires i < |mix.nodes| && j <= J
    requires forall n :: 0 <= n < |mix.nodes| ==> |mix.nodes[n]| == J
    requires forall k :: 0 <= k < |mix.flight| ==> |mix.flight[k]| == J
    ensures ColumnSum(Mix(Grow(mix.nodes)[i := mix.nodes[i] + [1.0]], Grow(mix.flight)), j)
         == if j < J then ColumnSum(mix, j) else 1.0
  {
    TotalUpdate(Grow(mix.nodes), i, mix.nodes[i] + [1.0], At(j));
    if j < J {
      TotalSame(Grow(mix.nodes), mix.nodes, At(j), At(j));
      TotalSame(Grow(mix.flight), mix.flight, At(j), At(j));
    } else {
      TotalVanishes(Grow(mix.nodes), At(j));
      TotalVanishes(Grow(mix.flight), At(j));
    }
  }

  lemma TrainExplains(net: Net, i: nat, x: Share, mix: Mix, D: nat)
    requires Explained(net, mix, D) && i < |net.nodes| && |x.S| == D
    ensures Explained(Step(net, Train(i, x)), MixStep(net, Train(i, x), mix), D)
  {
    var net', mix' := Step(net, Train(i, x)), MixStep(net, Train(i, x), mix);
    forall n | 0 <= n < |net.nodes|
      ensures ExplainsNode(mix'.nodes[n], net'.nodes[n], net'.inputs, D)
    {
      TrainExplainsNode(net, i, x, mix.nodes[n], n, D);
    }
    forall k | 0 <= k < |net.flight|
      ensures Explains(mix'.flight[k], net'.flight[k].share, net'.inputs, D)
    {
      ExplainsGrown(mix.flight[k], Some(net.flight[k].share), net.inputs, x, D);
    }
    forall j | 0 <= j < |net'.inputs|
      ensures ColumnSum(mix', j) == 1.0
    {
      TrainColumn(mix, i, j, |net.inputs|);
    }
  }

  lemma SendExplains(net: Net, i: nat, dst: nat, mix: Mix, D: nat)
    requires Explained(net, mix, D) && i < |net.nodes| && net.nodes[i].Some? && dst < |net.nodes|
    ensures Explained(Step(net, Send(i, dst)), MixStep(net, Send(i, dst), mix), D)
  {
    var mix' := MixStep(net, Send(i, dst), mix);
    var half := Scale(mix.nodes[i], 0.5);
    ExplainsHalf(mix.nodes[i], net.nodes[i].value, net.inputs, D);
    forall j | 0 <= j < |net.inputs|
      ensures ColumnSum(mix', j) == 1.0
    {
      TotalUpdate(mix.nodes, i, half, At(j));
      TotalPush(mix.flight, half, At(j));
      assert ColumnSum(mix, j) == 1.0;
    }
  }

  lemma DeliverExplains(net: Net, k: nat, mix: Mix, D: nat)
    requires Explained(net, mix, D) && k < |net.flight| && net.flight[k].dst < |net.nodes|
    ensures Explained(Step(net, Deliver(k)), MixStep(net, Deliver(k), mix), D)
  {
    var mix' := MixStep(net, Deliver(k), mix);
    var p := net.flight[k];
    ExplainsAbsorb(mix.nodes[p.dst], net.nodes[p.dst], mix.flight[k], p.share, net.inputs, D);
    forall j | 0 <= j < |net.inputs|
      ensures ColumnSum(mix', j) == 1.0
    {
      MovedColumn(mix, p.dst, k, j);
      assert ColumnSum(mix, j) == 1.0;
    }
  }

  /** A delivery moves coefficients from a message to a node and changes no column. */
  lemma MovedColumn(mix: Mix, dst: nat, k: nat, j: nat)
    requires dst < |mix.nodes| && k < |mix.flight| && |mix.nodes[dst]| == |mix.flight[k]|
    ensures ColumnSum(Mix(mix.nodes[dst := Add(mix.nodes[dst], mix.flight[k])], Without(mix.flight, k)), j)
         == ColumnSum(mix, j)
  {
    TotalUpdate(mix.nodes, dst, Add(mix.nodes[dst], mix.flight[k]), At(j));
    TotalWithout(mix.flight, k, At(j));
  }

  /** Every reachable network has a mixing matrix. */
  lemma {:induction false} MixingMatrix(n: nat, acts: seq<Action>, D: nat) returns (mix: Mix)
    requires GoodActions(acts, D)
    ensures Explained(Exec(Init(n), acts), mix, D)
  {
    if |acts| == 0 {
      mix := Mix(seq(n, _ => []), []);
      assert forall i :: 0 <= i < n ==> mix.nodes[i] == Zero(0);
    } else {
      var before, a := Exec(Init(n), acts[..|acts| - 1]), acts[|acts| - 1];
      mix := MixingMatrix(n, acts[..|acts| - 1], D);
      match a
      case Train(i, x) =>
        if i < |before.nodes| { TrainExplains(before, i, x, mix, D); mix := MixStep(before, a, mix); }
      case Send(i, dst) =>
        if i < |before.nodes| && before.nodes[i].Some? && dst < |before.nodes| {
          SendExplains(before, i, dst, mix, D);
          mix := MixStep(before, a, mix);
        }
      case SendFails(i) => FailedSendIsStutter(before, i);
      case Deliver(k) =>
        if k < |before.flight| && before.flight[k].dst < |before.nodes| {
          DeliverExplains(before, k, mix, D);
          mix := MixStep(before, a, mix);
        }
    }
  }

  lemma RatioBetween(x: real, w: real, lo: real, hi: real)
    requires w > 0.0 && lo * w <= x <= hi * w
    ensures lo <= x / w <= hi
  {
    var q := x / w;
    assert q * w == x;
    assert (q - lo) * w >= 0.0 && (hi - q) * w >= 0.0;
  }

  /** Every input's own ratio at coordinate d lies between lo and hi. */
  ghost predicate InputsBetween(inputs: seq<Share>, d: nat, lo: real, hi: real) {
    forall j :: 0 <= j < |inputs| ==> lo * Weight()(inputs[j]) <= Coord(d)(inputs[j]) <= hi * Weight()(inputs[j])
  }

  ghost predicate RatioInRange(s: Share, d: nat, lo: real, hi: real) {
    d < |s.S| && s.w > 0.0 && lo <= s.S[d] / s.w <= hi
  }

  lemma ExplainedRatio(alpha: Vec, s: Share, inputs: seq<Share>, D: nat, d: nat, lo: real, hi: real)
    requires Explains(alpha, s, inputs, D) && s.w > 0.0 && d < D && InputsBetween(inputs, d, lo, hi)
    ensures RatioInRange(s, d, lo, hi)
  {
    BlendBetween(alpha, inputs, Coord(d), Weight(), lo, hi);
    RatioBetween(s.S[d], s.w, lo, hi);
  }

  /** An estimate S/w, at a node or in a message, never leaves the range spanned by the inputs' own ratios. */
  lemma EstimatesStayInRange(n: nat, acts: seq<Action>, D: nat, d: nat, lo: real, hi: real)
    requires GoodActions(acts, D) && d < D
    requires InputsBetween(Exec(Init(n), acts).inputs, d, lo, hi)
    ensures var net := Exec(Init(n), acts);
      && (forall i :: 0 <= i < |net.nodes| && net.nodes[i].Some? ==> RatioInRange(net.nodes[i].value, d, lo, hi))
      && (forall k :: 0 <= k < |net.flight| ==> RatioInRange(net.flight[k].share, d, lo, hi))
  {
    var net := Exec(Init(n), acts);
    ExecWf(Init(n), acts, D);
    var mix := MixingMatrix(n, acts, D);
    forall i | 0 <= i < |net.nodes| && net.nodes[i].Some?
      ensures RatioInRange(net.nodes[i].value, d, lo, hi)
    {
      assert ExplainsNode(mix.nodes[i], net.nodes[i], net.inputs, D);
      ExplainedRatio(mix.nodes[i], net.nodes[i].value, net.inputs, D, d, lo, hi);
    }
    forall k | 0 <= k < |net.flight|
      ensures RatioInRange(net.flight[k].share, d, lo, hi)
    {
      ExplainedRatio(mix.flight[k], net.flight[k].share, net.inputs, D, d, lo, hi);
    }
  }
}
