/**
 What one K-means node does over time: how often it makes E-steps, what an E-step computes, what its patience
 counts, and what makes it finish.
 */
module NodeRuns {
  import opened Vectors
  import opened Lloyd
  import opened KMeans
  import opened KMeansNetwork

  // ----- what an E-step computes -----

  /** x is nearest to entry k of the codebook, the last one among equals; without any centroid k is 0. */
  ghost predicate IsNearest(x: Vec, cb: Codebook, k: nat)
    requires Fits(cb, |cb|, |x|)
  {
    if forall j :: 0 <= j < |cb| ==> cb[j].None? then k == 0
    else
      && k < |cb| && cb[k].Some?
      && (forall j :: 0 <= j < |cb| && cb[j].Some? ==> SqDist(x, cb[k].value) <= SqDist(x, cb[j].value))
      && (forall j :: k < j < |cb| && cb[j].Some? ==> SqDist(x, cb[k].value) < SqDist(x, cb[j].value))
  }

  /**
   The codebook of any node, gossiping or not, is the mean of everything it holds for each cluster, its MSE the
   mean of the error it holds, and its patience counts one small improvement more or starts again.
   */
  lemma CodebookIsMean(cfg: Config, n: KNode)
    requires Formed(cfg, n)
    ensures var r := ComputeCodebook(cfg, n);
      && (forall k :: 0 <= k < cfg.K ==> (r.codebook[k].Some? <==> n.w[k] != 0.0))
      && (forall k, d :: 0 <= k < cfg.K && 0 <= d < cfg.D && r.codebook[k].Some? ==>
            r.codebook[k].value[d] * n.w[k] == n.S[k][d])
      && r.MSE * n.w0 == n.sMSE
    ensures var r := ComputeCodebook(cfg, n);
      && r.tepsilon == (
           if cfg.epsilon <= 0.0 then n.tepsilon else if n.MSE - r.MSE < cfg.epsilon then n.tepsilon + 1 else 0)
      && (r.finished <==> n.finished || (cfg.epsilon > 0.0 && r.tepsilon >= 100))
  {
    var r := ComputeCodebook(cfg, n);
    forall k, d | 0 <= k < cfg.K && 0 <= d < cfg.D && r.codebook[k].Some?
      ensures r.codebook[k].value[d] * n.w[k] == n.S[k][d]
    {
      DivMul(n.S[k][d], n.w[k]);
    }
    assert n.sMSE / n.w0 * n.w0 == n.sMSE;
  }

  /**
   The own contribution of any node after an E-step is the tally of the points nearest to each centroid of the
   codebook just computed, and its error the sum of their distances.
   */
  lemma EStepTallies(cfg: Config, n: KNode) returns (a: seq<nat>)
    requires Formed(cfg, n)
    ensures var r := EStep(cfg, n);
      && r.codebook == ComputeCodebook(cfg, n).codebook
      && Assignment(a, |n.X|, cfg.K) && (forall i :: 0 <= i < |n.X| ==> IsNearest(n.X[i], r.codebook, a[i]))
      && r.Sn == Sums(n.X, a, cfg.K, cfg.D) && r.wn == Counts(a, cfg.K)
      && (Covers(r.codebook, a) ==> r.sMSEn == Cost(n.X, a, r.codebook, cfg.D))
  {
    var r := EStep(cfg, n);
    a := Assigned(n.X, r.codebook, cfg.D);
    forall i | 0 <= i < |n.X| ensures IsNearest(n.X[i], r.codebook, a[i]) {
      NearestIsLeast(n.X[i], r.codebook, cfg.K);
    }
    if Covers(r.codebook, a) { ErrorsAreLeastCost(n.X, r.codebook, a, cfg.D); }
  }

  /** What others have contributed to a node's statistics is the same after an E-step as before. */
  lemma EStepKeepsOthers(cfg: Config, n: KNode)
    requires Formed(cfg, n)
    ensures var r := EStep(cfg, n);
      && (forall k, d :: 0 <= k < cfg.K && 0 <= d < cfg.D ==> r.S[k][d] - r.Sn[k][d] == n.S[k][d] - n.Sn[k][d])
      && (forall k :: 0 <= k < cfg.K ==> r.w[k] - r.wn[k] == n.w[k] - n.wn[k])
      && r.sMSE - r.sMSEn == n.sMSE - n.sMSEn && r.w0 == n.w0 && r.X == n.X
  {
    var r := EStep(cfg, n);
    forall k | 0 <= k < cfg.K ensures r.S[k] == Add(Sub(n.S[k], n.Sn[k]), r.Sn[k]) {}
  }

  /** Without any centroid every point counts as infinitely far. */
  lemma {:induction false} NoCentroid(X: Mat, cb: Codebook, D: nat)
    requires Shape(X, |X|, D) && Fits(cb, |cb|, D) && forall k :: 0 <= k < |cb| ==> cb[k].None?
    ensures Lloyd.Errors(X, cb, D) == |X| as real * FLT_MAX
  {
    if |X| > 0 {
      NoCentroid(X[..|X| - 1], cb, D);
      NearestIsLeast(X[|X| - 1], cb, |cb|);
      assert |X| as real * FLT_MAX == (|X| - 1) as real * FLT_MAX + FLT_MAX;
    }
  }

  /** The first E-step of a node counts as a large improvement: before it the error was infinite. */
  lemma FirstStepImproves(cfg: Config, X: Mat, a: seq<nat>)
    requires cfg.K > 0 && |X| > 0 && Shape(X, |X|, cfg.D) && Assignment(a, |X|, cfg.K)
    requires 0.0 < cfg.epsilon <= FLT_MAX
    ensures var r := EStep(cfg, InitNode(cfg, X, a)); r.tepsilon == 0 && !r.finished && r.MSE == 0.0
  {
    CodebookIsMean(cfg, InitNode(cfg, X, a));
  }

  // ----- what an M-step does -----

  /** A turn that is an M-step: nothing under weight 0.00001, otherwise half of everything leaves or all stays. */
  lemma MStepMeaning(cfg: Config, n: KNode, outs: int, sending: Sending, m: Meter)
    requires Formed(cfg, n) && n.m < cfg.M && outs != 0
    ensures var r := TurnOf(cfg, n, outs, sending);
      && (n.w0 < 0.00001 || sending.Refused? ==> Read(m, Held(r)) == Read(m, Held(n)))
      && (n.w0 >= 0.00001 && !sending.Refused? ==> 2.0 * Read(m, Held(r)) == Read(m, Held(n)))
      && Own(r) == Own(n) && r.codebook == n.codebook && r.MSE == n.MSE && r.finished == n.finished
      && r.m == (if n.w0 >= 0.00001 && sending.Overflow? then n.m else n.m + 1)
  {
    ReadHalf(m, Held(n));
    ReadDouble(m, HalveLoad(Held(n)));
  }

  lemma ReadDouble(m: Meter, l: Load)
    ensures Read(m, DoubleLoad(l)) == 2.0 * Read(m, l)
  {
  }

  /**
   What a turn of an unfinished node puts on the way: a codebook message to the chosen neighbour with exactly
   what the node keeps, and FINISH messages exactly when the turn finished it and it has neighbours.
   */
  lemma TurnPosts(cfg: Config, net: Net, i: nat, outs: int, sending: Sending, fins: seq<nat>)
    requires Wf(cfg, net) && i < |net.nodes| && net.nodes[i].Some? && !net.nodes[i].value.finished
    requires sending.Sent? ==> sending.dst < |net.nodes|
    ensures var n, t := net.nodes[i].value, Step(cfg, net, Action.Turn(i, outs, sending, fins));
      && t.nodes[i] == Some(TurnOf(cfg, n, outs, sending))
      && (forall j :: 0 <= j < |net.nodes| && j != i ==> t.nodes[j] == net.nodes[j])
      && (n.m < cfg.M && outs != 0 && n.w0 >= 0.00001 && sending.Sent? ==>
            t.flight == net.flight + [Packet(sending.dst, Held(t.nodes[i].value), false)])
      && (n.m >= cfg.M || outs == 0 || n.w0 < 0.00001 || sending.Refused? ==> t.flight == net.flight)
      && t.fins == net.fins + (if t.nodes[i].value.finished && outs > 0 then fins else [])
  {
    assert net.fins + [] == net.fins;
  }

  /** A codebook message that arrives in time is added to its receiver, to nobody else, and is gone. */
  lemma DeliveryMerges(cfg: Config, net: Net, k: nat, m: Meter)
    requires Wf(cfg, net) && k < |net.flight| && !net.flight[k].lost && net.nodes[net.flight[k].dst].Some?
    ensures var p, t := net.flight[k], Step(cfg, net, DeliverCodebook(k));
      && t.nodes[p.dst].Some?
      && Read(m, Held(t.nodes[p.dst].value)) == Read(m, Held(net.nodes[p.dst].value)) + Read(m, p.load)
      && Own(t.nodes[p.dst].value) == Own(net.nodes[p.dst].value)
      && (forall j :: 0 <= j < |net.nodes| && j != p.dst ==> t.nodes[j] == net.nodes[j])
      && t.flight == Without(net.flight, k) && t.fins == net.fins
  {
    ReadMerge(cfg, m, Held(net.nodes[net.flight[k].dst].value), net.flight[k].load);
  }

  /** A turn without neighbours is a turn of an isolated node. */
  lemma LonelyIsAlone(cfg: Config, n: KNode, sending: Sending)
    requires Formed(cfg, n) && !n.finished
    ensures TurnOf(cfg, n, 0, sending) == TurnAlone(cfg, n)
  {
  }

  // ----- the life of a node -----

  /** What happens to one node: a turn of the scheduler, a codebook message, a FINISH message. */
  datatype Event = Turn(outs: int, sending: Sending) | Receive(load: Load) | Finish

  ghost predicate GoodEvent(cfg: Config, e: Event) {
    e.Receive? ==> LoadShape(cfg, e.load) && e.load.w0 > 0.0
  }

  ghost predicate GoodEvents(cfg: Config, es: seq<Event>) {
    |es| == 0 || (GoodEvents(cfg, es[..|es| - 1]) && GoodEvent(cfg, es[|es| - 1]))
  }

  function After(cfg: Config, n: KNode, e: Event): (r: KNode)
    requires Formed(cfg, n) && GoodEvent(cfg, e)
    ensures Formed(cfg, r)
  {
    match e
    case Turn(outs, sending) => if n.finished then n else TurnOf(cfg, n, outs, sending)
    case Receive(l) => Hold(n, MergeLoad(cfg, Held(n), l))
    case Finish => n.(finished := true)
  }

  function Life(cfg: Config, n: KNode, es: seq<Event>): (r: KNode)
    requires Formed(cfg, n) && GoodEvents(cfg, es)
    ensures Formed(cfg, r)
  {
    if |es| == 0 then n else After(cfg, Life(cfg, n, es[..|es| - 1]), es[|es| - 1])
  }

  // ----- the schedule -----

  /** The number of turns the node was given before it finished. */
  function TurnsTaken(cfg: Config, n: KNode, es: seq<Event>): nat
    requires Formed(cfg, n) && GoodEvents(cfg, es)
  {
    if |es| == 0 then 0 else
    TurnsTaken(cfg, n, es[..|es| - 1])
      + (if es[|es| - 1].Turn? && !Life(cfg, n, es[..|es| - 1]).finished then 1 else 0)
  }

  /** Every turn finds neighbours and does not overflow them. */
  predicate Connected(es: seq<Event>) {
    |es| == 0 ||
    (var e := es[|es| - 1]; Connected(es[..|es| - 1]) && (e.Turn? ==> e.outs != 0 && !e.sending.Overflow?))
  }

  /** The number of turns from one E-step to the next: M sends lie between them. */
  function Period(cfg: Config): (p: nat)
    ensures p > 0
  {
    if cfg.M < 0 then 1 else cfg.M + 1
  }

  /** A node without neighbours makes an E-step in every turn, and starts counting sends again. */
  lemma LonelyTurn(cfg: Config, n: KNode, sending: Sending)
    requires Formed(cfg, n)
    ensures var r := TurnOf(cfg, n, 0, sending); r.nbE == n.nbE + 1 && r.nbM == n.nbM && r.m == 0
  {
  }

  /** With neighbours, each turn moves one step on in the schedule of M sends and one E-step. */
  lemma ScheduleStep(cfg: Config, n: KNode, outs: int, sending: Sending)
    requires Formed(cfg, n) && outs != 0 && !sending.Overflow? && 0 <= n.m < Period(cfg)
    ensures var r := TurnOf(cfg, n, outs, sending);
      && 0 <= r.m < Period(cfg)
      && r.nbE * Period(cfg) + r.m == n.nbE * Period(cfg) + n.m + 1
      && r.nbE + r.nbM == n.nbE + n.nbM + 1
  {
    assert (n.nbE + 1) * Period(cfg) == n.nbE * Period(cfg) + Period(cfg);
  }

  lemma {:induction false} OnSchedule(cfg: Config, n: KNode, es: seq<Event>)
    requires Formed(cfg, n) && GoodEvents(cfg, es) && Connected(es) && n.m == 0 && n.nbE == 0 && n.nbM == 0
    ensures var r := Life(cfg, n, es);
      && 0 <= r.m < Period(cfg)
      && r.nbE * Period(cfg) + r.m == TurnsTaken(cfg, n, es) == r.nbE + r.nbM
  {
    if |es| > 0 {
      var k := |es| - 1;
      OnSchedule(cfg, n, es[..k]);
      if es[k].Turn? { ScheduleStep(cfg, Life(cfg, n, es[..k]), es[k].outs, es[k].sending); }
    }
  }

  /**
   After t turns with neighbours, whatever it receives in between, a node has made t / (M + 1) E-steps and
   t - t / (M + 1) M-steps.
   */
  lemma EStepsMade(cfg: Config, n: KNode, es: seq<Event>)
    requires Formed(cfg, n) && GoodEvents(cfg, es) && Connected(es) && n.m == 0 && n.nbE == 0 && n.nbM == 0
    ensures var r, t := Life(cfg, n, es), TurnsTaken(cfg, n, es);
      r.nbE == t / Period(cfg) && r.nbM == t - t / Period(cfg)
  {
    OnSchedule(cfg, n, es);
    var r := Life(cfg, n, es);
    QuotientIs(TurnsTaken(cfg, n, es), r.nbE, Period(cfg), r.m);
  }

  // ----- finishing -----

  /** The MSE before the first E-step and after each one. */
  function Errors(cfg: Config, n: KNode, es: seq<Event>): (ms: seq<real>)
    requires Formed(cfg, n) && GoodEvents(cfg, es)
    ensures |ms| > 0
  {
    if |es| == 0 then [n.MSE] else
    var before, after := Life(cfg, n, es[..|es| - 1]), Life(cfg, n, es);
    Errors(cfg, n, es[..|es| - 1]) + (if after.nbE > before.nbE then [after.MSE] else [])
  }

  /** E-step i improved the MSE by less than epsilon. */
  predicate Small(cfg: Config, ms: seq<real>, i: nat)
    requires 0 < i < |ms|
  {
    ms[i - 1] - ms[i] < cfg.epsilon
  }

  /** The last t improvements, and no more, were small. */
  ghost predicate LastSmall(cfg: Config, ms: seq<real>, t: nat) {
    && t < |ms|
    && (forall i :: |ms| - t <= i < |ms| ==> Small(cfg, ms, i))
    && (t < |ms| - 1 ==> !Small(cfg, ms, |ms| - 1 - t))
  }

  predicate ToldToFinish(es: seq<Event>) {
    |es| > 0 && (es[|es| - 1].Finish? || ToldToFinish(es[..|es| - 1]))
  }

  /** What one turn does to the counters that matter for finishing. */
  lemma TurnErrors(cfg: Config, n: KNode, outs: int, sending: Sending)
    requires Formed(cfg, n) && cfg.epsilon > 0.0
    ensures var r := TurnOf(cfg, n, outs, sending);
      if r.nbE > n.nbE
      then r.tepsilon == (if n.MSE - r.MSE < cfg.epsilon then n.tepsilon + 1 else 0)
        && (r.finished <==> n.finished || r.tepsilon >= 100)
      else r.MSE == n.MSE && r.tepsilon == n.tepsilon && r.finished == n.finished
  {
    CodebookIsMean(cfg, n);
  }

  lemma LastSmallNext(cfg: Config, ms: seq<real>, t: nat, x: real)
    requires LastSmall(cfg, ms, t)
    ensures LastSmall(cfg, ms + [x], if ms[|ms| - 1] - x < cfg.epsilon then t + 1 else 0)
  {
    var r := ms + [x];
    assert forall i :: 0 < i < |ms| ==> Small(cfg, r, i) == Small(cfg, ms, i);
  }

  /** The node r, whose errors so far are ms, has counted them, and has finished for one of the two reasons. */
  ghost predicate Counted(cfg: Config, r: KNode, ms: seq<real>, told: bool) {
    && |ms| > 0 && ms[|ms| - 1] == r.MSE && LastSmall(cfg, ms, r.tepsilon) && r.tepsilon <= 100
    && (r.finished <==> told || r.tepsilon == 100)
  }

  /**
   The patience of a node is the number of small improvements it has made last, and the node has finished if and
   only if it was told to or has made 100 small improvements in a row.
   */
  lemma {:induction false} FinishesExactly(cfg: Config, n: KNode, es: seq<Event>)
    requires Formed(cfg, n) && GoodEvents(cfg, es) && cfg.epsilon > 0.0 && n.tepsilon == 0 && !n.finished
    ensures Counted(cfg, Life(cfg, n, es), Errors(cfg, n, es), ToldToFinish(es))
  {
    if |es| > 0 {
      var k := |es| - 1;
      FinishesExactly(cfg, n, es[..k]);
      FinishStep(cfg, Life(cfg, n, es[..k]), Errors(cfg, n, es[..k]), es[k], ToldToFinish(es[..k]));
    }
  }

  lemma FinishStep(cfg: Config, n: KNode, ms: seq<real>, e: Event, told: bool)
    requires Formed(cfg, n) && cfg.epsilon > 0.0 && GoodEvent(cfg, e) && Counted(cfg, n, ms, told)
    ensures var r := After(cfg, n, e);
      Counted(cfg, r, ms + (if r.nbE > n.nbE then [r.MSE] else []), told || e.Finish?)
  {
    assert ms + [] == ms;
    if e.Turn? && !n.finished {
      TurnErrors(cfg, n, e.outs, e.sending);
      var r := After(cfg, n, e);
      if r.nbE > n.nbE { LastSmallNext(cfg, ms, n.tepsilon, r.MSE); }
    }
  }

  /** A finished node stays finished, keeps its contribution, and takes no more turns. */
  lemma {:induction false} FinishedStays(cfg: Config, n: KNode, es: seq<Event>)
    requires Formed(cfg, n) && GoodEvents(cfg, es) && n.finished
    ensures var r := Life(cfg, n, es);
      && r.finished && Own(r) == Own(n) && r.codebook == n.codebook && r.nbE == n.nbE && r.nbM == n.nbM
      && TurnsTaken(cfg, n, es) == 0
  {
    if |es| > 0 { FinishedStays(cfg, n, es[..|es| - 1]); }
  }

  /** With epsilon zero or less a node finishes only when told to. */
  lemma {:induction false} NeverTired(cfg: Config, n: KNode, es: seq<Event>)
    requires Formed(cfg, n) && GoodEvents(cfg, es) && cfg.epsilon <= 0.0 && !n.finished
    ensures Life(cfg, n, es).finished <==> ToldToFinish(es)
  {
    if |es| > 0 {
      NeverTired(cfg, n, es[..|es| - 1]);
      CodebookIsMean(cfg, Life(cfg, n, es[..|es| - 1]));
    }
  }

  // ----- the life of a node in the network -----

  /** Every turn of node i in the run finds neighbours and does not overflow them. */
  predicate ConnectedActs(acts: seq<Action>, i: nat) {
    |acts| == 0 ||
    (var a := acts[|acts| - 1];
     && ConnectedActs(acts[..|acts| - 1], i)
     && (a.Turn? && a.node == i ==> a.outs != 0 && !a.sending.Overflow?))
  }

  predicate FinishDelivered(acts: seq<Action>) {
    |acts| > 0 && (acts[|acts| - 1].DeliverFinish? || FinishDelivered(acts[..|acts| - 1]))
  }

  /** One step of the network is at most one event of each node that has been trained. */
  lemma StepIsEvent(cfg: Config, net: Net, a: Action, i: nat) returns (e: Option<Event>)
    requires Wf(cfg, net) && i < |net.nodes| && net.nodes[i].Some?
    ensures e.Some? ==> GoodEvent(cfg, e.value)
    ensures Step(cfg, net, a).nodes[i]
         == Some(if e.None? then net.nodes[i].value else After(cfg, net.nodes[i].value, e.value))
    ensures e.Some? && e.value.Turn? ==>
      a.Turn? && a.node == i && a.outs == e.value.outs && a.sending == e.value.sending
    ensures e.Some? && e.value.Finish? ==> a.DeliverFinish?
  {
    e := None;
    match a
    case Train(_, _, _) =>
    case Turn(j, outs, sending, fins) =>
      if j == i && (sending.Sent? ==> sending.dst < |net.nodes|) { e := Some(Event.Turn(outs, sending)); }
    case DeliverCodebook(k) =>
      if k < |net.flight| && !net.flight[k].lost && net.flight[k].dst == i { e := Some(Receive(net.flight[k].load)); }
    case DeliverFinish(k) =>
      if k < |net.fins| && net.fins[k] == i { e := Some(Finish); }
  }

  /** In every run of the network a trained node lives a life of its own from its training part on. */
  lemma {:induction false} NodeLives(cfg: Config, n: nat, acts: seq<Action>, i: nat)
    returns (X: Mat, a: seq<nat>, es: seq<Event>)
    requires i < n && Exec(cfg, n, acts).nodes[i].Some?
    ensures GoodPart(cfg, X, a) && GoodEvents(cfg, es)
    ensures Exec(cfg, n, acts).nodes[i].value == Life(cfg, InitNode(cfg, X, a), es)
    ensures ConnectedActs(acts, i) ==> Connected(es)
    ensures ToldToFinish(es) ==> FinishDelivered(acts)
  {
    var k := |acts| - 1;
    var before := Exec(cfg, n, acts[..k]);
    if before.nodes[i].None? {
      X, a, es := acts[k].X, acts[k].a, [];
    } else {
      X, a, es := NodeLives(cfg, n, acts[..k], i);
      var more := StepIsEvent(cfg, before, acts[k], i);
      if more.Some? {
        LifeNext(cfg, InitNode(cfg, X, a), es, more.value);
        es := es + [more.value];
      }
    }
  }

  lemma LifeNext(cfg: Config, n: KNode, es: seq<Event>, e: Event)
    requires Formed(cfg, n) && GoodEvents(cfg, es) && GoodEvent(cfg, e)
    ensures GoodEvents(cfg, es + [e]) && Life(cfg, n, es + [e]) == After(cfg, Life(cfg, n, es), e)
    ensures Connected(es + [e]) <==> Connected(es) && (e.Turn? ==> e.outs != 0 && !e.sending.Overflow?)
    ensures ToldToFinish(es + [e]) <==> ToldToFinish(es) || e.Finish?
  {
    assert (es + [e])[..|es|] == es;
  }

  /**
   In every run in which a node always has neighbours, it has made an E-step for each M + 1 turns it was given
   before it finished, whatever it received.
   */
  lemma NetworkSchedule(cfg: Config, n: nat, acts: seq<Action>, i: nat) returns (t: nat)
    requires i < n && Exec(cfg, n, acts).nodes[i].Some? && ConnectedActs(acts, i)
    ensures var r := Exec(cfg, n, acts).nodes[i].value; r.nbE == t / Period(cfg) && r.nbE + r.nbM == t
  {
    var X, a, es := NodeLives(cfg, n, acts, i);
    t := TurnsTaken(cfg, InitNode(cfg, X, a), es);
    EStepsMade(cfg, InitNode(cfg, X, a), es);
  }

  /** Without a FINISH message, a node of the network finishes only by 100 small improvements in a row. */
  lemma NetworkFinish(cfg: Config, n: nat, acts: seq<Action>, i: nat) returns (ms: seq<real>)
    requires cfg.epsilon > 0.0 && i < n && Exec(cfg, n, acts).nodes[i].Some?
    ensures var r := Exec(cfg, n, acts).nodes[i].value;
      && LastSmall(cfg, ms, r.tepsilon) && r.tepsilon <= 100
      && (r.tepsilon == 100 ==> r.finished)
      && (r.finished ==> r.tepsilon == 100 || FinishDelivered(acts))
  {
    var X, a, es := NodeLives(cfg, n, acts, i);
    ms := Errors(cfg, InitNode(cfg, X, a), es);
    FinishesExactly(cfg, InitNode(cfg, X, a), es);
  }

  /** A FINISH message stops its receiver: it is finished, otherwise unchanged, and no turn of it has an effect. */
  lemma FinishStops(cfg: Config, net: Net, k: nat)
    requires Wf(cfg, net) && k < |net.fins| && net.fins[k] < |net.nodes| && net.nodes[net.fins[k]].Some?
    ensures var i, t := net.fins[k], Step(cfg, net, DeliverFinish(k));
      && t.nodes[i] == Some(net.nodes[i].value.(finished := true))
      && t.fins == Without(net.fins, k) && t.flight == net.flight
      && (forall outs, sending, fins :: Step(cfg, t, Action.Turn(i, outs, sending, fins)) == t)
  {
    StepWf(cfg, net, DeliverFinish(k));
  }
}
