/**
 A network of K-means nodes that gossip their codebooks: the network-wide accounting of every statistic,
 and the refinement onto push-sum.
 */
module KMeansNetwork {
  import opened Vectors
  import opened Lloyd
  import opened KMeans
  import PushSum
  import Mixing

  /** The statistics a codebook message carries. */
  datatype Load = Load(S: Mat, w: Vec, sMSE: real, w0: real)

  /** A message is lost when its arrival made the receiver throw, or when it never left because the send threw. */
  datatype Packet = Packet(dst: nat, load: Load, lost: bool)

  /**
   nodes[i] is None until node i has received its training part.  flight and fins are the codebook and
   the FINISH messages in flight; inputs records (sum of the rows, number of rows) of every part.  A codebook
   message that reaches a node without statistics throws there and stays in flight as lost for ever: what it
   added to s_MSE before the exception is overwritten when the node is initialised.
   */
  datatype Net = Net(nodes: seq<Option<KNode>>, flight: seq<Packet>, fins: seq<nat>, inputs: seq<PushSum.Share>)

  /** What the transport does with a codebook message. */
  datatype Sending = Refused | Sent(dst: nat) | Overflow

  datatype Action =
    | Train(node: nat, X: Mat, a: seq<nat>)
    | Turn(node: nat, outs: int, sending: Sending, fins: seq<nat>)
    | DeliverCodebook(k: nat)
    | DeliverFinish(k: nat)

  const TINY: real := 0.00001

  ghost predicate LoadShape(cfg: Config, l: Load) {
    Shape(l.S, cfg.K, cfg.D) && |l.w| == cfg.K
  }

  function HalveLoad(l: Load): Load {
    Load(ScaleM(l.S, 0.5), Scale(l.w, 0.5), l.sMSE / 2.0, l.w0 / 2.0)
  }

  function DoubleLoad(l: Load): Load {
    Load(ScaleM(l.S, 2.0), Scale(l.w, 2.0), l.sMSE * 2.0, l.w0 * 2.0)
  }

  function MergeLoad(cfg: Config, a: Load, b: Load): Load
    requires LoadShape(cfg, a) && LoadShape(cfg, b)
  {
    Load(AddM(a.S, b.S, cfg.D), Add(a.w, b.w), a.sMSE + b.sMSE, a.w0 + b.w0)
  }

  function Held(n: KNode): Load {
    Load(n.S, n.w, n.sMSE, n.w0)
  }

  /** The node's own contribution: what its last assignment added. */
  function Own(n: KNode): Load {
    Load(n.Sn, n.wn, n.sMSEn, |n.X| as real)
  }

  function Hold(n: KNode, l: Load): KNode {
    n.(S := l.S, w := l.w, sMSE := l.sMSE, w0 := l.w0)
  }

  /**
   One turn of node n: an E-step, or an M-step whose message the transport takes or refuses.  An exception that
   leaves the M-step finds the statistics halved and skips the counters.
   */
  function TurnOf(cfg: Config, n: KNode, outs: int, sending: Sending): KNode
    requires Formed(cfg, n)
  {
    if n.m >= cfg.M || outs == 0 then var e := EStep(cfg, n); e.(nbE := e.nbE + 1, m := 0)
    else var c := n.(nbM := n.nbM + 1, m := n.m + 1);
      if n.w0 < TINY then c else
      match sending
      case Sent(_) => Hold(c, HalveLoad(Held(n)))
      case Overflow => Hold(n, HalveLoad(Held(n)))
      case Refused => Hold(c, DoubleLoad(HalveLoad(Held(n))))
  }

  /** Whether a turn leaves the node with half its statistics. */
  predicate Halves(cfg: Config, n: KNode, outs: int, sending: Sending) {
    !(n.m >= cfg.M || outs == 0) && !(n.w0 < TINY) && !sending.Refused?
  }

  /** The message that carries the other half; an overflow loses it at its sender. */
  function Posted(i: nat, sending: Sending, l: Load): Packet {
    if sending.Sent? then Packet(sending.dst, l, false) else Packet(i, l, true)
  }

  function Step(cfg: Config, net: Net, a: Action): Net
    requires Wf(cfg, net)
  {
    match a
    case Train(i, X, labels) =>
      if i < |net.nodes| && net.nodes[i].None? && GoodPart(cfg, X, labels)
      then net.(nodes := net.nodes[i := Some(InitNode(cfg, X, labels))], inputs := net.inputs + [InputOf(cfg, X)])
      else net
    case Turn(i, outs, sending, fins) =>
      if i < |net.nodes| && net.nodes[i].Some? && !net.nodes[i].value.finished
         && (sending.Sent? ==> sending.dst < |net.nodes|)
      then var n := net.nodes[i].value;
        var r := TurnOf(cfg, n, outs, sending);
        net.(nodes := net.nodes[i := Some(r)],
             flight := if Halves(cfg, n, outs, sending)
                       then net.flight + [Posted(i, sending, HalveLoad(Held(n)))] else net.flight,
             fins := if r.finished && outs > 0 then net.fins + fins else net.fins)
      else net
    case DeliverCodebook(k) =>
      if k < |net.flight| && !net.flight[k].lost
      then var p := net.flight[k];
        if net.nodes[p.dst].Some?
        then var n := net.nodes[p.dst].value;
          net.(nodes := net.nodes[p.dst := Some(Hold(n, MergeLoad(cfg, Held(n), p.load)))],
               flight := Without(net.flight, k))
        else net.(flight := net.flight[k := p.(lost := true)])
      else net
    case DeliverFinish(k) =>
      if k < |net.fins| && net.fins[k] < |net.nodes| && net.nodes[net.fins[k]].Some?
      then var n := net.nodes[net.fins[k]].value;
        net.(nodes := net.nodes[net.fins[k] := Some(n.(finished := true))], fins := Without(net.fins, k))
      else net
  }

  /** A training part: at least one row, all of dimension D, with any initial assignment. */
  predicate GoodPart(cfg: Config, X: Mat, a: seq<nat>)
    ensures GoodPart(cfg, X, a) ==> |X| > 0 && cfg.K > 0 && Shape(X, |X|, cfg.D) && Assignment(a, |X|, cfg.K)
  {
    && |X| > 0 && cfg.K > 0 && |a| == |X|
    && (forall i :: 0 <= i < |X| ==> |X[i]| == cfg.D)
    && (forall i :: 0 <= i < |a| ==> a[i] < cfg.K)
  }

  function InputOf(cfg: Config, X: Mat): PushSum.Share {
    PushSum.Share(RowSum(X, cfg.D), |X| as real)
  }

  function Init(n: nat): Net {
    Net(seq(n, _ => None), [], [], [])
  }

  function Exec(cfg: Config, n: nat, acts: seq<Action>): (net: Net)
    ensures Wf(cfg, net) && |net.nodes| == n
  {
    if |acts| == 0 then Init(n) else
    var before := Exec(cfg, n, acts[..|acts| - 1]);
    StepWf(cfg, before, acts[|acts| - 1]);
    Step(cfg, before, acts[|acts| - 1])
  }

  // ----- the invariant of nodes and messages -----

  /** The cluster weights of a load add up to its w0. */
  ghost predicate Weighed(cfg: Config, l: Load) {
    LoadShape(cfg, l) && l.w0 > 0.0 && Total(l.w, Id()) == l.w0
  }

  ghost predicate NodeOk(cfg: Config, n: KNode) {
    && Formed(cfg, n)
    && Weighed(cfg, Held(n))
    && Weighed(cfg, Own(n))
    && RowSum(n.Sn, cfg.D) == RowSum(n.X, cfg.D)
  }

  ghost predicate Wf(cfg: Config, net: Net) {
    && (forall i :: 0 <= i < |net.nodes| && net.nodes[i].Some? ==> NodeOk(cfg, net.nodes[i].value))
    && (forall k :: 0 <= k < |net.flight| ==> net.flight[k].dst < |net.nodes| && Weighed(cfg, net.flight[k].load))
  }

  /** Every assignment distributes all the points: its cluster sums add up to the sum of the points. */
  lemma {:induction false} SumsPartition(X: Mat, a: seq<nat>, K: nat, D: nat)
    requires Shape(X, |X|, D) && Assignment(a, |X|, K)
    ensures RowSum(Sums(X, a, K, D), D) == RowSum(X, D)
    ensures Total(Counts(a, K), Id()) == |X| as real
  {
    if |X| == 0 {
      forall d | 0 <= d < D ensures RowSum(ZeroM(K, D), D)[d] == RowSum(X, D)[d] {
        TotalVanishes(ZeroM(K, D), At(d));
      }
      TotalVanishes(Zero(K), Id());
    } else {
      var n := |X| - 1;
      var k := a[n];
      SumsPartition(X[..n], a[..n], K, D);
      var S := Sums(X[..n], a[..n], K, D);
      forall d | 0 <= d < D ensures RowSum(Sums(X, a, K, D), D)[d] == RowSum(X, D)[d] {
        TotalUpdate(S, k, Add(S[k], X[n]), At(d));
        assert RowSum(S, D)[d] == RowSum(X[..n], D)[d];
      }
      TotalUpdate(Counts(a[..n], K), k, Counts(a[..n], K)[k] + 1.0, Id());
    }
  }

  lemma InitOk(cfg: Config, X: Mat, a: seq<nat>)
    requires GoodPart(cfg, X, a)
    ensures NodeOk(cfg, InitNode(cfg, X, a))
  {
    InitIsAlone(cfg, X, a);
    SumsPartition(X, a, cfg.K, cfg.D);
  }

  lemma EStepOk(cfg: Config, n: KNode)
    requires NodeOk(cfg, n)
    ensures var r := EStep(cfg, n);
      NodeOk(cfg, r) && RowSum(r.S, cfg.D) == RowSum(n.S, cfg.D) && r.w0 == n.w0 && r.X == n.X
  {
    var r := EStep(cfg, n);
    var a := Assigned(n.X, r.codebook, cfg.D);
    SumsPartition(n.X, a, cfg.K, cfg.D);
    RowSumReplace(n.S, n.Sn, r.Sn, cfg.D);
    TotalSub(n.w, n.wn);
    TotalAdd(Sub(n.w, n.wn), r.wn);
  }

  lemma HalveOk(cfg: Config, l: Load)
    requires Weighed(cfg, l)
    ensures Weighed(cfg, HalveLoad(l))
    ensures RowSum(HalveLoad(l).S, cfg.D) == Scale(RowSum(l.S, cfg.D), 0.5)
    ensures DoubleLoad(HalveLoad(l)) == l
  {
    TotalScale(l.w, 0.5);
    RowSumScale(l.S, 0.5, cfg.D);
    forall k | 0 <= k < |l.S| ensures ScaleM(ScaleM(l.S, 0.5), 2.0)[k] == l.S[k] {
      assert Scale(Scale(l.S[k], 0.5), 2.0) == l.S[k];
    }
    assert ScaleM(ScaleM(l.S, 0.5), 2.0) == l.S;
    assert Scale(Scale(l.w, 0.5), 2.0) == l.w;
  }

  lemma MergeOk(cfg: Config, a: Load, b: Load)
    requires Weighed(cfg, a) && Weighed(cfg, b)
    ensures Weighed(cfg, MergeLoad(cfg, a, b))
    ensures RowSum(MergeLoad(cfg, a, b).S, cfg.D) == Add(RowSum(a.S, cfg.D), RowSum(b.S, cfg.D))
  {
    TotalAdd(a.w, b.w);
    RowSumAdd(a.S, b.S, cfg.D);
  }

  lemma TurnOk(cfg: Config, n: KNode, outs: int, sending: Sending)
    requires NodeOk(cfg, n)
    ensures var r := TurnOf(cfg, n, outs, sending);
      && NodeOk(cfg, r) && r.X == n.X
      && (Halves(cfg, n, outs, sending) ==> Held(r) == HalveLoad(Held(n)) && Own(r) == Own(n))
      && (!Halves(cfg, n, outs, sending) ==> RowSum(r.S, cfg.D) == RowSum(n.S, cfg.D) && r.w0 == n.w0)
  {
    if n.m >= cfg.M || outs == 0 {
      EStepOk(cfg, n);
    } else {
      HalveOk(cfg, Held(n));
    }
  }

  lemma StepWf(cfg: Config, net: Net, a: Action)
    requires Wf(cfg, net)
    ensures Wf(cfg, Step(cfg, net, a)) && |Step(cfg, net, a).nodes| == |net.nodes|
  {
    match a
    case Train(i, X, labels) =>
      if GoodPart(cfg, X, labels) { InitOk(cfg, X, labels); }
    case Turn(i, outs, sending, fins) =>
      if i < |net.nodes| && net.nodes[i].Some? {
        TurnOk(cfg, net.nodes[i].value, outs, sending);
        HalveOk(cfg, Held(net.nodes[i].value));
      }
    case DeliverCodebook(k) =>
      if k < |net.flight| && net.nodes[net.flight[k].dst].Some? && !net.flight[k].lost {
        MergeOk(cfg, Held(net.nodes[net.flight[k].dst].value), net.flight[k].load);
      }
    case DeliverFinish(k) =>
  }

  // ----- network-wide accounting -----

  /** The statistics that are accounted for. */
  datatype Meter = SumAt(k: nat, d: nat) | WeightAt(k: nat) | Error | Mass

  function Read(m: Meter, l: Load): real {
    match m
    case SumAt(k, d) => if k < |l.S| && d < |l.S[k]| then l.S[k][d] else 0.0
    case WeightAt(k) => if k < |l.w| then l.w[k] else 0.0
    case Error => l.sMSE
    case Mass => l.w0
  }

  function OnHeld(m: Meter): Option<KNode> -> real {
    (o: Option<KNode>) => if o.Some? then Read(m, Held(o.value)) else 0.0
  }

  function OnOwn(m: Meter): Option<KNode> -> real {
    (o: Option<KNode>) => if o.Some? then Read(m, Own(o.value)) else 0.0
  }

  function OnPacket(m: Meter): Packet -> real {
    (p: Packet) => Read(m, p.load)
  }

  /** What the nodes and the messages hold together, less what the nodes contributed. */
  function Imbalance(net: Net, m: Meter): real {
    Total(net.nodes, OnHeld(m)) + Total(net.flight, OnPacket(m)) - Total(net.nodes, OnOwn(m))
  }

  lemma ReadHalf(m: Meter, l: Load)
    ensures Read(m, HalveLoad(l)) * 2.0 == Read(m, l)
  {
  }

  lemma ReadMerge(cfg: Config, m: Meter, a: Load, b: Load)
    requires LoadShape(cfg, a) && LoadShape(cfg, b)
    ensures Read(m, MergeLoad(cfg, a, b)) == Read(m, a) + Read(m, b)
  {
  }

  /** An E-step moves what the node holds exactly as it moves the node's own contribution. */
  lemma ReadEStep(cfg: Config, m: Meter, n: KNode)
    requires Formed(cfg, n)
    ensures Read(m, Held(EStep(cfg, n))) - Read(m, Own(EStep(cfg, n))) == Read(m, Held(n)) - Read(m, Own(n))
  {
  }

  lemma ReadTurn(cfg: Config, m: Meter, n: KNode, outs: int, sending: Sending)
    requires NodeOk(cfg, n)
    ensures var r := TurnOf(cfg, n, outs, sending);
      Read(m, Held(r)) - Read(m, Own(r)) == Read(m, Held(n)) - Read(m, Own(n))
        - (if Halves(cfg, n, outs, sending) then Read(m, HalveLoad(Held(n))) else 0.0)
  {
    if n.m >= cfg.M || outs == 0 {
      ReadEStep(cfg, m, n);
    } else {
      HalveOk(cfg, Held(n));
      ReadHalf(m, Held(n));
    }
  }

  lemma NodeUpdate(net: Net, i: nat, n: KNode, m: Meter)
    requires i < |net.nodes|
    ensures Imbalance(net.(nodes := net.nodes[i := Some(n)]), m)
         == Imbalance(net, m) + Read(m, Held(n)) - Read(m, Own(n)) - OnHeld(m)(net.nodes[i]) + OnOwn(m)(net.nodes[i])
  {
    TotalUpdate(net.nodes, i, Some(n), OnHeld(m));
    TotalUpdate(net.nodes, i, Some(n), OnOwn(m));
  }

  lemma TurnKeepsBalance(cfg: Config, outs: int, net: Net, i: nat, sending: Sending, fins: seq<nat>, m: Meter)
    requires Wf(cfg, net) && i < |net.nodes| && net.nodes[i].Some?
    ensures Imbalance(Step(cfg, net, Turn(i, outs, sending, fins)), m) == Imbalance(net, m)
  {
    var n := net.nodes[i].value;
    NodeUpdate(net, i, TurnOf(cfg, n, outs, sending), m);
    ReadTurn(cfg, m, n, outs, sending);
    TotalPush(net.flight, Posted(i, sending, HalveLoad(Held(n))), OnPacket(m));
  }

  lemma DeliverKeepsBalance(cfg: Config, net: Net, k: nat, m: Meter)
    requires Wf(cfg, net) && k < |net.flight| && !net.flight[k].lost
    ensures Imbalance(Step(cfg, net, DeliverCodebook(k)), m) == Imbalance(net, m)
  {
    var p := net.flight[k];
    if net.nodes[p.dst].None? {
      TotalUpdate(net.flight, k, p.(lost := true), OnPacket(m));
    } else {
      MergeKeepsBalance(cfg, net, k, m);
    }
  }

  lemma MergeKeepsBalance(cfg: Config, net: Net, k: nat, m: Meter)
    requires Wf(cfg, net) && k < |net.flight| && !net.flight[k].lost && net.nodes[net.flight[k].dst].Some?
    ensures Imbalance(Step(cfg, net, DeliverCodebook(k)), m) == Imbalance(net, m)
  {
    var p := net.flight[k];
    var n := net.nodes[p.dst].value;
    NodeUpdate(net, p.dst, Hold(n, MergeLoad(cfg, Held(n), p.load)), m);
    ReadMerge(cfg, m, Held(n), p.load);
    TotalWithout(net.flight, k, OnPacket(m));
  }

  /** No step changes the balance: training, turns with or without a send, and deliveries. */
  lemma StepKeepsBalance(cfg: Config, net: Net, a: Action, m: Meter)
    requires Wf(cfg, net)
    ensures Imbalance(Step(cfg, net, a), m) == Imbalance(net, m)
  {
    match a
    case Train(i, X, labels) =>
      if i < |net.nodes| && GoodPart(cfg, X, labels) {
        NodeUpdate(net, i, InitNode(cfg, X, labels), m);
        InitIsAlone(cfg, X, labels);
      }
    case Turn(i, outs, sending, fins) =>
      if i < |net.nodes| && net.nodes[i].Some? { TurnKeepsBalance(cfg, outs, net, i, sending, fins, m); }
    case DeliverCodebook(k) =>
      if k < |net.flight| && !net.flight[k].lost { DeliverKeepsBalance(cfg, net, k, m); }
    case DeliverFinish(k) =>
      if k < |net.fins| && net.fins[k] < |net.nodes| && net.nodes[net.fins[k]].Some? {
        NodeUpdate(net, net.fins[k], net.nodes[net.fins[k]].value.(finished := true), m);
      }
  }

  lemma {:induction false} BalanceKept(cfg: Config, n: nat, acts: seq<Action>, m: Meter)
    ensures Imbalance(Exec(cfg, n, acts), m) == 0.0
  {
    if |acts| == 0 {
      TotalVanishes(Init(n).nodes, OnHeld(m));
      TotalVanishes(Init(n).nodes, OnOwn(m));
    } else {
      BalanceKept(cfg, n, acts[..|acts| - 1], m);
      StepKeepsBalance(cfg, Exec(cfg, n, acts[..|acts| - 1]), acts[|acts| - 1], m);
    }
  }

  function OnLive(m: Meter): Packet -> real {
    (p: Packet) => if p.lost then 0.0 else Read(m, p.load)
  }

  function OnLost(m: Meter): Packet -> real {
    (p: Packet) => if p.lost then Read(m, p.load) else 0.0
  }

  lemma {:induction false} LiveAndLost(ps: seq<Packet>, m: Meter)
    ensures Total(ps, OnPacket(m)) == Total(ps, OnLive(m)) + Total(ps, OnLost(m))
  {
    if |ps| > 0 { LiveAndLost(ps[..|ps| - 1], m); }
  }

  /**
   In every reachable state, what the nodes hold, the messages carry and the lost messages carried equals
   what the nodes last contributed: for every entry of S, every cluster weight, the error, and the total
   weight (the number of training rows).
   */
  lemma Accounting(cfg: Config, n: nat, acts: seq<Action>, m: Meter)
    ensures var net := Exec(cfg, n, acts);
      Total(net.nodes, OnHeld(m)) + Total(net.flight, OnLive(m)) + Total(net.flight, OnLost(m))
        == Total(net.nodes, OnOwn(m))
  {
    BalanceKept(cfg, n, acts, m);
    LiveAndLost(Exec(cfg, n, acts).flight, m);
  }

  ghost predicate NothingLost(net: Net) {
    forall k :: 0 <= k < |net.flight| ==> !net.flight[k].lost
  }

  lemma {:induction false} LostMass(ps: seq<Packet>)
    requires forall k :: 0 <= k < |ps| ==> ps[k].load.w0 > 0.0
    ensures Total(ps, OnLost(Mass)) >= 0.0
    ensures Total(ps, OnLost(Mass)) == 0.0 <==> forall k :: 0 <= k < |ps| ==> !ps[k].lost
  {
    if |ps| > 0 { LostMass(ps[..|ps| - 1]); }
  }

  /** A codebook message that arrives finds its receiver with its training part. */
  predicate InTime(net: Net, a: Action) {
    a.DeliverCodebook? && a.k < |net.flight| && !net.flight[a.k].lost && net.flight[a.k].dst < |net.nodes| ==>
      net.nodes[net.flight[a.k].dst].Some?
  }

  /** A turn that sends a codebook message does not draw an index beyond the neighbours. */
  predicate NoOverflow(cfg: Config, net: Net, a: Action) {
    a.Turn? && a.node < |net.nodes| && net.nodes[a.node].Some? && !net.nodes[a.node].value.finished ==>
      !(Halves(cfg, net.nodes[a.node].value, a.outs, a.sending) && a.sending.Overflow?)
  }

  /** No turn of the run overflows, and every codebook message that arrives does so in time. */
  predicate AllKept(cfg: Config, n: nat, acts: seq<Action>) {
    |acts| == 0 ||
    (var k := |acts| - 1;
     && AllKept(cfg, n, acts[..k])
     && InTime(Exec(cfg, n, acts[..k]), acts[k]) && NoOverflow(cfg, Exec(cfg, n, acts[..k]), acts[k]))
  }

  lemma StepLoses(cfg: Config, net: Net, a: Action)
    requires Wf(cfg, net)
    ensures NothingLost(Step(cfg, net, a)) <==> NothingLost(net) && InTime(net, a) && NoOverflow(cfg, net, a)
  {
    if a.DeliverCodebook? && a.k < |net.flight| && !net.flight[a.k].lost {
      DeliveryLoses(cfg, net, a.k);
    } else if a.Turn? {
      TurnLoses(cfg, net, a);
    }
  }

  lemma TurnLoses(cfg: Config, net: Net, a: Action)
    requires Wf(cfg, net) && a.Turn?
    ensures NothingLost(Step(cfg, net, a)) <==> NothingLost(net) && NoOverflow(cfg, net, a)
  {
    var t := Step(cfg, net, a);
    assert forall k :: 0 <= k < |net.flight| ==> t.flight[k] == net.flight[k];
    if |t.flight| > |net.flight| {
      var p := t.flight[|net.flight|];
      assert p.lost <==> a.sending.Overflow?;
    }
  }

  lemma DeliveryLoses(cfg: Config, net: Net, k: nat)
    requires Wf(cfg, net) && k < |net.flight| && !net.flight[k].lost
    ensures NothingLost(Step(cfg, net, DeliverCodebook(k)))
      <==> NothingLost(net) && net.nodes[net.flight[k].dst].Some?
  {
    var t := Step(cfg, net, DeliverCodebook(k));
    if net.nodes[net.flight[k].dst].None? {
      assert t.flight[k].lost;
    } else {
      assert forall i :: 0 <= i < k ==> t.flight[i] == net.flight[i];
      assert forall i :: k < i < |net.flight| ==> t.flight[i - 1] == net.flight[i];
    }
  }

  /** Nothing is lost in a run if and only if no turn overflows and each message that arrives does so in time. */
  lemma {:induction false} NothingLostIff(cfg: Config, n: nat, acts: seq<Action>)
    ensures NothingLost(Exec(cfg, n, acts)) <==> AllKept(cfg, n, acts)
  {
    if |acts| > 0 {
      var k := |acts| - 1;
      NothingLostIff(cfg, n, acts[..k]);
      StepLoses(cfg, Exec(cfg, n, acts[..k]), acts[k]);
    }
  }

  /**
   Nodes and live messages account for every training row if and only if no turn of the run overflowed and
   every codebook message that arrived reached a node that had its training part.
   */
  lemma RowsAccountedIff(cfg: Config, n: nat, acts: seq<Action>)
    ensures var net := Exec(cfg, n, acts);
      (Total(net.nodes, OnHeld(Mass)) + Total(net.flight, OnLive(Mass)) == Total(net.nodes, OnOwn(Mass)))
      <==> AllKept(cfg, n, acts)
  {
    Accounting(cfg, n, acts, Mass);
    LostMass(Exec(cfg, n, acts).flight);
    NothingLostIff(cfg, n, acts);
  }

  /** In such a run nodes and live messages account for every statistic. */
  lemma AccountingKept(cfg: Config, n: nat, acts: seq<Action>, m: Meter)
    requires AllKept(cfg, n, acts)
    ensures var net := Exec(cfg, n, acts);
      Total(net.nodes, OnHeld(m)) + Total(net.flight, OnLive(m)) == Total(net.nodes, OnOwn(m))
  {
    Accounting(cfg, n, acts, m);
    NothingLostIff(cfg, n, acts);
    TotalVanishes(Exec(cfg, n, acts).flight, OnLost(m));
  }

  // ----- refinement onto push-sum -----

  function AbsLoad(cfg: Config, l: Load): PushSum.Share {
    PushSum.Share(RowSum(l.S, cfg.D), l.w0)
  }

  function AbsNode(cfg: Config, o: Option<KNode>): Option<PushSum.Share> {
    if o.Some? then Some(AbsLoad(cfg, Held(o.value))) else None
  }

  /** Forget the clusters: a node or a message becomes the pair (sum of all clusters' rows, w0). */
  function Abs(cfg: Config, net: Net): (r: PushSum.Net)
    ensures |r.nodes| == |net.nodes| && |r.flight| == |net.flight| && r.inputs == net.inputs
  {
    PushSum.Net(
      seq(|net.nodes|, i requires 0 <= i < |net.nodes| => AbsNode(cfg, net.nodes[i])),
      seq(|net.flight|, k requires 0 <= k < |net.flight| =>
        PushSum.Packet(net.flight[k].dst, AbsLoad(cfg, net.flight[k].load))),
      net.inputs)
  }

  /**
   The push-sum actions of one K-means action: none for an E-step, a refused send, a lost arrival or a FINISH.
   An overflow is a split whose message is never delivered.
   */
  function Trans(cfg: Config, net: Net, a: Action): seq<PushSum.Action> {
    match a
    case Train(i, X, labels) =>
      if i < |net.nodes| && net.nodes[i].None? && GoodPart(cfg, X, labels)
      then [PushSum.Train(i, InputOf(cfg, X))] else []
    case Turn(i, outs, sending, fins) =>
      if i < |net.nodes| && net.nodes[i].Some? && !net.nodes[i].value.finished
         && Halves(cfg, net.nodes[i].value, outs, sending) && (sending.Sent? ==> sending.dst < |net.nodes|)
      then [PushSum.Send(i, Posted(i, sending, HalveLoad(Held(net.nodes[i].value))).dst)] else []
    case DeliverCodebook(k) =>
      if k < |net.flight| && !net.flight[k].lost
         && net.flight[k].dst < |net.nodes| && net.nodes[net.flight[k].dst].Some?
      then [PushSum.Deliver(k)] else []
    case DeliverFinish(k) => []
  }

  lemma ExecOne(net: PushSum.Net, a: PushSum.Action)
    ensures PushSum.Exec(net, [a]) == PushSum.Step(net, a)
  {
    assert [a][..0] == [];
    assert PushSum.Exec(net, []) == net;
  }

  lemma TurnRefines(cfg: Config, outs: int, net: Net, i: nat, sending: Sending, fins: seq<nat>)
    requires Wf(cfg, net) && i < |net.nodes| && net.nodes[i].Some?
    ensures var a := Turn(i, outs, sending, fins);
      Abs(cfg, Step(cfg, net, a)) == PushSum.Exec(Abs(cfg, net), Trans(cfg, net, a))
  {
    var abs, net' := Abs(cfg, net), Step(cfg, net, Turn(i, outs, sending, fins));
    var t := Trans(cfg, net, Turn(i, outs, sending, fins));
    var n := net.nodes[i].value;
    TurnOk(cfg, n, outs, sending);
    HalveOk(cfg, Held(n));
    if |t| == 1 {
      ExecOne(abs, t[0]);
      assert Abs(cfg, net').nodes == PushSum.Step(abs, t[0]).nodes;
      assert Abs(cfg, net').flight == PushSum.Step(abs, t[0]).flight;
    } else {
      assert Abs(cfg, net').nodes == abs.nodes;
      assert Abs(cfg, net').flight == abs.flight;
    }
  }

  lemma DeliverRefines(cfg: Config, net: Net, k: nat)
    requires Wf(cfg, net) && k < |net.flight| && !net.flight[k].lost && net.nodes[net.flight[k].dst].Some?
    ensures Abs(cfg, Step(cfg, net, DeliverCodebook(k))) == PushSum.Step(Abs(cfg, net), PushSum.Deliver(k))
  {
    var p := net.flight[k];
    var net', abs' := Step(cfg, net, DeliverCodebook(k)), PushSum.Step(Abs(cfg, net), PushSum.Deliver(k));
    MergeOk(cfg, Held(net.nodes[p.dst].value), p.load);
    assert Abs(cfg, net').nodes == abs'.nodes;
    assert Abs(cfg, net').flight == abs'.flight;
  }

  /** E-steps, refused sends, lost arrivals and FINISH messages stutter; a sent M-step splits, a delivery merges. */
  lemma StepRefines(cfg: Config, net: Net, a: Action)
    requires Wf(cfg, net)
    ensures Abs(cfg, Step(cfg, net, a)) == PushSum.Exec(Abs(cfg, net), Trans(cfg, net, a))
    ensures PushSum.GoodActions(Trans(cfg, net, a), cfg.D)
  {
    var abs, net' := Abs(cfg, net), Step(cfg, net, a);
    var t := Trans(cfg, net, a);
    match a
    case Train(i, X, labels) =>
      if |t| == 1 {
        ExecOne(abs, t[0]);
        InitIsAlone(cfg, X, labels);
        InitOk(cfg, X, labels);
        PushSum.AbsorbFirst(InputOf(cfg, X));
        assert Abs(cfg, net').nodes == PushSum.Step(abs, t[0]).nodes;
      }
    case Turn(i, outs, sending, fins) =>
      if i < |net.nodes| && net.nodes[i].Some? { TurnRefines(cfg, outs, net, i, sending, fins); }
    case DeliverCodebook(k) =>
      if |t| == 1 {
        ExecOne(abs, t[0]);
        DeliverRefines(cfg, net, k);
      } else {
        assert Abs(cfg, net').nodes == abs.nodes;
        assert Abs(cfg, net').flight == abs.flight;
      }
    case DeliverFinish(k) =>
      assert Abs(cfg, net').nodes == abs.nodes;
  }

  lemma {:induction false} ExecConcat(net: PushSum.Net, s: seq<PushSum.Action>, t: seq<PushSum.Action>)
    ensures PushSum.Exec(net, s + t) == PushSum.Exec(PushSum.Exec(net, s), t)
  {
    if |t| == 0 {
      assert s + t == s;
    } else {
      ExecConcat(net, s, t[..|t| - 1]);
      assert (s + t)[..|s + t| - 1] == s + t[..|t| - 1];
    }
  }

  /** Every K-means run, with its clusters forgotten, is a push-sum run. */
  lemma {:induction false} RunRefines(cfg: Config, n: nat, acts: seq<Action>) returns (run: seq<PushSum.Action>)
    ensures PushSum.GoodActions(run, cfg.D)
    ensures Abs(cfg, Exec(cfg, n, acts)) == PushSum.Exec(PushSum.Init(n), run)
  {
    if |acts| == 0 {
      run := [];
      assert Abs(cfg, Init(n)).nodes == PushSum.Init(n).nodes;
    } else {
      var before := Exec(cfg, n, acts[..|acts| - 1]);
      run := RunRefines(cfg, n, acts[..|acts| - 1]);
      StepRefines(cfg, before, acts[|acts| - 1]);
      var t := Trans(cfg, before, acts[|acts| - 1]);
      ExecConcat(PushSum.Init(n), run, t);
      run := run + t;
    }
  }

  /**
   What the refinement gives: if the mean of every training part lies in [lo, hi] at coordinate d, so does
   the overall mean (sum of the clusters' rows over w0) held by every node and every message of every run.
   */
  lemma MeansStayInRange(cfg: Config, n: nat, acts: seq<Action>, d: nat, lo: real, hi: real)
    requires d < cfg.D && Mixing.InputsBetween(Exec(cfg, n, acts).inputs, d, lo, hi)
    ensures var net := Exec(cfg, n, acts);
      && (forall i :: 0 <= i < |net.nodes| && net.nodes[i].Some? ==>
            Mixing.RatioInRange(AbsLoad(cfg, Held(net.nodes[i].value)), d, lo, hi))
      && (forall k :: 0 <= k < |net.flight| ==> Mixing.RatioInRange(AbsLoad(cfg, net.flight[k].load), d, lo, hi))
  {
    var net := Exec(cfg, n, acts);
    var run := RunRefines(cfg, n, acts);
    Mixing.EstimatesStayInRange(n, run, cfg.D, d, lo, hi);
    var abs := Abs(cfg, net);
    forall i | 0 <= i < |net.nodes| && net.nodes[i].Some?
      ensures Mixing.RatioInRange(AbsLoad(cfg, Held(net.nodes[i].value)), d, lo, hi)
    {
      assert abs.nodes[i] == Some(AbsLoad(cfg, Held(net.nodes[i].value)));
    }
    forall k | 0 <= k < |net.flight|
      ensures Mixing.RatioInRange(AbsLoad(cfg, net.flight[k].load), d, lo, hi)
    {
      assert abs.flight[k].share == AbsLoad(cfg, net.flight[k].load);
    }
  }
}
