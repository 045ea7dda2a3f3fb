/**
 The gossip averaging protocol as a network state machine.

 A node holds a share: a sum vector S and a weight w.  It halves its share and sends one half away;
 a failed send doubles the kept half back; a receiver adds what arrives.  A send that throws because its
 index is beyond the neighbours is a Send whose message is never delivered.  The choice of neighbour, the
 order of delivery and the failures are all in the action list, so a statement about every action list
 is a statement about every run.
 */
module PushSum {
  import opened Vectors

  datatype Share = Share(S: Vec, w: real)

  datatype Packet = Packet(dst: nat, share: Share)

  /** nodes[i] is None until node i has allocated its S; inputs is the history of injected shares. */
  datatype Net = Net(nodes: seq<Option<Share>>, flight: seq<Packet>, inputs: seq<Share>)

  datatype Action =
    | Train(node: nat, input: Share)
    | Send(node: nat, dst: nat)
    | SendFails(node: nat)
    | Deliver(k: nat)

  function Halve(s: Share): (r: Share) {
    Share(Scale(s.S, 0.5), s.w / 2.0)
  }

  function Double(s: Share): (r: Share) {
    Share(Scale(s.S, 2.0), s.w * 2.0)
  }

  function Merge(a: Share, b: Share): Share
    requires |a.S| == |b.S|
  {
    Share(Add(a.S, b.S), a.w + b.w)
  }

  /**
   What a node holds after adding b to what it had.  A node without S first allocates a zero S of b's
   size; a node whose S has another size throws before it changes anything.
   */
  function Absorb(cur: Option<Share>, b: Share): Option<Share> {
    match cur
    case None => Some(Merge(Share(Zero(|b.S|), 0.0), b))
    case Some(a) => if |a.S| == |b.S| then Some(Merge(a, b)) else cur
  }

  function Init(n: nat): Net {
    Net(seq(n, _ => None), [], [])
  }

  function Step(net: Net, a: Action): Net {
    match a
    case Train(i, x) =>
      if i < |net.nodes|
      then net.(nodes := net.nodes[i := Absorb(net.nodes[i], x)], inputs := net.inputs + [x])
      else net
    case Send(i, dst) =>
      if i < |net.nodes| && net.nodes[i].Some? && dst < |net.nodes|
      then var half := Halve(net.nodes[i].value);
        net.(nodes := net.nodes[i := Some(half)], flight := net.flight + [Packet(dst, half)])
      else net
    case SendFails(i) =>
      if i < |net.nodes| && net.nodes[i].Some?
      then net.(nodes := net.nodes[i := Some(Double(Halve(net.nodes[i].value)))])
      else net
    case Deliver(k) =>
      if k < |net.flight| && net.flight[k].dst < |net.nodes|
      then var p := net.flight[k];
        net.(nodes := net.nodes[p.dst := Absorb(net.nodes[p.dst], p.share)], flight := Without(net.flight, k))
      else net
  }

  function Exec(net: Net, acts: seq<Action>): Net {
    if |acts| == 0 then net else Step(Exec(net, acts[..|acts| - 1]), acts[|acts| - 1])
  }

  // ----- hypotheses and well-formedness -----

  ghost predicate GoodShare(s: Share, D: nat) {
    |s.S| == D && s.w > 0.0
  }

  /** Every injected share has the common size and a positive weight. */
  ghost predicate GoodAction(a: Action, D: nat) {
    a.Train? ==> GoodShare(a.input, D)
  }

  ghost predicate GoodActions(acts: seq<Action>, D: nat) {
    forall i :: 0 <= i < |acts| ==> GoodAction(acts[i], D)
  }

  ghost predicate Wf(net: Net, D: nat) {
    && (forall i :: 0 <= i < |net.nodes| && net.nodes[i].Some? ==> GoodShare(net.nodes[i].value, D))
    && (forall k :: 0 <= k < |net.flight| ==> GoodShare(net.flight[k].share, D) && net.flight[k].dst < |net.nodes|)
    && (forall j :: 0 <= j < |net.inputs| ==> GoodShare(net.inputs[j], D))
  }

  lemma HalveDouble(s: Share)
    ensures Double(Halve(s)) == s
  {
    assert Scale(Scale(s.S, 0.5), 2.0) == s.S;
  }

  lemma AbsorbFirst(b: Share)
    ensures Absorb(None, b) == Some(b)
  {
    assert Add(Zero(|b.S|), b.S) == b.S;
  }

  /** A failed send leaves the whole network as it was. */
  lemma FailedSendIsStutter(net: Net, i: nat)
    ensures Step(net, SendFails(i)) == net
  {
    if i < |net.nodes| && net.nodes[i].Some? {
      HalveDouble(net.nodes[i].value);
    }
  }

  lemma StepWf(net: Net, a: Action, D: nat)
    requires Wf(net, D) && GoodAction(a, D)
    ensures Wf(Step(net, a), D)
  {
    match a
    case Train(i, x) => AbsorbFirst(x);
    case Send(i, dst) =>
    case SendFails(i) => FailedSendIsStutter(net, i);
    case Deliver(k) =>
      if k < |net.flight| { AbsorbFirst(net.flight[k].share); }
  }

  lemma {:induction false} ExecWf(net: Net, acts: seq<Action>, D: nat)
    requires Wf(net, D) && GoodActions(acts, D)
    ensures Wf(Exec(net, acts), D)
  {
    if |acts| > 0 {
      ExecWf(net, acts[..|acts| - 1], D);
      StepWf(Exec(net, acts[..|acts| - 1]), acts[|acts| - 1], D);
    }
  }

  // ----- network-wide totals of a measure -----

  function Coord(d: nat): Share -> real {
    (s: Share) => if d < |s.S| then s.S[d] else 0.0
  }

  function Weight(): Share -> real {
    (s: Share) => s.w
  }

  function OnNode(f: Share -> real): Option<Share> -> real {
    (o: Option<Share>) => if o.Some? then f(o.value) else 0.0
  }

  function OnPacket(f: Share -> real): Packet -> real {
    (p: Packet) => f(p.share)
  }

  /** The measure f summed over the nodes and the messages in flight. */
  function Energy(net: Net, f: Share -> real): real {
    Total(net.nodes, OnNode(f)) + Total(net.flight, OnPacket(f))
  }

  /** What absorbing b changes in the receiver's measure, over and above f(b). */
  function Excess(cur: Option<Share>, b: Share, f: Share -> real): real {
    OnNode(f)(Absorb(cur, b)) - OnNode(f)(cur) - f(b)
  }

  /** What one step adds to the measure of the whole network. */
  function Gain(net: Net, a: Action, f: Share -> real): real {
    match a
    case Train(i, x) => if i < |net.nodes| then Excess(net.nodes[i], x, f) + f(x) else 0.0
    case Deliver(k) =>
      if k < |net.flight| && net.flight[k].dst < |net.nodes|
      then Excess(net.nodes[net.flight[k].dst], net.flight[k].share, f)
      else 0.0
    case _ => 0.0
  }

  ghost predicate SplitsEvenly(f: Share -> real, D: nat) {
    forall s: Share {:trigger Halve(s)} :: GoodShare(s, D) ==> 2.0 * f(Halve(s)) == f(s)
  }

  lemma StepEnergy(net: Net, a: Action, f: Share -> real, D: nat)
    requires Wf(net, D) && SplitsEvenly(f, D)
    ensures Energy(Step(net, a), f) == Energy(net, f) + Gain(net, a, f)
  {
    match a
    case Train(i, x) =>
      if i < |net.nodes| { TotalUpdate(net.nodes, i, Absorb(net.nodes[i], x), OnNode(f)); }
    case Send(i, dst) =>
      if i < |net.nodes| && net.nodes[i].Some? && dst < |net.nodes| {
        var half := Halve(net.nodes[i].value);
        TotalUpdate(net.nodes, i, Some(half), OnNode(f));
        TotalPush(net.flight, Packet(dst, half), OnPacket(f));
      }
    case SendFails(i) => FailedSendIsStutter(net, i);
    case Deliver(k) =>
      if k < |net.flight| {
        var p := net.flight[k];
        TotalUpdate(net.nodes, p.dst, Absorb(net.nodes[p.dst], p.share), OnNode(f));
        TotalWithout(net.flight, k, OnPacket(f));
      }
  }

  lemma {:induction false} EmptyEnergy(n: nat, f: Share -> real)
    ensures Energy(Init(n), f) == 0.0
  {
    if n > 0 {
      EmptyEnergy(n - 1, f);
      assert Init(n).nodes[..n - 1] == Init(n - 1).nodes;
    }
  }

  // ----- conservation of mass -----

  lemma ExcessOfMass(cur: Option<Share>, b: Share, d: nat, D: nat)
    requires GoodShare(b, D) && (cur.Some? ==> GoodShare(cur.value, D)) && d < D
    ensures Excess(cur, b, Coord(d)) == 0.0
    ensures Excess(cur, b, Weight()) == 0.0
  {
    AbsorbFirst(b);
  }

  /** One step adds to the mass of the network exactly what it adds to the mass of the inputs. */
  lemma StepConserves(net: Net, a: Action, f: Share -> real, d: nat, D: nat)
    requires Wf(net, D) && GoodAction(a, D) && d < D && (f == Coord(d) || f == Weight())
    ensures Energy(Step(net, a), f) - Energy(net, f) == Total(Step(net, a).inputs, f) - Total(net.inputs, f)
  {
    StepEnergy(net, a, f, D);
    match a
    case Train(i, x) =>
      if i < |net.nodes| {
        ExcessOfMass(net.nodes[i], x, d, D);
        TotalPush(net.inputs, x, f);
      }
    case Deliver(k) =>
      if k < |net.flight| {
        ExcessOfMass(net.nodes[net.flight[k].dst], net.flight[k].share, d, D);
      }
    case _ =>
  }

  /** Whatever is delivered, delayed or rolled back, no mass is created or lost. */
  lemma {:induction false} Conservation(n: nat, acts: seq<Action>, d: nat, D: nat)
    requires GoodActions(acts, D) && d < D
    ensures var net := Exec(Init(n), acts);
      && Energy(net, Coord(d)) == Total(net.inputs, Coord(d))
      && Energy(net, Weight()) == Total(net.inputs, Weight())
  {
    if |acts| == 0 {
      EmptyEnergy(n, Coord(d));
      EmptyEnergy(n, Weight());
    } else {
      var before, a := Exec(Init(n), acts[..|acts| - 1]), acts[|acts| - 1];
      Conservation(n, acts[..|acts| - 1], d, D);
      ExecWf(Init(n), acts[..|acts| - 1], D);
      StepConserves(before, a, Coord(d), d, D);
      StepConserves(before, a, Weight(), d, D);
    }
  }

  /** A message sent to oneself and delivered at once leaves the whole network as it was. */
  lemma SelfLoopIsStutter(net: Net, i: nat, D: nat)
    requires Wf(net, D)
    ensures i < |net.nodes| && net.nodes[i].Some? ==> Step(Step(net, Send(i, i)), Deliver(|net.flight|)) == net
  {
    if i < |net.nodes| && net.nodes[i].Some? {
      var s, sent := net.nodes[i].value, Step(net, Send(i, i));
      assert Merge(Halve(s), Halve(s)) == s by {
        assert Add(Scale(s.S, 0.5), Scale(s.S, 0.5)) == s.S;
      }
      assert Without(sent.flight, |net.flight|) == net.flight;
      assert Step(sent, Deliver(|net.flight|)).nodes == net.nodes;
    }
  }

  // ----- the Lyapunov function -----

  /** w * (S/w - c)^2 at coordinate d. */
  function Spread(c: real, d: nat): Share -> real {
    (s: Share) => if d < |s.S| && s.w != 0.0 then s.w * Square(s.S[d] / s.w - c) else 0.0
  }

  /** How much disagreement disappears when a and b are merged. */
  function Jensen(a: Share, b: Share, d: nat): (r: real)
    requires a.w > 0.0 && b.w > 0.0 && d < |a.S| == |b.S|
    ensures r >= 0.0
  {
    var k := a.w * b.w / (a.w + b.w);
    var gap := Square(a.S[d] / a.w - b.S[d] / b.w);
    assert k >= 0.0;
    k * gap
  }

  lemma QuadraticIdentity(p: real, q: real, u: real, v: real)
    ensures (u * p + v * q) * (u * p + v * q) == (u + v) * (u * (p * p) + v * (q * q)) - u * v * ((p - q) * (p - q))
  {
  }

  lemma CancelFactor(t: real, l: real, r: real)
    requires t > 0.0 && t * l == t * r
    ensures l == r
  {
  }

  /** The variance identity behind Jensen's gap, for deviations p and q carried by weights u and v. */
  lemma VarianceIdentity(p: real, q: real, m: real, u: real, v: real)
    requires u > 0.0 && v > 0.0 && (u + v) * m == u * p + v * q
    ensures (u + v) * Square(m) == u * Square(p) + v * Square(q) - u * v / (u + v) * Square(p - q)
  {
    var t := u + v;
    var k := u * v / t;
    assert t * k == u * v;
    var l := t * Square(m);
    var r := u * Square(p) + v * Square(q) - k * Square(p - q);
    assert t * l == (t * m) * (t * m);
    QuadraticIdentity(p, q, u, v);
    assert t * (k * Square(p - q)) == (t * k) * Square(p - q);
    assert t * l == t * r;
    CancelFactor(t, l, r);
  }

  lemma MergeLosesSpread(a: Share, b: Share, c: real, d: nat, D: nat)
    requires GoodShare(a, D) && GoodShare(b, D) && d < D
    ensures Spread(c, d)(Merge(a, b)) == Spread(c, d)(a) + Spread(c, d)(b) - Jensen(a, b, d)
  {
    var u, v := a.w, b.w;
    var x, y := a.S[d] / u, b.S[d] / v;
    var m := (a.S[d] + b.S[d]) / (u + v);
    assert (u + v) * (m - c) == u * (x - c) + v * (y - c) by {
      assert u * x == a.S[d] && v * y == b.S[d] && (u + v) * m == a.S[d] + b.S[d];
    }
    VarianceIdentity(x - c, y - c, m - c, u, v);
    assert Merge(a, b).S[d] == a.S[d] + b.S[d];
  }

  lemma HalfRatio(x: real, w: real)
    requires w > 0.0
    ensures (x * 0.5) / (w / 2.0) == x / w
  {
    var q := x / w;
    assert q * w == x;
    assert q * (w / 2.0) == x * 0.5;
  }

  lemma SpreadSplits(c: real, d: nat, D: nat)
    requires d < D
    ensures SplitsEvenly(Spread(c, d), D)
  {
    forall s: Share | GoodShare(s, D)
      ensures 2.0 * Spread(c, d)(Halve(s)) == Spread(c, d)(s)
    {
      HalfRatio(s.S[d], s.w);
      var sq := Square(s.S[d] / s.w - c);
      assert Spread(c, d)(Halve(s)) == s.w / 2.0 * sq;
    }
  }

  /**
   One step: splits and rollbacks keep the Lyapunov function, a first arrival moves it unchanged, and a
   delivery to an initialised node lowers it by exactly Jensen's gap.
   */
  lemma LyapunovStep(net: Net, a: Action, c: real, d: nat, D: nat)
    requires Wf(net, D) && GoodAction(a, D) && d < D
    ensures a.Send? || a.SendFails? ==> Energy(Step(net, a), Spread(c, d)) == Energy(net, Spread(c, d))
    ensures a.Deliver? && a.k < |net.flight| ==>
      var p := net.flight[a.k];
      Energy(Step(net, a), Spread(c, d)) == Energy(net, Spread(c, d))
        - (if net.nodes[p.dst].Some? then Jensen(net.nodes[p.dst].value, p.share, d) else 0.0)
    ensures a.Train? ==> Energy(Step(net, a), Spread(c, d)) <= Energy(net, Spread(c, d)) + Spread(c, d)(a.input)
  {
    SpreadSplits(c, d, D);
    StepEnergy(net, a, Spread(c, d), D);
    match a
    case Train(i, x) =>
      AbsorbFirst(x);
      if i < |net.nodes| && net.nodes[i].Some? {
        MergeLosesSpread(net.nodes[i].value, x, c, d, D);
      }
    case Deliver(k) =>
      if k < |net.flight| {
        var p := net.flight[k];
        AbsorbFirst(p.share);
        if net.nodes[p.dst].Some? { MergeLosesSpread(net.nodes[p.dst].value, p.share, c, d, D); }
      }
    case _ =>
  }

  /** Over every run the disagreement around any reference c never exceeds that of the inputs. */
  lemma {:induction false} Lyapunov(n: nat, acts: seq<Action>, c: real, d: nat, D: nat)
    requires GoodActions(acts, D) && d < D
    ensures var net := Exec(Init(n), acts);
      Energy(net, Spread(c, d)) <= Total(net.inputs, Spread(c, d))
  {
    if |acts| == 0 {
      EmptyEnergy(n, Spread(c, d));
    } else {
      var before, a := Exec(Init(n), acts[..|acts| - 1]), acts[|acts| - 1];
      Lyapunov(n, acts[..|acts| - 1], c, d, D);
      ExecWf(Init(n), acts[..|acts| - 1], D);
      LyapunovStep(before, a, c, d, D);
      if a.Train? { TotalPush(before.inputs, a.input, Spread(c, d)); }
    }
  }
}
