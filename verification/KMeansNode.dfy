/**
 The K-means node on the heap: its statistics are buffers changed in place, and a codebook message is a
 list of pointers into the sender's buffers.  Every way of delivering such a message hands over the
 values the sender had when it sent it.
 */
module KMeansNodes {
  import opened Vectors
  import opened Buffers
  import opened Lloyd
  import opened KMeans
  import opened KMeansNetwork

  /** One data element of a message: a pointer to a buffer. A scalar field is a buffer of length one. */
  datatype Elt = Rows(rows: array<Vec>) | Floats(floats: array<real>) {
    function Buffer(): object {
      match this
      case Rows(a) => a
      case Floats(a) => a
    }

    /** The same kind of buffer with the same values. */
    ghost predicate Like(e: Elt)
      reads Buffer(), e.Buffer()
    {
      match (this, e)
      case (Rows(a), Rows(b)) => a[..] == b[..]
      case (Floats(a), Floats(b)) => a[..] == b[..]
      case _ => false
    }

    method Duplicate() returns (e: Elt)
      ensures fresh(e.Buffer()) && Like(e)
    {
      match this
      case Rows(a) =>
        var b := new Vec[a.Length](k requires 0 <= k < a.Length reads a => a[k]);
        assert a[..] == b[..];
        e := Rows(b);
      case Floats(a) =>
        var b := new real[a.Length](k requires 0 <= k < a.Length reads a => a[k]);
        assert a[..] == b[..];
        e := Floats(b);
    }
  }

  class Message {
    const elts: seq<Elt>
    var i: nat

    constructor (elts: seq<Elt>)
      ensures this.elts == elts && i == 0
    {
      this.elts := elts;
      i := 0;
    }

    method Begin()
      modifies this
      ensures i == 0
    {
      i := 0;
    }

    /** The element under the cursor; None stands for the overflow exception. */
    method GetNext() returns (e: Option<Elt>)
      modifies this
      ensures old(i) < |elts| ==> e == Some(elts[old(i)]) && i == old(i) + 1
      ensures old(i) >= |elts| ==> e == None && i == old(i)
    {
      if i >= |elts| { return None; }
      e := Some(elts[i]);
      i := i + 1;
    }

    /** Four elements, in the order S, w, s_MSE, w0. */
    predicate FourBuffers() {
      |elts| == 4 && elts[0].Rows? && elts[1].Floats? && elts[2].Floats? && elts[3].Floats?
    }

    ghost function Buffers(): set<object> {
      if FourBuffers()
      then {elts[0].rows as object, elts[1].floats as object, elts[2].floats as object, elts[3].floats as object}
      else {}
    }

    /** The message is a codebook with the dimensions of cfg. */
    ghost predicate IsCodebook(cfg: Config)
      reads Buffers()
    {
      && FourBuffers()
      && elts[1].floats != elts[2].floats && elts[1].floats != elts[3].floats && elts[2].floats != elts[3].floats
      && elts[2].floats.Length == 1 && elts[3].floats.Length == 1
      && Shape(elts[0].rows[..], cfg.K, cfg.D) && elts[1].floats.Length == cfg.K
    }

    /** The values the pointers lead to. */
    ghost function Payload(cfg: Config): (l: Load)
      requires IsCodebook(cfg)
      reads Buffers()
      ensures LoadShape(cfg, l)
    {
      Load(elts[0].rows[..], elts[1].floats[..], elts[2].floats[0], elts[3].floats[0])
    }

    /** Message::copy: every buffer is duplicated into one of its own, and the cursor starts at the front. */
    method Copy() returns (m: Message)
      ensures fresh(m) && m.i == 0 && |m.elts| == |elts|
      ensures forall k :: 0 <= k < |elts| ==> fresh(m.elts[k].Buffer()) && elts[k].Like(m.elts[k])
      ensures forall k, l :: 0 <= k < l < |elts| ==> m.elts[k].Buffer() != m.elts[l].Buffer()
    {
      var copies: seq<Elt> := [];
      for k := 0 to |elts|
        invariant |copies| == k
        invariant forall j :: 0 <= j < k ==> fresh(copies[j].Buffer()) && elts[j].Like(copies[j])
        invariant forall j, l :: 0 <= j < l < k ==> copies[j].Buffer() != copies[l].Buffer()
      {
        var e := elts[k].Duplicate();
        copies := copies + [e];
      }
      m := new Message(copies);
    }

    /** The copy of a codebook is a codebook with the same values. */
    method CopyCodebook(cfg: Config) returns (m: Message)
      requires IsCodebook(cfg)
      ensures fresh(m) && fresh(m.Buffers()) && m.IsCodebook(cfg) && m.Payload(cfg) == Payload(cfg)
    {
      m := Copy();
      forall k | 0 <= k < 4 ensures elts[k].Like(m.elts[k]) && fresh(m.elts[k].Buffer()) {}
      assert m.FourBuffers();
      assert m.elts[1].Buffer() != m.elts[2].Buffer() && m.elts[1].Buffer() != m.elts[3].Buffer();
      assert m.elts[2].Buffer() != m.elts[3].Buffer();
      assert m.elts[2].floats[..][0] == elts[2].floats[..][0] && m.elts[3].floats[..][0] == elts[3].floats[..][0];
    }
  }

  /**
   The transport: refuse, throw because the index is beyond the neighbours, copy into a thread's queue, write
   to a socket, or call the receiver at once.
   */
  datatype Route = Refuse | Throw | Queue | Wire | Direct(receiver: NodeKMeans)

  datatype Outgoing = Nothing | InQueue(msg: Message) | OnWire(load: Load)

  class NodeKMeans {
    const cfg: Config
    const X: Mat
    const S: array<Vec>
    const w: array<real>
    const Sn: array<Vec>
    const wn: array<real>
    const codebook: array<Option<Vec>>
    const sMSE: array<real>
    const w0: array<real>
    var sMSEn: real
    var MSE: real
    var tepsilon: nat
    var finished: bool
    var m: int
    var nbE: nat
    var nbM: nat

    ghost function Footprint(): set<object> {
      {this as object, S as object, w as object, Sn as object, wn as object,
       codebook as object, sMSE as object, w0 as object}
    }

    /** The buffers a codebook message points into. */
    ghost function Shared(): set<object> {
      {S as object, w as object, sMSE as object, w0 as object}
    }

    ghost predicate Separate() {
      S != Sn && w != wn && w != sMSE && w != w0 && wn != sMSE && wn != w0 && sMSE != w0
    }

    ghost predicate Valid()
      reads Footprint()
    {
      && Separate() && codebook.Length == cfg.K && sMSE.Length == 1 && w0.Length == 1
      && Formed(cfg, View())
    }

    ghost function View(): KNode
      requires sMSE.Length == 1 && w0.Length == 1
      reads Footprint()
    {
      KNode(X, S[..], w[..], Sn[..], wn[..], sMSE[0], sMSEn, w0[0], codebook[..], MSE, tepsilon, finished, m, nbE, nbM)
    }

    /** init and init_codebook on training data X; a is the random assignment of every point. */
    constructor (cfg: Config, X: Mat, a: seq<nat>)
      requires cfg.K > 0 && |X| > 0 && Shape(X, |X|, cfg.D) && Assignment(a, |X|, cfg.K)
      ensures Valid() && this.cfg == cfg && View() == InitNode(cfg, X, a)
      ensures fresh(S) && fresh(w) && fresh(Sn) && fresh(wn) && fresh(codebook) && fresh(sMSE) && fresh(w0)
    {
      this.cfg, this.X := cfg, X;
      var rows := NewRows(cfg.K, cfg.D);
      var ownRows := NewRows(cfg.K, cfg.D);
      var counts := NewFloats(cfg.K, 0.0);
      var ownCounts := NewFloats(cfg.K, 0.0);
      var error := NewFloats(1, 0.0);
      var weight := NewFloats(1, |X| as real);
      S, w, Sn, wn, sMSE, w0 := rows, counts, ownRows, ownCounts, error, weight;
      codebook := new Option<Vec>[cfg.K](_ => None);
      sMSEn, MSE, tepsilon, finished, m, nbE, nbM := 0.0, FLT_MAX, 0, false, 0, 0, 0;
      new;
      InitCodebook(a);
    }

    /** Fields as init allocates them, before any point is tallied. */
    ghost predicate Blank()
      reads Footprint()
    {
      && Separate() && S.Length == Sn.Length == w.Length == wn.Length == codebook.Length == cfg.K
      && sMSE.Length == w0.Length == 1 && sMSE[0] == 0.0 && w0[0] == |X| as real
      && (forall k :: 0 <= k < cfg.K ==> S[k] == Sn[k] == Zero(cfg.D) && w[k] == wn[k] == 0.0 && codebook[k] == None)
      && sMSEn == 0.0 && MSE == FLT_MAX && tepsilon == 0 && !finished && m == 0 && nbE == 0 && nbM == 0
    }

    /** init_codebook: tally the random assignment a, then add the tally to the cleared statistics. */
    method InitCodebook(a: seq<nat>)
      requires Blank() && cfg.K > 0 && |X| > 0 && Shape(X, |X|, cfg.D) && Assignment(a, |X|, cfg.K)
      modifies S, w, Sn, wn
      ensures Valid() && View() == InitNode(cfg, X, a)
    {
      assert S[..] == Sn[..] == ZeroM(cfg.K, cfg.D) && w[..] == wn[..] == Zero(cfg.K);
      assert codebook[..] == seq(cfg.K, _ => None);
      for i := 0 to |X|
        invariant Shape(Sn[..], cfg.K, cfg.D) && Sn[..] == Sums(X[..i], a[..i], cfg.K, cfg.D)
        invariant wn[..] == Counts(a[..i], cfg.K)
        invariant S[..] == ZeroM(cfg.K, cfg.D) && w[..] == Zero(cfg.K)
      {
        TallyOne(X, a, cfg.K, cfg.D, i);
        Tally(a[i], X[i]);
      }
      assert X[..|X|] == X && a[..|X|] == a;
      AddRows(S, Sn, cfg.D);
      AddInto(w, wn);
    }

    /** compute_codebook and check_termination */
    method ComputeCodebook()
      requires Valid()
      modifies codebook, `MSE, `tepsilon, `finished
      ensures Valid() && View() == KMeans.ComputeCodebook(cfg, old(View()))
    {
      var mseOld := MSE;
      for k := 0 to cfg.K
        invariant codebook[..k] == Centroids(S[..], w[..])[..k]
        modifies codebook
      {
        codebook[k] := if w[k] == 0.0 then None else Some(Scale(S[k], 1.0 / w[k]));
        assert codebook[..k + 1] == codebook[..k] + [codebook[k]];
      }
      assert codebook[..] == codebook[..cfg.K] == Centroids(S[..], w[..]);
      MSE := sMSE[0] / w0[0];
      if cfg.epsilon > 0.0 {
        if mseOld - MSE < cfg.epsilon { tepsilon := tepsilon + 1; } else { tepsilon := 0; }
        if tepsilon >= PATIENCE { finished := true; }
      }
    }

    /** The nearest centroid of one point: the inner loop of the E-step. */
    method FindNearest(x: Vec) returns (b: Best)
      requires codebook.Length == cfg.K && Fits(codebook[..], cfg.K, cfg.D) && |x| == cfg.D
      ensures b == Nearest(x, codebook[..], cfg.K)
    {
      b := Best(0, None);
      for k := 0 to cfg.K
        invariant b == Nearest(x, codebook[..], k)
      {
        if codebook[k].Some? {
          var e := SqDist(x, codebook[k].value);
          if b.err.None? || e <= b.err.value { b := Best(k, Some(e)); }
        }
      }
    }

    /** Count point x to cluster k. */
    method Tally(k: nat, x: Vec)
      requires Sn.Length == wn.Length == cfg.K && k < cfg.K && Shape(Sn[..], cfg.K, cfg.D) && |x| == cfg.D
      modifies Sn, wn
      ensures Sn[..] == old(Sn[..])[k := Add(old(Sn[..])[k], x)] && Shape(Sn[..], cfg.K, cfg.D)
      ensures wn[..] == old(wn[..])[k := old(wn[..])[k] + 1.0]
    {
      Sn[k] := Add(Sn[k], x);
      wn[k] := wn[k] + 1.0;
    }

    /** The assignment loop of the E-step, from cleared own statistics. */
    method AssignPoints()
      requires Separate() && cfg.K > 0 && Shape(X, |X|, cfg.D) && Sn.Length == wn.Length == codebook.Length == cfg.K
      requires Fits(codebook[..], cfg.K, cfg.D)
      requires Sn[..] == ZeroM(cfg.K, cfg.D) && wn[..] == Zero(cfg.K) && sMSEn == 0.0
      modifies Sn, wn, `sMSEn
      ensures var a := Assigned(X, codebook[..], cfg.D);
        && Sn[..] == Sums(X, a, cfg.K, cfg.D) && wn[..] == Counts(a, cfg.K)
        && sMSEn == Errors(X, codebook[..], cfg.D)
    {
      ghost var cb := codebook[..];
      ghost var a := Assigned(X, cb, cfg.D);
      for i := 0 to |X|
        invariant codebook[..] == cb
        invariant Shape(Sn[..], cfg.K, cfg.D) && Sn[..] == Sums(X[..i], a[..i], cfg.K, cfg.D)
        invariant wn[..] == Counts(a[..i], cfg.K)
        invariant sMSEn == Errors(X[..i], cb, cfg.D)
      {
        AssignPoint(i, a);
      }
      assert X[..|X|] == X && a[..|X|] == a;
    }

    /** One more point: its nearest centroid, its tally and its error. */
    method AssignPoint(i: nat, ghost a: seq<nat>)
      requires Separate() && cfg.K > 0 && Shape(X, |X|, cfg.D) && Sn.Length == wn.Length == codebook.Length == cfg.K
      requires Fits(codebook[..], cfg.K, cfg.D) && i < |X| && a == Assigned(X, codebook[..], cfg.D)
      requires Sn[..] == Sums(X[..i], a[..i], cfg.K, cfg.D) && wn[..] == Counts(a[..i], cfg.K)
      requires sMSEn == Errors(X[..i], codebook[..], cfg.D)
      modifies Sn, wn, `sMSEn
      ensures Sn[..] == Sums(X[..i + 1], a[..i + 1], cfg.K, cfg.D) && wn[..] == Counts(a[..i + 1], cfg.K)
      ensures sMSEn == Errors(X[..i + 1], codebook[..], cfg.D)
    {
      TallyOne(X, a, cfg.K, cfg.D, i);
      ErrorOne(X, codebook[..], cfg.D, i);
      var b := FindNearest(X[i]);
      Tally(b.argmin, X[i]);
      sMSEn := sMSEn + ErrorOf(b);
    }

    /** Take the node's own contribution out of the statistics and clear it. */
    method RemoveOwn()
      requires Valid()
      modifies S, w, Sn, wn, sMSE, `sMSEn
      ensures Valid()
      ensures View() == old(View()).(
        S := SubM(old(S[..]), old(Sn[..]), cfg.D), w := Sub(old(w[..]), old(wn[..])), sMSE := old(sMSE[0] - sMSEn),
        Sn := ZeroM(cfg.K, cfg.D), wn := Zero(cfg.K), sMSEn := 0.0)
    {
      sMSE[0] := sMSE[0] - sMSEn;
      SubRows(S, Sn, cfg.D);
      SubFrom(w, wn);
      sMSEn := 0.0;
      ClearRows(Sn, cfg.D);
      Clear(wn);
    }

    /** Add the node's own contribution to the statistics. */
    method AddOwn()
      requires Valid()
      modifies S, w, sMSE
      ensures Valid()
      ensures View() == old(View()).(
        S := AddM(old(S[..]), Sn[..], cfg.D), w := Add(old(w[..]), wn[..]), sMSE := old(sMSE[0]) + sMSEn)
    {
      sMSE[0] := sMSE[0] + sMSEn;
      AddRows(S, Sn, cfg.D);
      AddInto(w, wn);
    }

    method EStep()
      requires Valid()
      modifies Footprint()
      ensures Valid() && View() == KMeans.EStep(cfg, old(View()))
    {
      ComputeCodebook();
      RemoveOwn();
      AssignPoints();
      AddOwn();
    }

    /** The message's pointers are the node's own buffers, or none of the node's buffers. */
    ghost predicate Accepts(msg: Message) {
      && msg.FourBuffers()
      && (msg.elts == [Rows(S), Floats(w), Floats(sMSE), Floats(w0)] || msg.Buffers() !! Footprint())
    }

    /** A codebook message arrives. */
    method OnCodebook(msg: Message)
      requires Valid() && msg.IsCodebook(cfg) && Accepts(msg) && msg.Payload(cfg).w0 > 0.0
      modifies msg, Shared()
      ensures Valid()
      ensures View() == Hold(old(View()), MergeLoad(cfg, Held(old(View())), old(msg.Payload(cfg))))
      ensures msg.Buffers() !! Footprint() ==> msg.IsCodebook(cfg) && msg.Payload(cfg) == old(msg.Payload(cfg))
    {
      msg.Begin();
      var sIn := msg.GetNext();
      var wIn := msg.GetNext();
      var eIn := msg.GetNext();
      var w0In := msg.GetNext();
      Absorb(sIn.value.rows, wIn.value.floats, eIn.value.floats[0], w0In.value.floats[0]);
    }

    /** Add a load whose buffers are the node's own or none of the node's. */
    method Absorb(s: array<Vec>, v: array<real>, e: real, f: real)
      requires Valid() && f > 0.0
      requires s.Length == v.Length == cfg.K && Shape(s[..], cfg.K, cfg.D)
      requires (s == S || s as object !in Footprint()) && (v == w || v as object !in Footprint())
      modifies Shared()
      ensures Valid()
      ensures View() == Hold(old(View()), MergeLoad(cfg, Held(old(View())), Load(old(s[..]), old(v[..]), e, f)))
      ensures s != S ==> s[..] == old(s[..])
      ensures v != w ==> v[..] == old(v[..])
    {
      sMSE[0] := sMSE[0] + e;
      AddRows(S, s, cfg.D);
      AddInto(w, v);
      w0[0] := w0[0] + f;
    }

    /** Halve the statistics in place. */
    method HalveInPlace()
      requires Valid()
      modifies Shared()
      ensures Valid() && View() == Hold(old(View()), HalveLoad(Held(old(View()))))
    {
      ScaleRows(S, 0.5);
      ScaleBy(w, 0.5);
      sMSE[0] := sMSE[0] / 2.0;
      w0[0] := w0[0] / 2.0;
    }

    method DoubleInPlace()
      requires Valid()
      modifies Shared()
      ensures Valid() && View() == Hold(old(View()), DoubleLoad(Held(old(View()))))
    {
      ScaleRows(S, 2.0);
      ScaleBy(w, 2.0);
      sMSE[0] := sMSE[0] * 2.0;
      w0[0] := w0[0] * 2.0;
    }

    ghost predicate Reaches(route: Route)
      reads Footprint(), if route.Direct? then route.receiver.Footprint() else {}
    {
      route.Direct? && route.receiver != this ==>
        route.receiver.Valid() && route.receiver.cfg == cfg && route.receiver.Footprint() !! Footprint()
    }

    /** A message to oneself, delivered at once, leaves the node as a refused one does. */
    ghost function Effect(route: Route): Sending {
      if route.Refuse? || (route.Direct? && route.receiver == this) then Refused
      else if route.Throw? then Overflow else Sent(0)
    }

    /** What leaves a sender by this route is the load, in buffers of its own when it is queued. */
    twostate predicate Leaves(route: Route, new out: Outgoing, load: Load)
      reads if out.InQueue? then {out.msg} + out.msg.Buffers() else {}
    {
      && (route.Refuse? || route.Throw? || route.Direct? ==> out == Nothing)
      && (route.Wire? ==> out == OnWire(load))
      && (route.Queue? ==>
            && out.InQueue? && fresh(out.msg) && fresh(out.msg.Buffers())
            && out.msg.IsCodebook(cfg) && out.msg.Payload(cfg) == load)
    }

    /**
     An M-step.  The message is built from pointers into the halved buffers; whatever the route, what is
     received, queued or written is the halved load, and a refused message or one sent to oneself leaves
     the node as it was.  threw tells that an exception leaves the M-step, with the statistics halved.
     */
    method MStep(nbOuts: int, route: Route) returns (out: Outgoing, threw: bool)
      requires Valid() && Reaches(route)
      modifies Shared(), if route.Direct? then route.receiver.Shared() else {}
      ensures Valid()
      ensures var goes := nbOuts != 0 && old(w0[0]) >= TINY;
        var half := HalveLoad(Held(old(View())));
        && threw == (goes && route.Throw?)
        && View() == (if goes && !Effect(route).Refused? then Hold(old(View()), half) else old(View()))
        && (if goes then Leaves(route, out, half) else out == Nothing)
        && (route.Direct? && route.receiver != this ==>
              var r := route.receiver;
              && r.Valid()
              && r.View() == (
                   if goes then Hold(old(r.View()), MergeLoad(cfg, Held(old(r.View())), half)) else old(r.View())))
    {
      if nbOuts == 0 || w0[0] < TINY { return Nothing, false; }
      HalvesBack(cfg, Held(View()));
      HalveInPlace();
      out, threw := Deliver(route);
    }

    /** Build the message from pointers into the buffers and hand it to the transport. */
    method Deliver(route: Route) returns (out: Outgoing, threw: bool)
      requires Valid() && Reaches(route)
      modifies Shared(), if route.Direct? then route.receiver.Shared() else {}
      ensures Valid()
      ensures var held := Held(old(View()));
        && View() == (
             if route.Refuse? then Hold(old(View()), DoubleLoad(held))
             else if route.Direct? && route.receiver == this then Hold(old(View()), MergeLoad(cfg, held, held))
             else old(View()))
        && threw == route.Throw? && Leaves(route, out, held)
        && (route.Direct? && route.receiver != this ==>
              var r := route.receiver;
              r.Valid() && r.View() == Hold(old(r.View()), MergeLoad(cfg, Held(old(r.View())), held)))
    {
      var msg := Pack();
      out, threw := Nothing, false;
      match route
      case Refuse =>
        DoubleInPlace();
      case Throw =>
        threw := true;
      case Queue =>
        var copy := msg.CopyCodebook(cfg);
        out := InQueue(copy);
      case Wire =>
        out := OnWire(Load(S[..], w[..], sMSE[0], w0[0]));
      case Direct(r) =>
        r.OnCodebook(msg);
    }

    /** The message as the sender builds it: pointers into its own buffers. */
    method Pack() returns (msg: Message)
      requires Valid()
      ensures fresh(msg) && msg.elts == [Rows(S), Floats(w), Floats(sMSE), Floats(w0)]
      ensures msg.Buffers() == Shared() && msg.IsCodebook(cfg) && msg.Payload(cfg) == Held(View())
    {
      msg := new Message([Rows(S), Floats(w), Floats(sMSE), Floats(w0)]);
      assert msg.elts[0].rows == S && msg.elts[1].floats == w && msg.elts[2].floats == sMSE && msg.elts[3].floats == w0;
    }

    /** One turn of the scheduler: an E-step every M sends, or always when there is nobody to send to. */
    method Process(nbOuts: int, route: Route) returns (out: Outgoing)
      requires Valid() && Reaches(route)
      modifies Footprint(), if route.Direct? then route.receiver.Shared() else {}
      ensures Valid()
      ensures View() == TurnOf(cfg, old(View()), nbOuts, Effect(route))
      ensures if Halves(cfg, old(View()), nbOuts, Sent(0)) then Leaves(route, out, HalveLoad(Held(old(View()))))
        else out == Nothing
      ensures route.Direct? && route.receiver != this ==>
        var r := route.receiver;
        r.Valid() && r.View() == (
          if Halves(cfg, old(View()), nbOuts, Sent(0))
          then Hold(old(r.View()), MergeLoad(cfg, Held(old(r.View())), HalveLoad(Held(old(View())))))
          else old(r.View()))
    {
      out := Nothing;
      if m >= cfg.M || nbOuts == 0 {
        EStep();
        nbE := nbE + 1;
        m := 0;
      } else {
        out := MTurn(nbOuts, route);
      }
    }

    method MTurn(nbOuts: int, route: Route) returns (out: Outgoing)
      requires Valid() && Reaches(route) && m < cfg.M && nbOuts != 0
      modifies Shared(), `m, `nbM, if route.Direct? then route.receiver.Shared() else {}
      ensures Valid()
      ensures View() == TurnOf(cfg, old(View()), nbOuts, Effect(route))
      ensures if old(w0[0]) >= TINY then Leaves(route, out, HalveLoad(Held(old(View())))) else out == Nothing
      ensures route.Direct? && route.receiver != this ==>
        var r := route.receiver;
        r.Valid() && r.View() == (
          if old(w0[0]) >= TINY
          then Hold(old(r.View()), MergeLoad(cfg, Held(old(r.View())), HalveLoad(Held(old(View())))))
          else old(r.View()))
    {
      HalvesBack(cfg, Held(View()));
      var threw;
      out, threw := MStep(nbOuts, route);
      if threw { return; }
      nbM := nbM + 1;
      m := m + 1;
    }
  }

  /** Halving then doubling, or halving then adding the half to itself, gives a load back. */
  lemma HalvesBack(cfg: Config, l: Load)
    requires LoadShape(cfg, l)
    ensures DoubleLoad(HalveLoad(l)) == l
    ensures MergeLoad(cfg, HalveLoad(l), HalveLoad(l)) == l
  {
    var h := HalveLoad(l);
    forall k | 0 <= k < cfg.K ensures ScaleM(h.S, 2.0)[k] == l.S[k] && AddM(h.S, h.S, cfg.D)[k] == l.S[k] {
      assert Scale(Scale(l.S[k], 0.5), 2.0) == l.S[k];
      assert Add(Scale(l.S[k], 0.5), Scale(l.S[k], 0.5)) == l.S[k];
    }
    assert ScaleM(h.S, 2.0) == l.S && AddM(h.S, h.S, cfg.D) == l.S;
    assert Scale(h.w, 2.0) == l.w && Add(h.w, h.w) == l.w;
  }

  /** A sender queues a codebook and goes on with an E-step that rewrites the buffers the message was built from. */
  method SendThenWork(sender: NodeKMeans, nbOuts: int) returns (msg: Message)
    requires sender.Valid() && nbOuts != 0 && sender.w0[0] >= TINY
    modifies sender.Footprint()
    ensures sender.Valid()
    ensures fresh(msg) && fresh(msg.Buffers()) && msg.IsCodebook(sender.cfg)
    ensures var half := HalveLoad(Held(old(sender.View())));
      && msg.Payload(sender.cfg) == half
      && sender.View() == KMeans.EStep(sender.cfg, Hold(old(sender.View()), half))
  {
    var out, threw := sender.MStep(nbOuts, Queue);
    msg := out.msg;
    assert msg.Buffers() !! sender.Footprint();
    sender.EStep();
  }

  /**
   A queued message outlives any later work of its sender: the receiver still gets the halves of the time
   of sending.
   */
  method LateDelivery(sender: NodeKMeans, receiver: NodeKMeans, nbOuts: int)
    requires sender.Valid() && receiver.Valid() && sender.cfg == receiver.cfg
    requires sender.Footprint() !! receiver.Footprint()
    requires nbOuts != 0 && sender.w0[0] >= TINY
    modifies sender.Footprint(), receiver.Footprint()
    ensures sender.Valid() && receiver.Valid()
    ensures var half := HalveLoad(Held(old(sender.View())));
      && sender.View() == KMeans.EStep(sender.cfg, Hold(old(sender.View()), half))
      && receiver.View() == Hold(old(receiver.View()), MergeLoad(receiver.cfg, Held(old(receiver.View())), half))
  {
    var msg := SendThenWork(sender, nbOuts);
    DeliverBeside(sender, receiver, msg);
  }

  /** A message with buffers of its own reaches the receiver; the sender is not touched. */
  method DeliverBeside(sender: NodeKMeans, receiver: NodeKMeans, msg: Message)
    requires sender.Valid() && receiver.Valid() && sender.Footprint() !! receiver.Footprint()
    requires msg.IsCodebook(receiver.cfg) && msg.Payload(receiver.cfg).w0 > 0.0
    requires msg.Buffers() !! receiver.Footprint()
    modifies msg, receiver.Shared()
    ensures sender.Valid() && sender.View() == old(sender.View())
    ensures receiver.Valid()
    ensures receiver.View() == Hold(old(receiver.View()),
      MergeLoad(receiver.cfg, Held(old(receiver.View())), old(msg.Payload(receiver.cfg))))
  {
    receiver.OnCodebook(msg);
  }
}
