/** The averaging node: its buffers are halved, doubled and accumulated in place. */
module NodeAveraging {
  import opened Vectors
  import opened Buffers
  import opened PushSum

  /**
   Where a message goes: refused, nowhere because its index is beyond the neighbours, copied to a queue or
   written to a socket, or handed over directly.
   */
  datatype Route = Fails | Throws | Queued | Direct(receiver: NodeAvg)

  class NodeAvg {
    var X: array?<real>   // the training data, later overwritten by the published estimate
    var S: array?<real>
    var w: real

    constructor ()
      ensures Valid() && View() == None && X == null
    {
      X, S, w := null, null, 0.0;
    }

    ghost predicate Valid()
      reads this
    {
      (S == null ==> w == 0.0) && (S != null ==> S != X)
    }

    ghost function View(): Option<Share>
      reads this, S
    {
      if S == null then None else Some(Share(S[..], w))
    }

    ghost function Footprint(): set<object>
      reads this
    {
      (if X == null then {} else {X}) + (if S == null then {} else {S})
    }

    /** init_sum_weight: allocate a zero S with zero weight. */
    method InitSumWeight(n: nat)
      modifies this`S, this`w
      ensures S != null && fresh(S) && S[..] == Zero(n) && w == 0.0
    {
      S := new real[n];
      Clear(S);
      w := 0.0;
    }

    /** Training data x arrives: it becomes X, and is added to S with weight 1 when the sizes agree. */
    method OnTrainingData(x: array<real>)
      requires Valid() && x != S
      modifies this, S
      ensures Valid() && X == x && x[..] == old(x[..])
      ensures View() == Absorb(old(View()), Share(x[..], 1.0))
      ensures S == old(S) || fresh(S)
    {
      X := x;
      if S == null { InitSumWeight(x.Length); }
      if S.Length != x.Length { return; }
      AddInto(S, x);
      w := w + 1.0;
    }

    /** A share arrives in the buffer sin, which is S itself when the node sent the message to itself. */
    method OnGradient(sin: array<real>, win: real)
      requires Valid() && sin != X && (S == null ==> win > 0.0) && (S != null ==> w + win != 0.0)
      modifies this, S, X
      ensures Valid() && (S == old(S) || fresh(S)) && (X == old(X) || fresh(X))
      ensures View() == Absorb(old(View()), Share(old(sin[..]), win))
      ensures sin != S ==> sin[..] == old(sin[..])
      // the estimate is published exactly when every size agrees
      ensures S.Length == sin.Length && (old(X) == null || old(X.Length) == S.Length) ==>
        X != null && X[..] == Scale(S[..], 1.0 / w)
    {
      if S == null { InitSumWeight(sin.Length); }
      if S.Length != sin.Length { return; }
      AddInto(S, sin);
      w := w + win;
      Update();
    }

    /** Publish the estimate S/w in X. */
    method Update()
      requires Valid() && S != null && w != 0.0
      modifies this`X, X
      ensures Valid() && (X == old(X) || fresh(X))
      ensures old(X) == null || old(X.Length) == S.Length ==> X != null && X[..] == Scale(S[..], 1.0 / w)
    {
      if X == null {
        X := new real[S.Length];
      } else if X.Length != S.Length {
        return;
      }
      CopyInto(X, S);
      ScaleBy(X, 1.0 / w);
    }

    /** One turn of the scheduler. */
    method Process(nbOuts: int, route: Route) returns (sent: Option<Share>)
      requires Valid() && S != null && w > 0.0
      requires route.Direct? && route.receiver != this ==>
        var r := route.receiver; r.Valid() && r.Footprint() !! Footprint() && (r.S != null ==> r.w > 0.0)
      modifies this, Footprint(), (if route.Direct? then {route.receiver} + route.receiver.Footprint() else {})
      ensures Valid() && (route.Direct? ==> route.receiver.Valid())
      ensures nbOuts <= 0 ==> sent == None && View() == old(View())
      ensures nbOuts > 0 && route.Fails? ==> sent == None && View() == old(View())
      ensures nbOuts > 0 && route.Throws? ==> sent == None && View() == Some(Halve(old(View()).value))
      ensures nbOuts > 0 && route.Queued? ==>
        View() == Some(Halve(old(View()).value)) && sent == View()
      ensures nbOuts > 0 && route.Direct? && route.receiver == this ==> View() == old(View())
      ensures nbOuts > 0 && route.Direct? && route.receiver != this ==>
        && View() == Some(Halve(old(View()).value))
        && route.receiver.View() == Absorb(old(route.receiver.View()), Halve(old(View()).value))
    {
      sent := None;
      if nbOuts <= 0 { return; }
      w := w / 2.0;
      ScaleBy(S, 0.5);
      ghost var half := View();
      assert half == Some(Halve(old(View()).value));
      match route
      case Fails =>
        w := w * 2.0;
        ScaleBy(S, 2.0);
        HalveDouble(old(View()).value);
      case Throws =>
      case Queued =>
        sent := Some(Share(S[..], w));
      case Direct(r) =>
        r.OnGradient(S, w);
        if r == this {
          ghost var v := old(View()).value;
          assert Add(Scale(v.S, 0.5), Scale(v.S, 0.5)) == v.S;
        }
    }
  }
}
