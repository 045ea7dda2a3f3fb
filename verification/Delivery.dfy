/**
 From a drawn neighbour index to the node that gets the message: routing on the sender's daemon, the stamp, and
 decoding on the replay of the receiving daemon, taken together.
 */
module Delivery {
  import opened Vectors
  import opened Topologies
  import opened ModelReplay
  import opened Replicas
  import opened Routing

  /** Every daemon's replay of one text; spreads tells which daemons have read the Host lines beforehand. */
  datatype World = World(all: seq<Stmt>, spreads: string -> bool)

  function ReplayOf(w: World, host: string): Outcome {
    Replay(host, w.spreads(host), w.all)
  }

  /** A node as its own daemon knows it, and the link over which it was reached. */
  datatype Landing = Landing(link: nat, host: string, group: nat, id: nat)

  /** Where a message from local node s of group g to neighbour i ends. */
  function Land(w: World, d: Daemon, g: nat, s: nat, i: nat): Option<Landing>
    requires g < |d.groups| && Linked(d.groups)
  {
    var t := Route(d, g, s, i);
    if t.None? || t.value.link >= |d.groups[g].outs| then None else
    var dst, a := d.groups[g].outs[t.value.link].dst, t.value.addr;
    var r := ReplayOf(w, a.host);
    if r.Aborted? then None else
    var m := DecodeLocal(r.d, Stamp(dst, a.id));
    if m.Overflow? then None else Some(Landing(t.value.link, a.host, m.group, m.node.id))
  }

  /** The landing is on a node that the replay of its host has instantiated, and the link leads to it. */
  ghost predicate Intended(w: World, d: Daemon, g: nat, s: nat, l: Landing)
    requires g < |d.groups| && Linked(d.groups)
  {
    && l.link < |d.groups[g].outs|
    && (var link, r := d.groups[g].outs[l.link], ReplayOf(w, l.host);
        && l.group == link.dst && r.Ok?
        && l.group < |r.d.groups| && l.id < r.d.groups[l.group].nbLocal
        && (ExcludesSelf(link) ==> l.host != d.me || l.id != s)
        && (link.onlyLocal ==> l.host == d.me))
  }

  /**
   The replays agree and reach the end of the text on the sender's daemon and on every host it knows of, and
   ids fit in 31 bits.
   */
  ghost predicate Agreeing(w: World, d: Daemon, g: nat, s: nat) {
    && ReplayOf(w, d.me) == Ok(d) && Routable(d, g, s)
    && (Timely(w.all) || forall host :: w.spreads(host) == w.spreads(d.me))
    && (forall x :: 0 <= x < |d.groups| ==> forall h :: h in d.groups[x].hosts ==> ReplayOf(w, h.host).Ok?)
    && |d.groups| < HALF && forall x :: 0 <= x < |d.groups| ==> d.groups[x].nbNodes < HALF
  }

  lemma {:induction false} TotalWithin(hs: seq<GroupHost>, host: string)
    ensures TotalOf(hs, host) <= AnyCount(hs)
  {
    if |hs| > 0 { TotalWithin(hs[..|hs| - 1], host); }
  }

  /** A target's host is one the daemon knows of, and its replay has the node. */
  lemma TargetExists(w: World, d: Daemon, g: nat, s: nat, t: Target)
    requires Agreeing(w, d, g, s) && GoodTarget(d, g, s, t)
    ensures var dst, r := d.groups[g].outs[t.link].dst, ReplayOf(w, t.addr.host);
      && r.Ok? && DaemonOk(r.d) && |r.d.groups| == |d.groups| && t.addr.id < r.d.groups[dst].nbLocal && t.addr.id < HALF
  {
    var dst := d.groups[g].outs[t.link].dst;
    assert d.groups[g].outs[t.link] in d.groups[g].outs;
    TotalNeedsEntry(d.groups[dst].hosts, t.addr.host);
    var j :| 0 <= j < |d.groups[dst].hosts| && d.groups[dst].hosts[j].host == t.addr.host;
    assert d.groups[dst].hosts[j] in d.groups[dst].hosts;
    AddressExistsThere(d, w.spreads(d.me), ReplayOf(w, t.addr.host).d, w.spreads(t.addr.host), w.all, dst, t.addr);
    TotalWithin(d.groups[dst].hosts, t.addr.host);
    assert GroupOk(d.me, d.groups[dst]);
  }

  /** A message lands exactly where it was routed to. */
  lemma LandsAsRouted(w: World, d: Daemon, g: nat, s: nat, i: nat)
    requires Agreeing(w, d, g, s)
    ensures var t := Route(d, g, s, i);
      && (t.Some? ==> GoodTarget(d, g, s, t.value))
      && Land(w, d, g, s, i) == if t.None? then None else
           Some(Landing(t.value.link, t.value.addr.host, d.groups[g].outs[t.value.link].dst, t.value.addr.id))
  {
    RouteTotal(d, g, s, i);
    var t := Route(d, g, s, i);
    if t.Some? {
      TargetExists(w, d, g, s, t.value);
      DecodeStamp(ReplayOf(w, t.value.addr.host).d, d.groups[g].outs[t.value.link].dst, t.value.addr.id);
    }
  }

  /** The nodes a link leads to are the nodes instantiated on their hosts. */
  lemma IntendedIsTarget(w: World, d: Daemon, g: nat, s: nat, l: Landing)
    requires Agreeing(w, d, g, s)
    ensures Intended(w, d, g, s, l) <==>
      && GoodTarget(d, g, s, Target(l.link, Address(l.host, l.id)))
      && l.group == d.groups[g].outs[l.link].dst
  {
    if l.link < |d.groups[g].outs| {
      var a := Address(l.host, l.id);
      var dst := d.groups[g].outs[l.link].dst;
      assert d.groups[g].outs[l.link] in d.groups[g].outs;
      if GoodTarget(d, g, s, Target(l.link, a)) { TargetExists(w, d, g, s, Target(l.link, a)); }
      if ReplayOf(w, l.host).Ok? {
        AddressExistsThere(d, w.spreads(d.me), ReplayOf(w, l.host).d, w.spreads(l.host), w.all, dst, a);
      }
    }
  }

  /** Different indices land on different nodes or over different links, and every intended node is landed on. */
  ghost predicate LandsOneToOne(w: World, d: Daemon, g: nat, s: nat)
    requires g < |d.groups| && Linked(d.groups)
  {
    && (forall i: nat, j: nat :: i < j && Land(w, d, g, s, j).Some? ==> Land(w, d, g, s, i) != Land(w, d, g, s, j))
    && (forall l :: Intended(w, d, g, s, l) ==> exists i: nat :: Land(w, d, g, s, i) == Some(l))
  }

  lemma LandsAsBijective(w: World, d: Daemon, g: nat, s: nat)
    requires Agreeing(w, d, g, s)
    ensures LandsOneToOne(w, d, g, s) <==> Bijective(d, g, s)
  {
    forall i: nat
      ensures Land(w, d, g, s, i).Some? <==> Route(d, g, s, i).Some?
    {
      LandsAsRouted(w, d, g, s, i);
    }
    forall i: nat, j: nat
      ensures Land(w, d, g, s, i) == Land(w, d, g, s, j) <==> Route(d, g, s, i) == Route(d, g, s, j)
    {
      LandsAsRouted(w, d, g, s, i);
      LandsAsRouted(w, d, g, s, j);
    }
    if LandsOneToOne(w, d, g, s) {
      forall t | GoodTarget(d, g, s, t) ensures exists i: nat :: Route(d, g, s, i) == Some(t) {
        var l := Landing(t.link, t.addr.host, d.groups[g].outs[t.link].dst, t.addr.id);
        IntendedIsTarget(w, d, g, s, l);
        var i: nat :| Land(w, d, g, s, i) == Some(l);
        LandsAsRouted(w, d, g, s, i);
        assert Route(d, g, s, i) == Some(t);
      }
    }
    if Bijective(d, g, s) {
      forall l | Intended(w, d, g, s, l) ensures exists i: nat :: Land(w, d, g, s, i) == Some(l) {
        IntendedIsTarget(w, d, g, s, l);
        var t := Target(l.link, Address(l.host, l.id));
        var i: nat :| Route(d, g, s, i) == Some(t);
        LandsAsRouted(w, d, g, s, i);
        assert Land(w, d, g, s, i) == Some(l);
      }
    }
  }

  /**
   The whole way, between agreeing replays: every index below the out-degree, and no other, lands on a node that
   the replay of its host has instantiated and that the link leads to.  The landings are a bijection onto the
   pairs (link, such node) if and only if no link other than a -L> one leads to a group to which some remote
   host has brought nodes twice.
   */
  lemma DeliveryBijection(w: World, d: Daemon, g: nat, s: nat)
    requires Agreeing(w, d, g, s)
    ensures forall i: nat :: Land(w, d, g, s, i).Some? <==> i < OutDegree(d.groups, g)
    ensures forall i: nat :: Land(w, d, g, s, i).Some? ==> Intended(w, d, g, s, Land(w, d, g, s, i).value)
    ensures LandsOneToOne(w, d, g, s) <==> AllOneToOne(d, g)
  {
    forall i: nat
      ensures Land(w, d, g, s, i).Some? <==> i < OutDegree(d.groups, g)
      ensures Land(w, d, g, s, i).Some? ==> Intended(w, d, g, s, Land(w, d, g, s, i).value)
    {
      RouteTotal(d, g, s, i);
      LandsAsRouted(w, d, g, s, i);
      if Land(w, d, g, s, i).Some? { IntendedIsTarget(w, d, g, s, Land(w, d, g, s, i).value); }
    }
    LandsAsBijective(w, d, g, s);
    RoutingBijection(d, g, s);
  }
}
