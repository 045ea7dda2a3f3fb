/** The topology object of a daemon: its groups are changed in place, its indices walked by loops. */
module TopologyObjects {
  import opened Vectors
  import opened Topologies
  import opened ModelReplay
  import opened Routing

  /** The group list while host h joins g: the first i in-links and the first j out-links have been told. */
  ghost function Announced(before: seq<Group>, g: nat, h: GroupHost, i: nat, j: nat): (r: seq<Group>)
    requires g < |before| && i <= |before[g].ins| && j <= |before[g].outs|
    ensures |r| == |before|
  {
    seq(|before|, x requires 0 <= x < |before| =>
      before[x].(nbOut := before[x].nbOut + SumOver(before[g].ins[..i], IncFrom(x, h, before[g].nbNodes == 0)),
                 nbIn := before[x].nbIn + SumOver(before[g].outs[..j], IncTo(x, h, before[g].nbNodes == 0))))
  }

  lemma AnnouncedNone(b: seq<Group>, g: nat, h: GroupHost)
    requires g < |b|
    ensures Announced(b, g, h, 0, 0) == b
  {
    assert b[g].ins[..0] == [] && b[g].outs[..0] == [];
  }

  lemma AnnouncedToSource(b: seq<Group>, g: nat, h: GroupHost, i: nat)
    requires g < |b| && i < |b[g].ins| && b[g].ins[i].dst == g && b[g].ins[i].src < |b|
    ensures var r, l := Announced(b, g, h, i, 0), b[g].ins[i];
      Announced(b, g, h, i + 1, 0) == r[l.src := r[l.src].(nbOut := r[l.src].nbOut + Inc(l, h, r[g].nbNodes == 0))]
  {
    assert b[g].ins[..i + 1][..i] == b[g].ins[..i];
  }

  lemma AnnouncedToTarget(b: seq<Group>, g: nat, h: GroupHost, j: nat)
    requires g < |b| && j < |b[g].outs| && b[g].outs[j].src == g && b[g].outs[j].dst < |b|
    ensures var r, l := Announced(b, g, h, |b[g].ins|, j), b[g].outs[j];
      Announced(b, g, h, |b[g].ins|, j + 1)
        == r[l.dst := r[l.dst].(nbIn := r[l.dst].nbIn + Inc(l, h, r[g].nbNodes == 0))]
  {
    assert b[g].outs[..j + 1][..j] == b[g].outs[..j];
  }

  class Topology {
    const me: string
    var groups: seq<Group>

    constructor (me: string)
      ensures this.me == me && groups == []
    {
      this.me := me;
      groups := [];
    }

    method AddOut(l: Link)
      requires l.src < |groups| && l.dst < |groups|
      modifies `groups
      ensures groups == old(groups)[l.src := old(groups)[l.src].(
        outs := old(groups)[l.src].outs + [l], nbOut := old(groups)[l.src].nbOut + NbOut(old(groups), l))]
    {
      var g := groups[l.src];
      groups := groups[l.src := g.(outs := g.outs + [l])];
      groups := groups[l.src := groups[l.src].(nbOut := groups[l.src].nbOut + NbOut(groups, l))];
    }

    method AddIn(l: Link)
      requires l.src < |groups| && l.dst < |groups|
      modifies `groups
      ensures groups == old(groups)[l.dst := old(groups)[l.dst].(
        ins := old(groups)[l.dst].ins + [l], nbIn := old(groups)[l.dst].nbIn + NbIn(old(groups), l))]
    {
      var g := groups[l.dst];
      groups := groups[l.dst := g.(ins := g.ins + [l])];
      groups := groups[l.dst := groups[l.dst].(nbIn := groups[l.dst].nbIn + NbIn(groups, l))];
    }

    /** connect: the counters of both ends stay exact. */
    method Connect(src: nat, dst: nat, allowSelf: bool, onlyLocal: bool)
      requires src < |groups| && dst < |groups|
      modifies `groups
      ensures groups == AddLink(old(groups), Link(src, dst, allowSelf, onlyLocal))
      ensures old(Cached(groups)) ==> Cached(groups)
      ensures old(Linked(groups)) ==> Linked(groups)
    {
      var l := Link(src, dst, allowSelf, onlyLocal);
      ghost var before := groups;
      AddOut(l);
      AddIn(l);
      assert groups == AddLink(before, l);
      if Cached(before) { AddLinkKeepsDegrees(before, l); }
      if Linked(before) { AddLinkKeepsLinked(before, l); }
    }

    /** The first loop of add_host: the sources of the in-links. */
    method AnnounceToSources(g: nat, h: GroupHost)
      requires g < |groups| && forall l :: l in groups[g].ins ==> l.dst == g && l.src < |groups|
      modifies `groups
      ensures groups == Announced(old(groups), g, h, |old(groups)[g].ins|, 0)
    {
      ghost var b := groups;
      var ins := groups[g].ins;
      AnnouncedNone(b, g, h);
      for i := 0 to |ins|
        invariant groups == Announced(b, g, h, i, 0)
      {
        var l := ins[i];
        assert l in ins;
        AnnouncedToSource(b, g, h, i);
        if !l.onlyLocal || h.local {
          var inc: int := if ExcludesSelf(l) && groups[l.src].nbNodes == 0 then h.count - 1 else h.count;
          groups := groups[l.src := groups[l.src].(nbOut := groups[l.src].nbOut + inc)];
        }
      }
    }

    /** The second loop of add_host: the destinations of the out-links. */
    method AnnounceToTargets(g: nat, h: GroupHost, ghost b: seq<Group>)
      requires g < |groups| == |b| && groups == Announced(b, g, h, |b[g].ins|, 0)
      requires forall l :: l in b[g].outs ==> l.src == g && l.dst < |b|
      modifies `groups
      ensures groups == Announced(b, g, h, |b[g].ins|, |b[g].outs|)
    {
      var outs := groups[g].outs;
      for j := 0 to |outs|
        invariant groups == Announced(b, g, h, |b[g].ins|, j)
      {
        var l := outs[j];
        assert l in b[g].outs;
        AnnouncedToTarget(b, g, h, j);
        if !l.onlyLocal || h.local {
          var inc: int := if ExcludesSelf(l) && groups[l.dst].nbNodes == 0 then h.count - 1 else h.count;
          groups := groups[l.dst := groups[l.dst].(nbIn := groups[l.dst].nbIn + inc)];
        }
      }
    }

    /** add_host, for a host whose local nodes have been numbered already. */
    method AnnounceHost(g: nat, h: GroupHost)
      requires g < |groups|
      requires forall l :: l in groups[g].ins ==> l.dst == g && l.src < |groups|
      requires forall l :: l in groups[g].outs ==> l.src == g && l.dst < |groups|
      modifies `groups
      ensures groups == var b := old(groups);
        var r := Announced(b, g, h, |b[g].ins|, |b[g].outs|);
        r[g := r[g].(hosts := r[g].hosts + [h], nbNodes := r[g].nbNodes + h.count)]
    {
      ghost var b := groups;
      AnnounceToSources(g, h);
      AnnounceToTargets(g, h, b);
      groups := groups[g := groups[g].(hosts := groups[g].hosts + [h], nbNodes := groups[g].nbNodes + h.count)];
    }

    /** Instantiate one node of group g per entry of p on this daemon. */
    method Instantiate(g: nat, p: seq<nat>) returns (nodes: seq<NodeRef>)
      requires g < |groups|
      modifies `groups
      ensures groups == old(groups)[g := old(groups)[g].(nbLocal := old(groups)[g].nbLocal + |p|)]
      ensures nodes == LocalHost(old(groups), g, me, p).nodes
    {
      ghost var b := groups;
      nodes := [];
      for i := 0 to |p|
        invariant groups == b[g := b[g].(nbLocal := b[g].nbLocal + i)]
        invariant nodes == LocalHost(b, g, me, p).nodes[..i]
      {
        nodes := nodes + [NodeRef(groups[g].nbLocal, p[i])];
        groups := groups[g := groups[g].(nbLocal := groups[g].nbLocal + 1)];
      }
    }

    /** A local assignment: instantiate the nodes, then announce the host. */
    method AddLocalHost(g: nat, p: seq<nat>)
      requires g < |groups| && Linked(groups)
      modifies `groups
      ensures groups == AddHost(old(groups), g, LocalHost(old(groups), g, me, p))
    {
      ghost var b := groups;
      var nodes := Instantiate(g, p);
      var h := GroupHost(me, true, |nodes|, nodes);
      assert h == LocalHost(b, g, me, p);
      AnnounceHost(g, h);
      WholeLists(b, g);
      assert forall x :: 0 <= x < |b| ==> groups[x] == AddHost(b, g, h)[x];
    }

    method AddRemoteHost(g: nat, host: string, nb: nat)
      requires g < |groups| && Linked(groups)
      modifies `groups
      ensures groups == AddHost(old(groups), g, GroupHost(host, false, nb, []))
    {
      ghost var b := groups;
      AnnounceHost(g, GroupHost(host, false, nb, []));
      WholeLists(b, g);
      assert forall x :: 0 <= x < |b| ==> groups[x] == AddHost(b, g, GroupHost(host, false, nb, []))[x];
    }

    lemma WholeLists(b: seq<Group>, g: nat)
      requires g < |b|
      ensures b[g].ins[..|b[g].ins|] == b[g].ins && b[g].outs[..|b[g].outs|] == b[g].outs
    {
    }

    /** get_local_node */
    method GetLocalNode(g: nat, id: nat) returns (n: Option<NodeRef>)
      requires g < |groups|
      ensures n == LocalNode(groups[g].hosts, id, 0)
    {
      var hs := groups[g].hosts;
      var rest: nat := id;
      for j := 0 to |hs|
        invariant LocalNode(hs, id, 0) == LocalNode(hs, rest, j)
      {
        if hs[j].local {
          if rest < hs[j].count {
            return if rest < |hs[j].nodes| then Some(hs[j].nodes[rest]) else None;
          }
          rest := rest - hs[j].count;
        }
      }
      n := None;
    }

    /** send: where the message to node dst of group g is delivered. */
    method Send(g: nat, dst: nat) returns (a: Option<Address>)
      requires g < |groups|
      ensures a == Resolve(me, groups[g], dst)
    {
      var group := groups[g];
      if dst >= group.nbNodes { return None; }
      if dst < group.nbLocal { return Some(Address(me, dst)); }
      var rest: nat := dst - group.nbLocal;
      for j := 0 to |group.hosts|
        invariant FindRemote(group.hosts, dst - group.nbLocal, 0) == FindRemote(group.hosts, rest, j)
      {
        var h := group.hosts[j];
        if !h.local {
          if rest < h.count { return Some(Address(h.host, rest)); }
          rest := rest - h.count;
        }
      }
      a := None;
    }

    ghost function AsDaemon(): Daemon
      reads this
    {
      Daemon(me, groups, [], [])
    }

    /** send_out: from a neighbour index to a target. */
    method SendOut(g: nat, s: nat, iNeighbor: nat) returns (t: Option<Target>)
      requires g < |groups| && Linked(groups)
      ensures t == Route(AsDaemon(), g, s, iNeighbor)
    {
      var outs := groups[g].outs;
      var rest: nat := iNeighbor;
      for k := 0 to |outs|
        invariant FindLink(groups, outs, iNeighbor, 0) == FindLink(groups, outs, rest, k)
      {
        var l := outs[k];
        assert l in outs;
        if rest < NbOut(groups, l) {
          var a := Send(l.dst, OutNodeId(l, s, rest));
          return if a.None? then None else Some(Target(k, a.value));
        }
        rest := rest - NbOut(groups, l);
      }
      t := None;
    }
  }
}
