/**
 From a neighbour index to a node: the index is walked through the links of the sender's group, then
 through the local and the remote hosts of the destination group, stamped into the message and decoded on
 the destination host.
 */
module Routing {
  import opened Vectors
  import opened Topologies
  import opened ModelReplay
  import opened Replicas

  /** A node of a known group: its host and its id among that host's nodes of the group. */
  datatype Address = Address(host: string, id: nat)

  datatype Target = Target(link: nat, addr: Address)

  datatype Hit = Hit(link: nat, rest: nat)

  /** The walk through the out-links: which link index i falls on, and how far into it. */
  function FindLink(gs: seq<Group>, outs: seq<Link>, i: nat, k: nat): (r: Option<Hit>)
    requires k <= |outs| && forall l :: l in outs ==> l.dst < |gs|
    ensures r.Some? ==> r.value.link < |outs|
    decreases |outs| - k
  {
    if k == |outs| then None
    else if i < NbOut(gs, outs[k]) then Some(Hit(k, i))
    else FindLink(gs, outs, i - NbOut(gs, outs[k]), k + 1)
  }

  /** get_out_node_id: step over the sender itself when the link excludes it. */
  function OutNodeId(l: Link, s: nat, rest: nat): nat {
    if ExcludesSelf(l) && rest >= s then rest + 1 else rest
  }

  /** The walk through the remote hosts. */
  function FindRemote(hs: seq<GroupHost>, dst: nat, j: nat): Option<Address>
    requires j <= |hs|
    decreases |hs| - j
  {
    if j == |hs| then None
    else if hs[j].local then FindRemote(hs, dst, j + 1)
    else if dst < hs[j].count then Some(Address(hs[j].host, dst))
    else FindRemote(hs, dst - hs[j].count, j + 1)
  }

  /** The node a daemon calls number dst of a group; None stands for the overflow exceptions. */
  function Resolve(me: string, g: Group, dst: nat): Option<Address> {
    if dst >= g.nbNodes then None
    else if dst < g.nbLocal then Some(Address(me, dst))
    else FindRemote(g.hosts, dst - g.nbLocal, 0)
  }

  /** Where a message from local node s of group g to neighbour i goes; None is the neighbour overflow. */
  function Route(d: Daemon, g: nat, s: nat, i: nat): Option<Target>
    requires g < |d.groups| && Linked(d.groups)
  {
    var outs := d.groups[g].outs;
    var hit := FindLink(d.groups, outs, i, 0);
    if hit.None? then None else
    var l := outs[hit.value.link];
    var a := Resolve(d.me, d.groups[l.dst], OutNodeId(l, s, hit.value.rest));
    if a.None? then None else Some(Target(hit.value.link, a.value))
  }

  // ----- the addresses a link reaches -----

  /** No two remote entries that bring nodes name the same host. */
  ghost predicate NoRepeats(hs: seq<GroupHost>) {
    forall i, j :: 0 <= i < j < |hs| && Brings(hs[i]) && Brings(hs[j]) ==> hs[i].host != hs[j].host
  }

  predicate Brings(h: GroupHost) {
    !h.local && h.count > 0
  }

  /** How many nodes a host has in a group, over all its entries. */
  function TotalOf(hs: seq<GroupHost>, host: string): nat {
    if |hs| == 0 then 0
    else TotalOf(hs[..|hs| - 1], host) + (if hs[|hs| - 1].host == host then hs[|hs| - 1].count else 0)
  }

  predicate Exists(g: Group, a: Address) {
    a.id < TotalOf(g.hosts, a.host)
  }

  ghost predicate Reaches(d: Daemon, l: Link, s: nat, a: Address)
    requires l.dst < |d.groups|
  {
    && Exists(d.groups[l.dst], a)
    && (ExcludesSelf(l) ==> a != Address(d.me, s))
    && (l.onlyLocal ==> a.host == d.me)
  }

  ghost predicate GoodTarget(d: Daemon, g: nat, s: nat, t: Target)
    requires g < |d.groups| && Linked(d.groups)
  {
    t.link < |d.groups[g].outs| && Reaches(d, d.groups[g].outs[t.link], s, t.addr)
  }

  // ----- numbering the nodes of a group -----

  function RemoteCount(hs: seq<GroupHost>): nat {
    if |hs| == 0 then 0
    else RemoteCount(hs[..|hs| - 1]) + (if hs[|hs| - 1].local then 0 else hs[|hs| - 1].count)
  }

  lemma {:induction false} CountsSplit(hs: seq<GroupHost>)
    ensures AnyCount(hs) == LocalCount(hs) + RemoteCount(hs)
  {
    if |hs| > 0 { CountsSplit(hs[..|hs| - 1]); }
  }

  lemma RemotePrefix(hs: seq<GroupHost>, j: nat)
    requires j < |hs|
    ensures RemoteCount(hs[..j + 1]) == RemoteCount(hs[..j]) + (if hs[j].local then 0 else hs[j].count)
  {
    assert hs[..j + 1][..j] == hs[..j];
  }

  lemma {:induction false} RemoteGrows(hs: seq<GroupHost>, j: nat)
    requires j <= |hs|
    ensures RemoteCount(hs[..j]) <= RemoteCount(hs)
  {
    if j < |hs| {
      var n := |hs| - 1;
      RemoteGrows(hs[..n], j);
      assert hs[..n][..j] == hs[..j];
    } else {
      assert hs[..j] == hs;
    }
  }

  /** The walk finds exactly the remote host whose range contains the index. */
  lemma {:induction false} FindRemoteHits(hs: seq<GroupHost>, dst: nat, j: nat, at: nat)
    requires j <= at < |hs| && !hs[at].local
    requires RemoteCount(hs[..at]) <= RemoteCount(hs[..j]) + dst < RemoteCount(hs[..at]) + hs[at].count
    ensures FindRemote(hs, dst, j) == Some(Address(hs[at].host, RemoteCount(hs[..j]) + dst - RemoteCount(hs[..at])))
    decreases at - j
  {
    if j < at {
      RemotePrefix(hs, j);
      RemoteGrows(hs[..at], j + 1);
      assert hs[..at][..j + 1] == hs[..j + 1];
      FindRemoteHits(hs, if hs[j].local then dst else dst - hs[j].count, j + 1, at);
    }
  }

  /** Every index below the number of remote nodes falls into the range of some remote host. */
  lemma {:induction false} RemoteRange(hs: seq<GroupHost>, dst: nat) returns (at: nat)
    requires dst < RemoteCount(hs)
    ensures at < |hs| && !hs[at].local
    ensures RemoteCount(hs[..at]) <= dst < RemoteCount(hs[..at]) + hs[at].count
  {
    var n := |hs| - 1;
    if dst < RemoteCount(hs[..n]) {
      at := RemoteRange(hs[..n], dst);
      assert hs[..n][..at] == hs[..at];
    } else {
      at := n;
    }
  }

  /** The first entry of a host that brings nodes. */
  function EntryOf(hs: seq<GroupHost>, host: string): (j: nat)
    ensures j <= |hs|
    ensures j < |hs| ==> hs[j].host == host && hs[j].count > 0
    ensures forall i :: 0 <= i < j ==> hs[i].host != host || hs[i].count == 0
  {
    if |hs| == 0 then 0 else if hs[0].host == host && hs[0].count > 0 then 0 else 1 + EntryOf(hs[1..], host)
  }

  /** The number a daemon gives to the node at an address: its own nodes first. */
  function Position(me: string, g: Group, a: Address): nat {
    if a.host == me then a.id else g.nbLocal + RemoteCount(g.hosts[..EntryOf(g.hosts, a.host)]) + a.id
  }

  /** A host has at least as many nodes as any of its entries, and none without an entry that brings some. */
  lemma {:induction false} TotalAtLeast(hs: seq<GroupHost>, j: nat)
    requires j < |hs|
    ensures TotalOf(hs, hs[j].host) >= hs[j].count
  {
    if j < |hs| - 1 { TotalAtLeast(hs[..|hs| - 1], j); }
  }

  lemma {:induction false} TotalNeedsEntry(hs: seq<GroupHost>, host: string)
    ensures TotalOf(hs, host) > 0 ==> exists j :: 0 <= j < |hs| && hs[j].host == host && hs[j].count > 0
  {
    if |hs| > 0 {
      TotalNeedsEntry(hs[..|hs| - 1], host);
      assert hs == hs[..|hs| - 1] + [hs[|hs| - 1]];
    }
  }

  /** A host without repeats has exactly the nodes of its one entry that brings some. */
  lemma {:induction false} TotalIsEntry(hs: seq<GroupHost>, j: nat)
    requires j < |hs| && NoRepeats(hs) && Brings(hs[j])
    requires forall i :: 0 <= i < |hs| && hs[i].host == hs[j].host ==> !hs[i].local
    ensures TotalOf(hs, hs[j].host) == hs[j].count
  {
    var n := |hs| - 1;
    if j < n {
      TotalIsEntry(hs[..n], j);
    } else {
      TotalNeedsEntry(hs[..n], hs[j].host);
    }
  }

  /** A daemon's own nodes in a group are its local ones. */
  lemma {:induction false} OwnTotal(me: string, hs: seq<GroupHost>)
    requires forall i :: 0 <= i < |hs| ==> (hs[i].local <==> hs[i].host == me)
    ensures TotalOf(hs, me) == LocalCount(hs)
  {
    if |hs| > 0 { OwnTotal(me, hs[..|hs| - 1]); }
  }

  /** The number of a node of remote host j lies after the local nodes, and is read back as such. */
  lemma RemoteNumber(me: string, g: Group, j: nat, id: nat)
    requires GroupOk(me, g) && j < |g.hosts| && !g.hosts[j].local && id < g.hosts[j].count
    ensures var p := g.nbLocal + RemoteCount(g.hosts[..j]) + id;
      p < g.nbNodes && Resolve(me, g, p) == Some(Address(g.hosts[j].host, id))
  {
    var hs := g.hosts;
    CountsSplit(hs);
    RemotePrefix(hs, j);
    RemoteGrows(hs, j + 1);
    assert hs[..0] == [];
    FindRemoteHits(hs, RemoteCount(hs[..j]) + id, 0, j);
  }

  /** The entry a remote number falls into. */
  lemma RemoteEntry(me: string, g: Group, dst: nat) returns (at: nat)
    requires GroupOk(me, g) && g.nbLocal <= dst < g.nbNodes
    ensures at < |g.hosts| && Brings(g.hosts[at]) && g.hosts[at].host != me
    ensures var before := g.nbLocal + RemoteCount(g.hosts[..at]);
      before <= dst < before + g.hosts[at].count && Resolve(me, g, dst) == Some(Address(g.hosts[at].host, dst - before))
  {
    CountsSplit(g.hosts);
    at := RemoteRange(g.hosts, dst - g.nbLocal);
    RemoteNumber(me, g, at, dst - g.nbLocal - RemoteCount(g.hosts[..at]));
  }

  /** Exactly the numbers below the size resolve, each to an existing node, the first ones to local nodes. */
  lemma ResolveTotal(me: string, g: Group, dst: nat)
    requires GroupOk(me, g)
    ensures var a := Resolve(me, g, dst);
      && (a.Some? <==> dst < g.nbNodes)
      && (a.Some? ==> Exists(g, a.value) && (a.value.host == me <==> dst < g.nbLocal))
  {
    if dst < g.nbLocal {
      OwnTotal(me, g.hosts);
    } else if dst < g.nbNodes {
      var at := RemoteEntry(me, g, dst);
      TotalAtLeast(g.hosts, at);
    }
  }

  /** Without repeats, every existing node has a number, and the number resolves to the node. */
  lemma ResolvePosition(me: string, g: Group, a: Address)
    requires GroupOk(me, g) && Exists(g, a) && (a.host == me || NoRepeats(g.hosts))
    ensures Position(me, g, a) < g.nbNodes && Resolve(me, g, Position(me, g, a)) == Some(a)
    ensures a.host == me <==> Position(me, g, a) < g.nbLocal
  {
    if a.host == me {
      OwnTotal(me, g.hosts);
    } else {
      TotalNeedsEntry(g.hosts, a.host);
      var j := EntryOf(g.hosts, a.host);
      TotalIsEntry(g.hosts, j);
      RemoteNumber(me, g, j, a.id);
    }
  }

  /** Without repeats, the number that led to a node is the node's number. */
  lemma PositionResolve(me: string, g: Group, dst: nat)
    requires GroupOk(me, g) && dst < g.nbNodes && (dst < g.nbLocal || NoRepeats(g.hosts))
    ensures var a := Resolve(me, g, dst); a.Some? && Exists(g, a.value) && Position(me, g, a.value) == dst
  {
    ResolveTotal(me, g, dst);
    if dst >= g.nbLocal {
      var at := RemoteEntry(me, g, dst);
      assert EntryOf(g.hosts, g.hosts[at].host) == at;
    }
  }

  /** When a remote host has brought nodes to a group twice, two numbers of the group lead to the same node. */
  lemma RepeatedHostCollides(me: string, g: Group, i: nat, j: nat) returns (p: nat, q: nat)
    requires GroupOk(me, g) && i < j < |g.hosts| && Brings(g.hosts[i]) && Brings(g.hosts[j])
    requires g.hosts[i].host == g.hosts[j].host
    ensures g.nbLocal <= p < q < g.nbNodes && Resolve(me, g, p).Some? && Resolve(me, g, p) == Resolve(me, g, q)
  {
    var hs := g.hosts;
    p, q := g.nbLocal + RemoteCount(hs[..i]), g.nbLocal + RemoteCount(hs[..j]);
    RemoteNumber(me, g, i, 0);
    RemoteNumber(me, g, j, 0);
    RemotePrefix(hs, i);
    RemoteGrows(hs[..j], i + 1);
    assert hs[..j][..i + 1] == hs[..i + 1];
  }

  ghost predicate Injective(me: string, g: Group) {
    forall p: nat, q: nat :: p < q < g.nbNodes ==> Resolve(me, g, p) != Resolve(me, g, q)
  }

  /** The numbers of a group name different nodes if and only if no remote host has brought nodes to it twice. */
  lemma InjectiveIff(me: string, g: Group)
    requires GroupOk(me, g)
    ensures Injective(me, g) <==> NoRepeats(g.hosts)
  {
    if NoRepeats(g.hosts) {
      forall p: nat, q: nat | p < q < g.nbNodes ensures Resolve(me, g, p) != Resolve(me, g, q) {
        PositionResolve(me, g, p);
        PositionResolve(me, g, q);
      }
    } else {
      var i, j :| 0 <= i < j < |g.hosts| && Brings(g.hosts[i]) && Brings(g.hosts[j])
        && g.hosts[i].host == g.hosts[j].host;
      var p, q := RepeatedHostCollides(me, g, i, j);
    }
  }

  // ----- the walk through the links -----

  function Offset(gs: seq<Group>, outs: seq<Link>, k: nat): int
    requires k <= |outs|
  {
    SumOver(outs[..k], OutF(gs))
  }

  lemma OffsetNext(gs: seq<Group>, outs: seq<Link>, k: nat)
    requires k < |outs| && outs[k].dst < |gs|
    ensures Offset(gs, outs, k + 1) == Offset(gs, outs, k) + NbOut(gs, outs[k])
  {
    assert outs[..k + 1][..k] == outs[..k];
  }

  lemma {:induction false} OffsetGrows(gs: seq<Group>, outs: seq<Link>, j: nat, k: nat)
    requires j <= k <= |outs| && forall l :: l in outs ==> l.dst < |gs|
    ensures Offset(gs, outs, j) <= Offset(gs, outs, k)
  {
    if j < k {
      OffsetGrows(gs, outs, j, k - 1);
      OffsetNext(gs, outs, k - 1);
    }
  }

  /** Index offset(k) + r falls on link k at r. */
  lemma {:induction false} FindLinkHits(gs: seq<Group>, outs: seq<Link>, i: nat, j: nat, k: nat)
    requires j <= k < |outs| && forall l :: l in outs ==> l.dst < |gs|
    requires Offset(gs, outs, k) <= Offset(gs, outs, j) + i < Offset(gs, outs, k + 1)
    ensures FindLink(gs, outs, i, j) == Some(Hit(k, Offset(gs, outs, j) + i - Offset(gs, outs, k)))
    decreases k - j
  {
    OffsetNext(gs, outs, j);
    if j < k {
      OffsetGrows(gs, outs, j + 1, k);
      FindLinkHits(gs, outs, i - NbOut(gs, outs[j]), j + 1, k);
    }
  }

  /** The walk fails exactly on the indices from the sum of the degrees on. */
  lemma {:induction false} FindLinkTotal(gs: seq<Group>, outs: seq<Link>, i: nat, j: nat)
    requires j <= |outs| && forall l :: l in outs ==> l.dst < |gs|
    ensures var r := FindLink(gs, outs, i, j);
      && (r.Some? <==> Offset(gs, outs, j) + i < Offset(gs, outs, |outs|))
      && (r.Some? ==>
            && r.value.rest < NbOut(gs, outs[r.value.link])
            && Offset(gs, outs, r.value.link) + r.value.rest == Offset(gs, outs, j) + i)
    decreases |outs| - j
  {
    if j < |outs| {
      OffsetNext(gs, outs, j);
      OffsetGrows(gs, outs, j + 1, |outs|);
      if i >= NbOut(gs, outs[j]) { FindLinkTotal(gs, outs, i - NbOut(gs, outs[j]), j + 1); }
    }
  }

  // ----- the bijection -----

  ghost predicate Routable(d: Daemon, g: nat, s: nat) {
    DaemonOk(d) && Linked(d.groups) && g < |d.groups| && s < d.groups[g].nbLocal
  }

  /** How far into a link the node in position p lies. */
  function RestOf(l: Link, s: nat, p: nat): nat {
    if ExcludesSelf(l) && p > s then p - 1 else p
  }

  /** The neighbour index of a target. */
  function IndexOf(d: Daemon, g: nat, s: nat, t: Target): int
    requires g < |d.groups| && Linked(d.groups) && t.link < |d.groups[g].outs|
  {
    var l := d.groups[g].outs[t.link];
    Offset(d.groups, d.groups[g].outs, t.link) + RestOf(l, s, Position(d.me, d.groups[l.dst], t.addr))
  }

  /** Whether the link names its nodes one to one: it stays on this host, or its target has no repeats. */
  ghost predicate OneToOne(d: Daemon, l: Link)
    requires l.dst < |d.groups|
  {
    l.onlyLocal || NoRepeats(d.groups[l.dst].hosts)
  }

  /** A reached address lies within the link's degree, and stepping over the sender leads to its position. */
  lemma RestWithinLink(d: Daemon, g: nat, s: nat, l: Link, a: Address)
    requires Routable(d, g, s) && l in d.groups[g].outs && Reaches(d, l, s, a) && OneToOne(d, l)
    ensures var p := Position(d.me, d.groups[l.dst], a);
      && RestOf(l, s, p) < NbOut(d.groups, l) && OutNodeId(l, s, RestOf(l, s, p)) == p
      && Resolve(d.me, d.groups[l.dst], p) == Some(a)
  {
    assert GroupOk(d.me, d.groups[l.dst]);
    ResolvePosition(d.me, d.groups[l.dst], a);
  }

  /** An index is routed if and only if it is below the out-degree, and then to a node the link reaches. */
  lemma RouteTotal(d: Daemon, g: nat, s: nat, i: nat)
    requires Routable(d, g, s)
    ensures Route(d, g, s, i).Some? <==> i < OutDegree(d.groups, g)
    ensures var t := Route(d, g, s, i); t.Some? ==> GoodTarget(d, g, s, t.value)
  {
    var gs, outs := d.groups, d.groups[g].outs;
    assert outs[..|outs|] == outs && outs[..0] == [];
    FindLinkTotal(gs, outs, i, 0);
    var hit := FindLink(gs, outs, i, 0);
    if hit.Some? {
      var l := outs[hit.value.link];
      assert l in outs;
      assert GroupOk(d.me, gs[l.dst]);
      ResolveTotal(d.me, gs[l.dst], OutNodeId(l, s, hit.value.rest));
    }
  }

  /** On a one-to-one link, the index is that of the node it leads to. */
  lemma RouteSound(d: Daemon, g: nat, s: nat, i: nat)
    requires Routable(d, g, s) && Route(d, g, s, i).Some?
    ensures var t := Route(d, g, s, i).value;
      && GoodTarget(d, g, s, t)
      && (OneToOne(d, d.groups[g].outs[t.link]) ==> IndexOf(d, g, s, t) == i)
  {
    RouteTotal(d, g, s, i);
    var gs, outs := d.groups, d.groups[g].outs;
    assert outs[..0] == [];
    FindLinkTotal(gs, outs, i, 0);
    var hit := FindLink(gs, outs, i, 0).value;
    var l := outs[hit.link];
    assert l in outs;
    if OneToOne(d, l) {
      assert GroupOk(d.me, gs[l.dst]);
      PositionResolve(d.me, gs[l.dst], OutNodeId(l, s, hit.rest));
    }
  }

  /** Every node a one-to-one link reaches has an index, and the index leads back to it. */
  lemma RouteComplete(d: Daemon, g: nat, s: nat, t: Target)
    requires Routable(d, g, s) && GoodTarget(d, g, s, t) && OneToOne(d, d.groups[g].outs[t.link])
    ensures 0 <= IndexOf(d, g, s, t) < OutDegree(d.groups, g)
    ensures Route(d, g, s, IndexOf(d, g, s, t)) == Some(t)
  {
    var l := d.groups[g].outs[t.link];
    var rest := RestOf(l, s, Position(d.me, d.groups[l.dst], t.addr));
    RestWithinLink(d, g, s, l, t.addr);
    LinkIndex(d.groups, d.groups[g].outs, t.link, rest);
    RouteAt(d, g, s, IndexOf(d, g, s, t), t.link, rest, t.addr);
  }

  lemma RouteAt(d: Daemon, g: nat, s: nat, i: nat, k: nat, rest: nat, a: Address)
    requires g < |d.groups| && Linked(d.groups) && k < |d.groups[g].outs|
    requires FindLink(d.groups, d.groups[g].outs, i, 0) == Some(Hit(k, rest))
    requires var l := d.groups[g].outs[k]; Resolve(d.me, d.groups[l.dst], OutNodeId(l, s, rest)) == Some(a)
    ensures Route(d, g, s, i) == Some(Target(k, a))
  {
  }

  lemma RoutedAt(d: Daemon, g: nat, s: nat, k: nat, rest: nat, a: Address) returns (i: nat)
    requires g < |d.groups| && Linked(d.groups) && k < |d.groups[g].outs|
    requires var l := d.groups[g].outs[k];
      rest < NbOut(d.groups, l) && Resolve(d.me, d.groups[l.dst], OutNodeId(l, s, rest)) == Some(a)
    ensures i == Offset(d.groups, d.groups[g].outs, k) + rest && Route(d, g, s, i) == Some(Target(k, a))
  {
    LinkIndex(d.groups, d.groups[g].outs, k, rest);
    i := Offset(d.groups, d.groups[g].outs, k) + rest;
    RouteAt(d, g, s, i, k, rest, a);
  }

  /** The r-th index of link k lies below the sum of the degrees and is found again by the walk. */
  lemma {:induction false} LinkIndex(gs: seq<Group>, outs: seq<Link>, k: nat, r: nat)
    requires k < |outs| && (forall l :: l in outs ==> l.dst < |gs|) && r < NbOut(gs, outs[k])
    ensures 0 <= Offset(gs, outs, k) && Offset(gs, outs, k) + r < SumOver(outs, OutF(gs))
    ensures FindLink(gs, outs, Offset(gs, outs, k) + r, 0) == Some(Hit(k, r))
  {
    LinkRange(gs, outs, k);
    var i := Offset(gs, outs, k) + r;
    assert Offset(gs, outs, 0) == 0;
    FindLinkHits(gs, outs, i, 0, k);
  }

  lemma LinkRange(gs: seq<Group>, outs: seq<Link>, k: nat)
    requires k < |outs| && (forall l :: l in outs ==> l.dst < |gs|)
    ensures 0 <= Offset(gs, outs, k)
    ensures Offset(gs, outs, k) + NbOut(gs, outs[k]) == Offset(gs, outs, k + 1) <= SumOver(outs, OutF(gs))
  {
    assert outs[..|outs|] == outs && outs[..0] == [];
    OffsetGrows(gs, outs, 0, k);
    OffsetNext(gs, outs, k);
    OffsetGrows(gs, outs, k + 1, |outs|);
  }

  /** Different indices lead to different targets, and every reached node has an index. */
  ghost predicate Bijective(d: Daemon, g: nat, s: nat)
    requires g < |d.groups| && Linked(d.groups)
  {
    && (forall i: nat, j: nat :: i < j && Route(d, g, s, j).Some? ==> Route(d, g, s, i) != Route(d, g, s, j))
    && (forall t :: GoodTarget(d, g, s, t) ==> exists i: nat :: Route(d, g, s, i) == Some(t))
  }

  ghost predicate AllOneToOne(d: Daemon, g: nat)
    requires g < |d.groups| && Linked(d.groups)
  {
    forall l :: l in d.groups[g].outs ==> OneToOne(d, l)
  }

  lemma RemoteRest(d: Daemon, g: nat, s: nat, l: Link, p: nat)
    requires Routable(d, g, s) && l in d.groups[g].outs && !l.onlyLocal
    requires d.groups[l.dst].nbLocal <= p < d.groups[l.dst].nbNodes
    ensures ExcludesSelf(l) ==> p > s
    ensures RestOf(l, s, p) < NbOut(d.groups, l) && OutNodeId(l, s, RestOf(l, s, p)) == p
  {
  }

  /** The index that link k gives to a remote number p of its target. */
  lemma RemoteIndex(d: Daemon, g: nat, s: nat, k: nat, p: nat) returns (i: nat)
    requires Routable(d, g, s) && k < |d.groups[g].outs| && !d.groups[g].outs[k].onlyLocal
    requires var l := d.groups[g].outs[k]; d.groups[l.dst].nbLocal <= p < d.groups[l.dst].nbNodes
    ensures var l := d.groups[g].outs[k];
      && i == Offset(d.groups, d.groups[g].outs, k) + RestOf(l, s, p)
      && (ExcludesSelf(l) ==> p > s)
      && Resolve(d.me, d.groups[l.dst], p).Some?
      && Route(d, g, s, i) == Some(Target(k, Resolve(d.me, d.groups[l.dst], p).value))
  {
    var l := d.groups[g].outs[k];
    assert l in d.groups[g].outs;
    assert GroupOk(d.me, d.groups[l.dst]);
    ResolveTotal(d.me, d.groups[l.dst], p);
    RemoteRest(d, g, s, l, p);
    i := RoutedAt(d, g, s, k, RestOf(l, s, p), Resolve(d.me, d.groups[l.dst], p).value);
  }

  /** A link to a group with a repeated remote host makes two indices meet. */
  lemma RepeatCollides(d: Daemon, g: nat, s: nat, k: nat) returns (i: nat, j: nat)
    requires Routable(d, g, s) && k < |d.groups[g].outs| && !OneToOne(d, d.groups[g].outs[k])
    ensures i < j && Route(d, g, s, j).Some? && Route(d, g, s, i) == Route(d, g, s, j)
  {
    var l := d.groups[g].outs[k];
    var to := d.groups[l.dst];
    assert GroupOk(d.me, to);
    var x, y :| 0 <= x < y < |to.hosts| && Brings(to.hosts[x]) && Brings(to.hosts[y])
      && to.hosts[x].host == to.hosts[y].host;
    var p, q := RepeatedHostCollides(d.me, to, x, y);
    i := RemoteIndex(d, g, s, k, p);
    j := RemoteIndex(d, g, s, k, q);
  }

  /**
   Neighbour indices below the out-degree lead to the pairs (link, existing node the link reaches), the
   overflow exception coming exactly from the out-degree on: never to the sender itself on a self-excluding
   link to its own group, never to another host on a -L> link.  They are a bijection onto these pairs if and
   only if no link other than a -L> one leads to a group to which some remote host has brought nodes twice.
   */
  lemma RoutingBijection(d: Daemon, g: nat, s: nat)
    requires Routable(d, g, s)
    ensures forall i: nat :: Route(d, g, s, i).Some? <==> i < OutDegree(d.groups, g)
    ensures forall i: nat :: Route(d, g, s, i).Some? ==> GoodTarget(d, g, s, Route(d, g, s, i).value)
    ensures Bijective(d, g, s) <==> AllOneToOne(d, g)
  {
    forall i: nat
      ensures Route(d, g, s, i).Some? <==> i < OutDegree(d.groups, g)
      ensures Route(d, g, s, i).Some? ==> GoodTarget(d, g, s, Route(d, g, s, i).value)
    {
      RouteTotal(d, g, s, i);
    }
    if AllOneToOne(d, g) {
      OneToOneIsBijective(d, g, s);
    } else {
      var l :| l in d.groups[g].outs && !OneToOne(d, l);
      var k :| 0 <= k < |d.groups[g].outs| && d.groups[g].outs[k] == l;
      var i, j := RepeatCollides(d, g, s, k);
    }
  }

  lemma OneToOneIsBijective(d: Daemon, g: nat, s: nat)
    requires Routable(d, g, s) && AllOneToOne(d, g)
    ensures Bijective(d, g, s)
  {
    forall i: nat, j: nat | i < j && Route(d, g, s, j).Some?
      ensures Route(d, g, s, i) != Route(d, g, s, j)
    {
      RouteSound(d, g, s, j);
      if Route(d, g, s, i).Some? { RouteSound(d, g, s, i); }
    }
    forall t | GoodTarget(d, g, s, t)
      ensures exists i: nat :: Route(d, g, s, i) == Some(t)
    {
      RouteComplete(d, g, s, t);
    }
  }

  // ----- stamping and decoding -----

  const WORD: int := 0x1_0000_0000
  const HALF: int := 0x8000_0000

  /** The destination stamped into a message: the group id in the high word, the node id in the low word. */
  function Stamp(group: nat, id: nat): int {
    group * WORD + id
  }

  /** A word read as a signed 32-bit integer. */
  function SignedWord(x: int): int {
    var y := x % WORD;
    if y >= HALF then y - WORD else y
  }

  /** get_local_node: the walk through the local hosts. */
  function LocalNode(hs: seq<GroupHost>, id: nat, j: nat): Option<NodeRef>
    requires j <= |hs|
    decreases |hs| - j
  {
    if j == |hs| then None
    else if !hs[j].local then LocalNode(hs, id, j + 1)
    else if id < hs[j].count then (if id < |hs[j].nodes| then Some(hs[j].nodes[id]) else None)
    else LocalNode(hs, id - hs[j].count, j + 1)
  }

  datatype Decoded = Overflow | Found(group: nat, node: NodeRef)

  /** com_decode_local_node; Overflow stands for its exceptions. */
  function DecodeLocal(d: Daemon, stamp: int): Decoded {
    var group, id := SignedWord(stamp / WORD), SignedWord(stamp);
    if id < 0 || group < 0 || group >= |d.groups| || id >= d.groups[group].nbLocal then Overflow
    else var n := LocalNode(d.groups[group].hosts, id, 0);
      if n.None? then Overflow else Found(group, n.value)
  }

  lemma StampSplits(group: nat, id: nat)
    requires id < WORD
    ensures Stamp(group, id) / WORD == group && Stamp(group, id) % WORD == id
  {
  }

  /** Encoding and decoding are inverse exactly while both ids fit in 31 bits. */
  lemma StampRoundTrip(group: nat, id: nat)
    requires id < WORD && group < WORD
    ensures SignedWord(Stamp(group, id) / WORD) == group && SignedWord(Stamp(group, id)) == id
      <==> group < HALF && id < HALF
  {
    StampSplits(group, id);
  }

  lemma {:induction false} LocalNodeHasId(me: string, hs: seq<GroupHost>, id: nat, j: nat)
    requires HostsOk(me, hs) && j <= |hs| && LocalCount(hs[..j]) + id < LocalCount(hs)
    ensures var n := LocalNode(hs, id, j); n.Some? && n.value.id == LocalCount(hs[..j]) + id
    decreases |hs| - j
  {
    assert hs[..|hs|] == hs;
    if j < |hs| {
      assert hs[..j + 1][..j] == hs[..j];
      if !hs[j].local {
        LocalNodeHasId(me, hs, id, j + 1);
      } else if id >= hs[j].count {
        LocalNodeHasId(me, hs, id - hs[j].count, j + 1);
      }
    }
  }

  /** A stamp decodes if and only if its ids are those of a local node, and then to that node. */
  lemma DecodeStamp(d: Daemon, group: nat, id: nat)
    requires DaemonOk(d) && group < HALF && id < HALF
    ensures var r := DecodeLocal(d, Stamp(group, id));
      && (r.Found? <==> group < |d.groups| && id < d.groups[group].nbLocal)
      && (r.Found? ==> r.group == group && r.node.id == id)
  {
    StampSplits(group, id);
    if group < |d.groups| && id < d.groups[group].nbLocal {
      assert GroupOk(d.me, d.groups[group]);
      assert d.groups[group].hosts[..0] == [];
      LocalNodeHasId(d.me, d.groups[group].hosts, id, 0);
    }
  }

  /**
   End to end: the stamp of a routed message decodes, on the replay of the host it is sent to, to the very
   node that was meant.  Sender and receiver may each be the daemon that spread the model.
   */
  lemma EndToEnd(
    d: Daemon, spreader1: bool, r: Daemon, spreader2: bool, all: seq<Stmt>, g: nat, s: nat, i: nat, t: Target)
    requires Replay(d.me, spreader1, all) == Ok(d) && Replay(t.addr.host, spreader2, all) == Ok(r)
    requires spreader1 != spreader2 ==> Timely(all)
    requires Routable(d, g, s) && Route(d, g, s, i) == Some(t)
    requires t.addr.id < HALF && |d.groups| < HALF
    ensures t.link < |d.groups[g].outs|
    ensures var dst := d.groups[g].outs[t.link].dst;
      var m := DecodeLocal(r, Stamp(dst, t.addr.id));
      m.Found? && m.group == dst && m.node.id == t.addr.id
  {
    RouteTotal(d, g, s, i);
    var l := d.groups[g].outs[t.link];
    assert l in d.groups[g].outs;
    AddressExistsThere(d, spreader1, r, spreader2, all, l.dst, t.addr);
    DecodeStamp(r, l.dst, t.addr.id);
  }

  /** An address a daemon believes in exists on the host it names. */
  lemma AddressExistsThere(
    d: Daemon, spreader1: bool, r: Daemon, spreader2: bool, all: seq<Stmt>, x: nat, a: Address)
    requires Replay(d.me, spreader1, all) == Ok(d) && Replay(a.host, spreader2, all) == Ok(r)
    requires spreader1 != spreader2 ==> Timely(all)
    requires x < |d.groups|
    ensures DaemonOk(r) && |r.groups| == |d.groups|
    ensures Exists(d.groups[x], a) <==> a.id < r.groups[x].nbLocal
  {
    assert all[..|all|] == all;
    ReplayViews(a.host, spreader2, all, |all|);
    ReplaysAgreeIff(d.me, spreader1, a.host, spreader2, all);
    assert Views(d.groups)[x] == Views(r.groups)[x];
    assert GroupOk(a.host, r.groups[x]);
    SameTotals(d.groups[x].hosts, r.groups[x].hosts, a.host);
    OwnTotal(a.host, r.groups[x].hosts);
  }

  lemma {:induction false} SameTotals(a: seq<GroupHost>, b: seq<GroupHost>, host: string)
    requires ViewHosts(a) == ViewHosts(b)
    ensures TotalOf(a, host) == TotalOf(b, host)
  {
    if |a| > 0 {
      var n := |a| - 1;
      assert ViewHosts(a)[n] == ViewHosts(b)[n];
      assert ViewHosts(a[..n]) == ViewHosts(a)[..n] == ViewHosts(b)[..n] == ViewHosts(b[..n]);
      SameTotals(a[..n], b[..n], host);
    }
  }
}
