/** One daemon of the tree: its lists of masters and slaves change in place, and its handlers send in loops. */
module DaemonObjects {
  import opened Vectors
  import opened Flood

  class Daemon {
    const id: nat
    var masters: seq<nat>
    var slaves: seq<nat>
    var applied: nat
    var root: Option<nat>

    constructor (id: nat)
      ensures this.id == id && masters == [] && slaves == [] && applied == 0 && root == None
    {
      this.id, masters, slaves, applied, root := id, [], [], 0, None;
    }

    /** The object is the daemon with its number in the network. */
    ghost predicate In(net: Net, st: State)
      reads this
    {
      && id < |net.masters| == |net.slaves| == |st.applied|
      && masters == net.masters[id] && slaves == net.slaves[id] && applied == st.applied[id]
    }

    /** com_send_command_slaves */
    method SendToSlaves() returns (out: seq<Msg>)
      ensures out == ToSlaves(slaves)
    {
      out := [];
      for i := 0 to |slaves|
        invariant out == ToSlaves(slaves)[..i]
      {
        out := out + [SetTopology(slaves[i])];
      }
    }

    /** com_send_command_masters */
    method SendToMasters() returns (out: seq<Msg>)
      ensures out == ToMasters(masters)
    {
      out := [];
      for i := 0 to |masters|
        invariant out == ToMasters(masters)[..i]
      {
        out := out + [Model(masters[i])];
      }
    }

    /** agml_command_set_topology: exactly what the network does when this command arrives. */
    method OnSetTopology() returns (out: seq<Msg>)
      modifies this
      ensures masters == old(masters) && slaves == old(slaves) && applied == old(applied) + 1 && out == ToSlaves(slaves)
      ensures forall net, st, k: nat :: old(In(net, st)) && k < |st.flight| && st.flight[k] == SetTopology(id) ==>
        Deliver(net, st, k) == State(st.applied[id := applied], Without(st.flight, k) + out)
    {
      out := SendToSlaves();
      applied := applied + 1;
    }

    /** agml_command_model: the root starts the flood, any other daemon passes the request on. */
    method OnModel() returns (out: seq<Msg>)
      modifies this
      ensures masters == old(masters) && slaves == old(slaves)
      ensures forall net, st, k: nat :: old(In(net, st)) && k < |st.flight| && st.flight[k] == Model(id) ==>
        Deliver(net, st, k) == State(st.applied[id := applied], Without(st.flight, k) + out)
    {
      if masters == [] {
        out := OnSetTopology();
      } else {
        out := SendToMasters();
      }
    }

    /** agml_command_subscribe */
    method OnSubscribe(subscriber: nat)
      modifies `slaves
      ensures slaves == old(slaves) + [subscriber]
    {
      slaves := slaves + [subscriber];
    }

    /** agml_command_add_to_network: the inviter becomes a master and is no longer a slave. */
    method OnInvitation(inviter: nat)
      modifies `masters, `slaves
      ensures masters == old(masters) + [inviter] && slaves == Removed(old(slaves), inviter)
    {
      masters := masters + [inviter];
      Dismiss(inviter);
    }

    /** agml_command_root_welcome: in a forest the root that spoke was no slave, so the lists stay as they are. */
    method OnRootWelcome(host: nat)
      modifies `root, `slaves
      ensures root == Some(host) && slaves == Removed(old(slaves), host)
      ensures forall net, st, r :: old(In(net, st)) && Forest(net, r) && IsRoot(net, host) ==> In(net, st)
    {
      root := Some(host);
      ghost var before := slaves;
      Dismiss(host);
      forall net, st, r | old(In(net, st)) && Forest(net, r) && IsRoot(net, host) ensures slaves == before {
        RootIsNoSlave(net, r, host, id);
      }
    }

    /** Take the first occurrence of a daemon out of the slaves. */
    method Dismiss(inviter: nat)
      modifies `slaves
      ensures slaves == Removed(old(slaves), inviter)
    {
      var i := 0;
      while i < |slaves| && slaves[i] != inviter
        invariant i <= |slaves| && inviter !in slaves[..i]
      {
        i := i + 1;
      }
      if i < |slaves| {
        RemovedAt(slaves, inviter, i);
        slaves := slaves[..i] + slaves[i + 1..];
      }
    }

    /** com_enter_network: this daemon becomes a slave of peer. */
    method Enter(peer: Daemon)
      modifies this`masters, peer`slaves
      ensures masters == old(masters) + [peer.id] && peer.slaves == old(peer.slaves) + [id]
    {
      masters := masters + [peer.id];
      peer.OnSubscribe(id);
    }

    /** com_add_to_network: other becomes a slave of this daemon. */
    method Invite(other: Daemon)
      modifies this`slaves, other`masters, other`slaves
      ensures other.masters == old(other.masters) + [id]
      ensures var hired := old(slaves) + [other.id];
        && (other != this ==> slaves == hired && other.slaves == Removed(old(other.slaves), id))
        && (other == this ==> slaves == Removed(hired, id))
    {
      slaves := slaves + [other.id];
      other.OnInvitation(id);
    }
  }

  // ----- a network of daemons -----

  /** The objects are the daemons of the network. */
  ghost predicate Represent(ds: seq<Daemon>, net: Net)
    reads ds
  {
    && |ds| == |net.masters| == |net.slaves|
    && (forall i :: 0 <= i < |ds| ==>
          ds[i].id == i && ds[i].masters == net.masters[i] && ds[i].slaves == net.slaves[i])
  }

  /** One step of building the network, made by the daemons themselves. */
  method Build(ds: seq<Daemon>, b: Flood.Build, ghost net: Net)
    requires Represent(ds, net)
    modifies ds
    ensures Represent(ds, BuildStep(net, b))
  {
    match b
    case Enter(d, peer) =>
      if d < |ds| && peer < |ds| { ds[d].Enter(ds[peer]); }
    case Invite(host, other) =>
      if host < |ds| && other < |ds| { ds[host].Invite(ds[other]); }
  }

  /** What n daemons become by entering and inviting is the network built by the same steps. */
  method BuildAll(n: nat, bs: seq<Flood.Build>) returns (ds: seq<Daemon>)
    ensures fresh(ds) && Represent(ds, Built(n, bs))
  {
    ds := [];
    for i := 0 to n
      invariant fresh(ds) && Represent(ds, Alone(i))
    {
      var d := new Daemon(i);
      ds := ds + [d];
    }
    for k := 0 to |bs|
      invariant fresh(ds) && Represent(ds, Built(n, bs[..k]))
    {
      assert bs[..k + 1][..k] == bs[..k];
      Build(ds, bs[k], Built(n, bs[..k]));
    }
    assert bs[..|bs|] == bs;
  }
}
