/** What each kind of arrow in a model text means for the messages sent over it. */
module Arrows {
  import opened Vectors
  import opened Topologies
  import opened ModelReplay
  import opened Routing
  import Assignments

  lemma {:induction false} ConnectStep(d: Daemon, src: string, dst: string, kind: LinkKind, a: nat, b: nat)
    requires a < |d.groups| && d.groups[a].name == src && forall x :: 0 <= x < a ==> d.groups[x].name != src
    requires b < |d.groups| && d.groups[b].name == dst && forall x :: 0 <= x < b ==> d.groups[x].name != dst
    ensures Step(d, Connect(src, dst, kind)) == Ok(d.(groups := AddLink(d.groups, LinkOf(a, b, kind))))
  {
    Assignments.FoundFirst(Names(d.groups), src, a);
    Assignments.FoundFirst(Names(d.groups), dst, b);
  }

  /** What a new link leaves as it was. */
  ghost predicate SameMembers(before: seq<Group>, after: seq<Group>) {
    |after| == |before| && forall x :: 0 <= x < |before| ==>
      && after[x].hosts == before[x].hosts
      && after[x].nbNodes == before[x].nbNodes && after[x].nbLocal == before[x].nbLocal
  }

  lemma AddLinkMembers(gs: seq<Group>, l: Link)
    requires l.src < |gs| && l.dst < |gs|
    ensures SameMembers(gs, AddLink(gs, l))
  {
  }

  /** The daemon after a statement that connects group src to group dst, and the new link's place in src. */
  lemma {:induction false} ConnectsThem(d: Daemon, src: string, dst: string, kind: LinkKind, a: nat, b: nat)
    returns (k: nat)
    requires a < |d.groups| && d.groups[a].name == src && forall x :: 0 <= x < a ==> d.groups[x].name != src
    requires b < |d.groups| && d.groups[b].name == dst && forall x :: 0 <= x < b ==> d.groups[x].name != dst
    requires DaemonOk(d) && Linked(d.groups)
    ensures k == |d.groups[a].outs|
    ensures var r := Step(d, Connect(src, dst, kind));
      && r.Ok? && r.d.me == d.me && SameMembers(d.groups, r.d.groups)
      && r.d.groups[a].outs == d.groups[a].outs + [LinkOf(a, b, kind)]
      && Linked(r.d.groups) && DaemonOk(r.d)
  {
    var l := LinkOf(a, b, kind);
    k := |d.groups[a].outs|;
    ConnectStep(d, src, dst, kind, a, b);
    AddLinkAt(d.groups, l, a);
    AddLinkMembers(d.groups, l);
    AddLinkKeepsLinked(d.groups, l);
    ConnectViews(d, l);
  }

  /** The messages that local node s of group a sends over its link k, whatever index leads there. */
  ghost predicate Sent(d: Daemon, a: nat, s: nat, k: nat, t: Target)
    requires a < |d.groups| && Linked(d.groups)
  {
    t.link == k && exists i: nat :: Route(d, a, s, i) == Some(t)
  }

  /**
   Over the link made by src -L> dst every message stays on the sender's host.  Over one made by -> from a group
   to itself none comes back to its sender.  Over one made by -o> from a group to itself each node reaches itself.
   */
  lemma ArrowMeaning(d: Daemon, src: string, dst: string, kind: LinkKind, a: nat, b: nat, s: nat)
    requires a < |d.groups| && d.groups[a].name == src && forall x :: 0 <= x < a ==> d.groups[x].name != src
    requires b < |d.groups| && d.groups[b].name == dst && forall x :: 0 <= x < b ==> d.groups[x].name != dst
    requires DaemonOk(d) && Linked(d.groups) && s < d.groups[a].nbLocal
    ensures var r, k := Step(d, Connect(src, dst, kind)), |d.groups[a].outs|;
      && r.Ok? && a < |r.d.groups| && Linked(r.d.groups)
      && (kind == ToLocal ==> forall t :: Sent(r.d, a, s, k, t) ==> t.addr.host == d.me)
      && (kind == ToOthers && a == b ==> forall t :: Sent(r.d, a, s, k, t) ==> t.addr != Address(d.me, s))
      && (kind == ToAll && a == b ==> Sent(r.d, a, s, k, Target(k, Address(d.me, s))))
  {
    var k := ConnectsThem(d, src, dst, kind, a, b);
    var r := Step(d, Connect(src, dst, kind)).d;
    forall t | Sent(r, a, s, k, t)
      ensures kind == ToLocal ==> t.addr.host == d.me
      ensures kind == ToOthers && a == b ==> t.addr != Address(d.me, s)
    {
      var i: nat :| Route(r, a, s, i) == Some(t);
      RouteTotal(r, a, s, i);
      assert r.groups[a].outs[k] == LinkOf(a, b, kind);
    }
    if kind == ToAll && a == b { ReachesItself(r, a, s, k); }
  }

  lemma ReachesItself(d: Daemon, a: nat, s: nat, k: nat)
    requires Routable(d, a, s) && k < |d.groups[a].outs|
    requires var l := d.groups[a].outs[k]; l.dst == a && !ExcludesSelf(l) && !l.onlyLocal
    ensures Sent(d, a, s, k, Target(k, Address(d.me, s)))
  {
    assert GroupOk(d.me, d.groups[a]);
    var i := RoutedAt(d, a, s, k, s, Address(d.me, s));
    assert Route(d, a, s, i) == Some(Target(k, Address(d.me, s)));
  }

  /** Except over -L>, a link reaches every node of its target that it does not exclude, on whatever host. */
  lemma ArrowReaches(d: Daemon, src: string, dst: string, kind: LinkKind, a: nat, b: nat, s: nat, addr: Address)
    requires a < |d.groups| && d.groups[a].name == src && forall x :: 0 <= x < a ==> d.groups[x].name != src
    requires b < |d.groups| && d.groups[b].name == dst && forall x :: 0 <= x < b ==> d.groups[x].name != dst
    requires DaemonOk(d) && Linked(d.groups) && s < d.groups[a].nbLocal
    requires Exists(d.groups[b], addr) && (NoRepeats(d.groups[b].hosts) || kind == ToLocal)
    ensures var r, k := Step(d, Connect(src, dst, kind)), |d.groups[a].outs|;
      && r.Ok? && a < |r.d.groups| && Linked(r.d.groups)
      && (Sent(r.d, a, s, k, Target(k, addr)) <==>
            (kind == ToLocal ==> addr.host == d.me)
            && (a == b && kind != ToAll ==> addr != Address(d.me, s)))
  {
    var k := ConnectsThem(d, src, dst, kind, a, b);
    var r := Step(d, Connect(src, dst, kind)).d;
    var t := Target(k, addr);
    assert r.groups[a].outs[k] == LinkOf(a, b, kind);
    assert r.groups[b].hosts == d.groups[b].hosts;
    if GoodTarget(r, a, s, t) { RouteComplete(r, a, s, t); }
    if Sent(r, a, s, k, t) {
      var i: nat :| Route(r, a, s, i) == Some(t);
      RouteTotal(r, a, s, i);
    }
  }
}
