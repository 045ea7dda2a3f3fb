/**
 Groups of nodes, the links between them, and the degree counters that are updated incrementally when a
 link is added or a host joins a group.
 */
module Topologies {
  import opened Vectors

  /** A link between two groups, by group id. */
  datatype Link = Link(src: nat, dst: nat, allowSelf: bool, onlyLocal: bool)

  /** A node instantiated on this daemon. */
  datatype NodeRef = NodeRef(id: nat, thread: nat)

  /** One host's share of a group; nodes lists the instantiated ones and is empty for a remote host. */
  datatype GroupHost = GroupHost(host: string, local: bool, count: nat, nodes: seq<NodeRef>)

  datatype Group = Group(
    name: string, hosts: seq<GroupHost>, ins: seq<Link>, outs: seq<Link>,
    nbNodes: nat, nbLocal: nat, nbOut: int, nbIn: int)

  function NewGroup(name: string): Group {
    Group(name, [], [], [], 0, 0, 0, 0)
  }

  // ----- degrees -----

  predicate ExcludesSelf(l: Link) {
    !l.allowSelf && l.src == l.dst
  }

  /** How many of n nodes a link reaches. */
  function Reach(l: Link, n: nat): nat {
    if n == 0 then 0 else if ExcludesSelf(l) then n - 1 else n
  }

  /** get_nb_out: how many nodes of its destination a source node reaches. */
  function NbOut(gs: seq<Group>, l: Link): nat
    requires l.dst < |gs|
  {
    Reach(l, if l.onlyLocal then gs[l.dst].nbLocal else gs[l.dst].nbNodes)
  }

  /** get_nb_in */
  function NbIn(gs: seq<Group>, l: Link): nat
    requires l.src < |gs|
  {
    Reach(l, if l.onlyLocal then gs[l.src].nbLocal else gs[l.src].nbNodes)
  }

  function SumOver(ls: seq<Link>, f: Link -> int): int {
    if |ls| == 0 then 0 else SumOver(ls[..|ls| - 1], f) + f(ls[|ls| - 1])
  }

  function OutF(gs: seq<Group>): Link -> int {
    (l: Link) => if l.dst < |gs| then NbOut(gs, l) else 0
  }

  function InF(gs: seq<Group>): Link -> int {
    (l: Link) => if l.src < |gs| then NbIn(gs, l) else 0
  }

  /** The out-degree and in-degree of a group recomputed from its links. */
  function OutDegree(gs: seq<Group>, x: nat): int
    requires x < |gs|
  {
    SumOver(gs[x].outs, OutF(gs))
  }

  function InDegree(gs: seq<Group>, x: nat): int
    requires x < |gs|
  {
    SumOver(gs[x].ins, InF(gs))
  }

  /** The cached counters equal the recomputed degrees. */
  ghost predicate Cached(gs: seq<Group>) {
    forall x :: 0 <= x < |gs| ==> gs[x].nbOut == OutDegree(gs, x) && gs[x].nbIn == InDegree(gs, x)
  }

  // ----- operations, as functions of the group list -----

  /** What one link adds to the counter at its other end when h joins; first: the group had no node yet. */
  function Inc(l: Link, h: GroupHost, first: bool): int {
    if l.onlyLocal && !h.local then 0
    else if ExcludesSelf(l) && first then h.count - 1
    else h.count
  }

  function IncFrom(x: nat, h: GroupHost, first: bool): Link -> int {
    (l: Link) => if l.src == x then Inc(l, h, first) else 0
  }

  function IncTo(x: nat, h: GroupHost, first: bool): Link -> int {
    (l: Link) => if l.dst == x then Inc(l, h, first) else 0
  }

  function Joined(p: Group, h: GroupHost): Group {
    p.(hosts := p.hosts + [h], nbNodes := p.nbNodes + h.count, nbLocal := p.nbLocal + if h.local then h.count else 0)
  }

  /** Host h joins group g: every group linked to g adjusts its counters. */
  function AddHost(gs: seq<Group>, g: nat, h: GroupHost): (r: seq<Group>)
    requires g < |gs|
    ensures |r| == |gs|
  {
    var first := gs[g].nbNodes == 0;
    seq(|gs|, x requires 0 <= x < |gs| =>
      var p := gs[x].(nbOut := gs[x].nbOut + SumOver(gs[g].ins, IncFrom(x, h, first)),
                      nbIn := gs[x].nbIn + SumOver(gs[g].outs, IncTo(x, h, first)));
      if x == g then Joined(p, h) else p)
  }

  function AddLink(gs: seq<Group>, l: Link): (r: seq<Group>)
    requires l.src < |gs| && l.dst < |gs|
    ensures |r| == |gs|
  {
    var s := gs[l.src := gs[l.src].(outs := gs[l.src].outs + [l], nbOut := gs[l.src].nbOut + NbOut(gs, l))];
    s[l.dst := s[l.dst].(ins := s[l.dst].ins + [l], nbIn := s[l.dst].nbIn + NbIn(gs, l))]
  }

  // ----- links and their mirror images -----

  function LinksTo(ls: seq<Link>, y: nat): seq<Link> {
    if |ls| == 0 then [] else
    LinksTo(ls[..|ls| - 1], y) + (if ls[|ls| - 1].dst == y then [ls[|ls| - 1]] else [])
  }

  function LinksFrom(ls: seq<Link>, x: nat): seq<Link> {
    if |ls| == 0 then [] else
    LinksFrom(ls[..|ls| - 1], x) + (if ls[|ls| - 1].src == x then [ls[|ls| - 1]] else [])
  }

  /** Every link is listed by both its ends, in the same order. */
  ghost predicate Linked(gs: seq<Group>) {
    && (forall x :: 0 <= x < |gs| ==> forall l :: l in gs[x].outs ==> l.src == x && l.dst < |gs|)
    && (forall x :: 0 <= x < |gs| ==> forall l :: l in gs[x].ins ==> l.dst == x && l.src < |gs|)
    && (forall x, y :: 0 <= x < |gs| && 0 <= y < |gs| ==> LinksTo(gs[x].outs, y) == LinksFrom(gs[y].ins, x))
  }

  lemma PushLink(ls: seq<Link>, l: Link, f: Link -> int, x: nat)
    ensures SumOver(ls + [l], f) == SumOver(ls, f) + f(l)
    ensures LinksTo(ls + [l], x) == LinksTo(ls, x) + (if l.dst == x then [l] else [])
    ensures LinksFrom(ls + [l], x) == LinksFrom(ls, x) + (if l.src == x then [l] else [])
  {
    assert (ls + [l])[..|ls|] == ls;
  }

  lemma {:induction false} SumSame(ls: seq<Link>, f: Link -> int, g: Link -> int)
    requires forall l :: l in ls ==> f(l) == g(l)
    ensures SumOver(ls, f) == SumOver(ls, g)
  {
    if |ls| > 0 { SumSame(ls[..|ls| - 1], f, g); }
  }

  lemma {:induction false} SumAdd(ls: seq<Link>, f: Link -> int, a: Link -> int, b: Link -> int, c: Link -> int)
    requires forall l :: l in ls ==> f(l) == a(l) + b(l) + c(l)
    ensures SumOver(ls, f) == SumOver(ls, a) + SumOver(ls, b) + SumOver(ls, c)
  {
    if |ls| > 0 { SumAdd(ls[..|ls| - 1], f, a, b, c); }
  }

  /** Summing over all links a term that vanishes elsewhere is summing over the links that matter. */
  lemma {:induction false} SumLinksTo(ls: seq<Link>, y: nat, f: Link -> int)
    requires forall l :: l in ls && l.dst != y ==> f(l) == 0
    ensures SumOver(ls, f) == SumOver(LinksTo(ls, y), f)
  {
    if |ls| > 0 {
      var n := |ls| - 1;
      SumLinksTo(ls[..n], y, f);
      PushLink(LinksTo(ls[..n], y), ls[n], f, y);
      assert LinksTo(ls[..n], y) + [] == LinksTo(ls[..n], y);
      assert ls[n] in ls;
    }
  }

  lemma {:induction false} SumLinksFrom(ls: seq<Link>, x: nat, f: Link -> int)
    requires forall l :: l in ls && l.src != x ==> f(l) == 0
    ensures SumOver(ls, f) == SumOver(LinksFrom(ls, x), f)
  {
    if |ls| > 0 {
      var n := |ls| - 1;
      SumLinksFrom(ls[..n], x, f);
      PushLink(LinksFrom(ls[..n], x), ls[n], f, x);
      assert LinksFrom(ls[..n], x) + [] == LinksFrom(ls[..n], x);
      assert ls[n] in ls;
    }
  }

  lemma {:induction false} LinksToMembers(ls: seq<Link>, y: nat)
    ensures forall l :: l in LinksTo(ls, y) <==> l in ls && l.dst == y
  {
    if |ls| > 0 {
      LinksToMembers(ls[..|ls| - 1], y);
      assert ls == ls[..|ls| - 1] + [ls[|ls| - 1]];
    }
  }

  lemma {:induction false} LinksFromMembers(ls: seq<Link>, x: nat)
    ensures forall l :: l in LinksFrom(ls, x) <==> l in ls && l.src == x
  {
    if |ls| > 0 {
      LinksFromMembers(ls[..|ls| - 1], x);
      assert ls == ls[..|ls| - 1] + [ls[|ls| - 1]];
    }
  }

  // ----- connecting keeps the counters -----

  lemma AddLinkKeepsLinked(gs: seq<Group>, l: Link)
    requires Linked(gs) && l.src < |gs| && l.dst < |gs|
    ensures Linked(AddLink(gs, l))
  {
    var r := AddLink(gs, l);
    forall x, y | 0 <= x < |gs| && 0 <= y < |gs|
      ensures LinksTo(r[x].outs, y) == LinksFrom(r[y].ins, x)
    {
      PushLink(gs[x].outs, l, OutF(gs), y);
      PushLink(gs[y].ins, l, OutF(gs), x);
      assert LinksTo(gs[x].outs, y) == LinksFrom(gs[y].ins, x);
    }
  }

  lemma AddLinkAt(gs: seq<Group>, l: Link, x: nat)
    requires l.src < |gs| && l.dst < |gs| && x < |gs|
    ensures var r := AddLink(gs, l);
      && r[x].nbNodes == gs[x].nbNodes && r[x].nbLocal == gs[x].nbLocal
      && r[x].outs == gs[x].outs + (if x == l.src then [l] else [])
      && r[x].ins == gs[x].ins + (if x == l.dst then [l] else [])
      && r[x].nbOut == gs[x].nbOut + (if x == l.src then NbOut(gs, l) else 0)
      && r[x].nbIn == gs[x].nbIn + (if x == l.dst then NbIn(gs, l) else 0)
  {
  }

  /** A new link changes no other link's degree. */
  lemma AddLinkOthers(gs: seq<Group>, l: Link, m: Link)
    requires l.src < |gs| && l.dst < |gs|
    ensures OutF(AddLink(gs, l))(m) == OutF(gs)(m) && InF(AddLink(gs, l))(m) == InF(gs)(m)
  {
    if m.dst < |gs| { AddLinkAt(gs, l, m.dst); }
    if m.src < |gs| { AddLinkAt(gs, l, m.src); }
  }

  /** Counters and true degrees grow alike. */
  lemma AddLinkDegrees(gs: seq<Group>, l: Link, x: nat)
    requires l.src < |gs| && l.dst < |gs| && x < |gs|
    ensures var r := AddLink(gs, l);
      && r[x].nbOut - OutDegree(r, x) == gs[x].nbOut - OutDegree(gs, x)
      && r[x].nbIn - InDegree(r, x) == gs[x].nbIn - InDegree(gs, x)
  {
    var r := AddLink(gs, l);
    AddLinkAt(gs, l, x);
    forall m: Link ensures OutF(gs)(m) == OutF(r)(m) && InF(gs)(m) == InF(r)(m) {
      AddLinkOthers(gs, l, m);
    }
    SumSame(gs[x].outs, OutF(gs), OutF(r));
    SumSame(gs[x].ins, InF(gs), InF(r));
    PushLink(gs[x].outs, l, OutF(r), x);
    PushLink(gs[x].ins, l, InF(r), x);
    assert gs[x].outs + [] == gs[x].outs && gs[x].ins + [] == gs[x].ins;
  }

  /** Connecting two groups always keeps the cached degrees exact. */
  lemma AddLinkKeepsDegrees(gs: seq<Group>, l: Link)
    requires Cached(gs) && l.src < |gs| && l.dst < |gs|
    ensures Cached(AddLink(gs, l))
  {
    forall x | 0 <= x < |gs|
      ensures AddLink(gs, l)[x].nbOut == OutDegree(AddLink(gs, l), x)
      ensures AddLink(gs, l)[x].nbIn == InDegree(AddLink(gs, l), x)
    {
      AddLinkDegrees(gs, l, x);
    }
  }

  // ----- a host joins: the exact condition -----

  /** What the counter of one link misses when h joins a group with n nodes, of them k local. */
  function Miss(l: Link, n: nat, k: nat, h: GroupHost): int {
    (if l.onlyLocal then Reach(l, if h.local then k + h.count else k) - Reach(l, k)
     else Reach(l, n + h.count) - Reach(l, n)) - Inc(l, h, n == 0)
  }

  /** The very first host of a self-excluding link to its own group brings no node. */
  predicate EmptyFirst(l: Link, n: nat, h: GroupHost) {
    ExcludesSelf(l) && (l.onlyLocal ==> h.local) && n == 0 && h.count == 0
  }

  /** The first local nodes of a -L> link from a group to itself come after remote ones. */
  predicate LateLocal(l: Link, n: nat, k: nat, h: GroupHost) {
    ExcludesSelf(l) && l.onlyLocal && h.local && k == 0 && n > 0 && h.count > 0
  }

  /** The increment is right in all other cases. */
  predicate Faithful(l: Link, n: nat, k: nat, h: GroupHost) {
    !EmptyFirst(l, n, h) && !LateLocal(l, n, k, h)
  }

  /** An empty first host leaves the counter one short, a late local one leaves it one too high. */
  lemma FaithfulExactly(l: Link, n: nat, k: nat, h: GroupHost)
    requires k <= n
    ensures Miss(l, n, k, h) == if EmptyFirst(l, n, h) then 1 else if LateLocal(l, n, k, h) then -1 else 0
    ensures Faithful(l, n, k, h) <==> Miss(l, n, k, h) == 0
    ensures h.count == 0 ==> Miss(l, n, k, h) >= 0
    ensures h.count > 0 ==> Miss(l, n, k, h) <= 0
  {
  }

  function MissTo(y: nat, n: nat, k: nat, h: GroupHost): Link -> int {
    (l: Link) => if l.dst == y then Miss(l, n, k, h) else 0
  }

  function MissFrom(x: nat, n: nat, k: nat, h: GroupHost): Link -> int {
    (l: Link) => if l.src == x then Miss(l, n, k, h) else 0
  }

  lemma {:induction false} SumSign(ls: seq<Link>, f: Link -> int, positive: bool)
    requires forall l :: l in ls ==> if positive then f(l) >= 0 else f(l) <= 0
    ensures if positive then SumOver(ls, f) >= 0 else SumOver(ls, f) <= 0
    ensures SumOver(ls, f) == 0 <==> forall l :: l in ls ==> f(l) == 0
  {
    if |ls| > 0 {
      var n := |ls| - 1;
      SumSign(ls[..n], f, positive);
      assert ls == ls[..n] + [ls[n]];
    }
  }

  lemma AddHostAt(gs: seq<Group>, g: nat, h: GroupHost, x: nat)
    requires g < |gs| && x < |gs|
    ensures var r, first := AddHost(gs, g, h), gs[g].nbNodes == 0;
      && r[x].outs == gs[x].outs && r[x].ins == gs[x].ins && r[x].name == gs[x].name
      && r[x].nbOut == gs[x].nbOut + SumOver(gs[g].ins, IncFrom(x, h, first))
      && r[x].nbIn == gs[x].nbIn + SumOver(gs[g].outs, IncTo(x, h, first))
      && r[x].nbNodes == gs[x].nbNodes + (if x == g then h.count else 0)
      && r[x].nbLocal == gs[x].nbLocal + (if x == g && h.local then h.count else 0)
      && r[x].hosts == gs[x].hosts + (if x == g then [h] else [])
  {
    assert gs[x].hosts + [] == gs[x].hosts;
  }

  /** What one link's true degree gains when h joins g. */
  lemma OutGain(gs: seq<Group>, g: nat, h: GroupHost, l: Link)
    requires g < |gs| && l.dst < |gs|
    ensures OutF(AddHost(gs, g, h))(l)
         == OutF(gs)(l) + IncTo(g, h, gs[g].nbNodes == 0)(l) + MissTo(g, gs[g].nbNodes, gs[g].nbLocal, h)(l)
  {
    AddHostAt(gs, g, h, l.dst);
  }

  lemma InGain(gs: seq<Group>, g: nat, h: GroupHost, l: Link)
    requires g < |gs| && l.src < |gs|
    ensures InF(AddHost(gs, g, h))(l)
         == InF(gs)(l) + IncFrom(g, h, gs[g].nbNodes == 0)(l) + MissFrom(g, gs[g].nbNodes, gs[g].nbLocal, h)(l)
  {
    AddHostAt(gs, g, h, l.src);
  }

  /** How much farther the counters of group x are off after h has joined group g. */
  lemma CounterGap(gs: seq<Group>, g: nat, h: GroupHost, x: nat)
    requires Linked(gs) && g < |gs| && x < |gs|
    ensures var r, n, k := AddHost(gs, g, h), gs[g].nbNodes, gs[g].nbLocal;
      && OutDegree(r, x) - r[x].nbOut == OutDegree(gs, x) - gs[x].nbOut + SumOver(gs[x].outs, MissTo(g, n, k, h))
      && InDegree(r, x) - r[x].nbIn == InDegree(gs, x) - gs[x].nbIn + SumOver(gs[x].ins, MissFrom(g, n, k, h))
  {
    var r := AddHost(gs, g, h);
    var n, k, first := gs[g].nbNodes, gs[g].nbLocal, gs[g].nbNodes == 0;
    AddHostAt(gs, g, h, x);
    forall l | l in gs[x].outs
      ensures OutF(r)(l) == OutF(gs)(l) + IncTo(g, h, first)(l) + MissTo(g, n, k, h)(l)
    {
      OutGain(gs, g, h, l);
    }
    forall l | l in gs[x].ins
      ensures InF(r)(l) == InF(gs)(l) + IncFrom(g, h, first)(l) + MissFrom(g, n, k, h)(l)
    {
      InGain(gs, g, h, l);
    }
    SumAdd(gs[x].outs, OutF(r), OutF(gs), IncTo(g, h, first), MissTo(g, n, k, h));
    SumAdd(gs[x].ins, InF(r), InF(gs), IncFrom(g, h, first), MissFrom(g, n, k, h));
    IncMirrors(gs, g, h, x, first);
  }

  /** What x's links to g gain is what g's links from x add to x's counter, and the other way round. */
  lemma IncMirrors(gs: seq<Group>, g: nat, h: GroupHost, x: nat, first: bool)
    requires Linked(gs) && g < |gs| && x < |gs|
    ensures SumOver(gs[x].outs, IncTo(g, h, first)) == SumOver(gs[g].ins, IncFrom(x, h, first))
    ensures SumOver(gs[x].ins, IncFrom(g, h, first)) == SumOver(gs[g].outs, IncTo(x, h, first))
  {
    SumLinksTo(gs[x].outs, g, IncTo(g, h, first));
    SumLinksFrom(gs[g].ins, x, IncFrom(x, h, first));
    LinksToMembers(gs[x].outs, g);
    SumSame(LinksTo(gs[x].outs, g), IncTo(g, h, first), IncFrom(x, h, first));
    SumLinksFrom(gs[x].ins, g, IncFrom(g, h, first));
    SumLinksTo(gs[g].outs, x, IncTo(x, h, first));
    LinksFromMembers(gs[x].ins, g);
    SumSame(LinksFrom(gs[x].ins, g), IncFrom(g, h, first), IncTo(x, h, first));
  }

  /** The counters of group x stay exact if and only if h is faithful to every link between x and g. */
  lemma CountersStay(gs: seq<Group>, g: nat, h: GroupHost, x: nat)
    requires Linked(gs) && Cached(gs) && g < |gs| && gs[g].nbLocal <= gs[g].nbNodes && x < |gs|
    ensures var r, n, k := AddHost(gs, g, h), gs[g].nbNodes, gs[g].nbLocal;
      && (r[x].nbOut == OutDegree(r, x) <==> forall l :: l in gs[x].outs && l.dst == g ==> Faithful(l, n, k, h))
      && (r[x].nbIn == InDegree(r, x) <==> forall l :: l in gs[x].ins && l.src == g ==> Faithful(l, n, k, h))
  {
    var n, k := gs[g].nbNodes, gs[g].nbLocal;
    CounterGap(gs, g, h, x);
    forall l: Link
      ensures if h.count == 0 then Miss(l, n, k, h) >= 0 else Miss(l, n, k, h) <= 0
      ensures Faithful(l, n, k, h) <==> Miss(l, n, k, h) == 0
    {
      FaithfulExactly(l, n, k, h);
    }
    SumSign(gs[x].outs, MissTo(g, n, k, h), h.count == 0);
    SumSign(gs[x].ins, MissFrom(g, n, k, h), h.count == 0);
    assert forall l :: l in gs[x].outs && l.dst == g ==> MissTo(g, n, k, h)(l) == Miss(l, n, k, h);
    assert forall l :: l in gs[x].ins && l.src == g ==> MissFrom(g, n, k, h)(l) == Miss(l, n, k, h);
  }

  /** A joining host keeps every cached degree exact if and only if it is faithful to every link of its group. */
  lemma AddHostKeepsDegrees(gs: seq<Group>, g: nat, h: GroupHost)
    requires Linked(gs) && Cached(gs) && g < |gs| && gs[g].nbLocal <= gs[g].nbNodes
    ensures Cached(AddHost(gs, g, h)) <==>
      forall l :: l in gs[g].outs ==> Faithful(l, gs[g].nbNodes, gs[g].nbLocal, h)
  {
    forall x | 0 <= x < |gs|
      ensures var r, n, k := AddHost(gs, g, h), gs[g].nbNodes, gs[g].nbLocal;
        && (r[x].nbOut == OutDegree(r, x) <==> forall l :: l in gs[x].outs && l.dst == g ==> Faithful(l, n, k, h))
        && (r[x].nbIn == InDegree(r, x) <==> forall l :: l in gs[x].ins && l.src == g ==> Faithful(l, n, k, h))
    {
      CountersStay(gs, g, h, x);
    }
    SelfLinksDecide(gs, g, gs[g].nbNodes, gs[g].nbLocal, h);
  }

  /** One group with a single link to itself, on which a remote host has n nodes. */
  function Loop(l: Link, n: nat): seq<Group> {
    var degree := Reach(l, if l.onlyLocal then 0 else n);
    [Group("g", [GroupHost("b", false, n, [])], [l], [l], n, 0, degree, degree)]
  }

  /** A first host without nodes drives the counter of a self-excluding link to -1. */
  lemma EmptyFirstHost()
    ensures var gs := Loop(Link(0, 0, false, false), 0);
      Linked(gs) && Cached(gs) && AddHost(gs, 0, GroupHost("c", false, 0, []))[0].nbOut == -1
  {
    var l := Link(0, 0, false, false);
    OneLink(l);
    AddHostAt(Loop(l, 0), 0, GroupHost("c", false, 0, []), 0);
  }

  /** A local host that comes after a remote one makes a node of a -L> loop count itself. */
  lemma LateLocalHost()
    ensures var gs := Loop(Link(0, 0, false, true), 1);
      var r := AddHost(gs, 0, GroupHost("a", true, 1, [NodeRef(0, 0)]));
      Linked(gs) && Cached(gs) && r[0].nbOut == 1 && OutDegree(r, 0) == 0
  {
    var l := Link(0, 0, false, true);
    OneLink(l);
    AddHostAt(Loop(l, 1), 0, GroupHost("a", true, 1, [NodeRef(0, 0)]), 0);
  }

  lemma OneLink(l: Link)
    ensures forall f: Link -> int :: SumOver([l], f) == f(l)
    ensures forall x :: LinksTo([l], x) == if l.dst == x then [l] else []
    ensures forall x :: LinksFrom([l], x) == if l.src == x then [l] else []
  {
    assert [l][..0] == [];
  }

  /** Only links from a group to itself can be unfaithful, and both ends list the same ones. */
  lemma SelfLinksDecide(gs: seq<Group>, g: nat, n: nat, k: nat, h: GroupHost)
    requires Linked(gs) && g < |gs| && k <= n
    ensures var all := forall l :: l in gs[g].outs ==> Faithful(l, n, k, h);
      && (all <==> forall x :: 0 <= x < |gs| ==> forall l :: l in gs[x].outs && l.dst == g ==> Faithful(l, n, k, h))
      && (all ==> forall x :: 0 <= x < |gs| ==> forall l :: l in gs[x].ins && l.src == g ==> Faithful(l, n, k, h))
  {
    LinksToMembers(gs[g].outs, g);
    LinksFromMembers(gs[g].ins, g);
    assert LinksTo(gs[g].outs, g) == LinksFrom(gs[g].ins, g);
    if forall l :: l in gs[g].outs ==> Faithful(l, n, k, h) {
      forall x, l | 0 <= x < |gs| && l in gs[x].ins && l.src == g
        ensures Faithful(l, n, k, h)
      {
        if x == g { assert l in LinksFrom(gs[g].ins, g); }
      }
    }
  }

  /** Linked depends on the link lists only. */
  lemma SameLinks(gs: seq<Group>, r: seq<Group>)
    requires Linked(gs) && |r| == |gs|
    requires forall x :: 0 <= x < |gs| ==> r[x].outs == gs[x].outs && r[x].ins == gs[x].ins
    ensures Linked(r)
  {
    forall x, y | 0 <= x < |gs| && 0 <= y < |gs|
      ensures LinksTo(r[x].outs, y) == LinksFrom(r[y].ins, x)
    {
      assert LinksTo(gs[x].outs, y) == LinksFrom(gs[y].ins, x);
    }
  }

  lemma AddHostKeepsLinked(gs: seq<Group>, g: nat, h: GroupHost)
    requires Linked(gs) && g < |gs|
    ensures Linked(AddHost(gs, g, h))
  {
    var r := AddHost(gs, g, h);
    forall x | 0 <= x < |gs|
      ensures r[x].outs == gs[x].outs && r[x].ins == gs[x].ins
    {
      AddHostAt(gs, g, h, x);
    }
    SameLinks(gs, r);
  }
}
