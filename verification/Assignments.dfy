/**
 What assignments do: how many nodes they give each host, on which threads these run, and how the loads of the
 threads follow.
 */
module Assignments {
  import opened Vectors
  import opened Threads
  import opened Topologies
  import opened ModelReplay
  import opened Replicas

  // ----- how many nodes -----

  /** Entry h of a group is host's share of nb nodes: here, if host is me, with as many nodes, or remote. */
  ghost predicate ShareOf(me: string, h: GroupHost, host: string, nb: nat) {
    && h.host == host && h.count == nb && (h.local <==> host == me)
    && |h.nodes| == if h.local then nb else 0
  }

  /** Group g has got the host entry h and nothing else has changed in the hosts of any group. */
  ghost predicate Joins(before: seq<Group>, after: seq<Group>, g: nat, h: GroupHost) {
    && |after| == |before| && g < |before|
    && after[g].hosts == before[g].hosts + [h]
    && after[g].nbNodes == before[g].nbNodes + h.count
    && after[g].nbLocal == before[g].nbLocal + (if h.local then h.count else 0)
    && (forall x :: 0 <= x < |before| && x != g ==>
          && after[x].hosts == before[x].hosts
          && after[x].nbNodes == before[x].nbNodes && after[x].nbLocal == before[x].nbLocal)
  }

  lemma AddHostJoins(gs: seq<Group>, g: nat, h: GroupHost)
    requires g < |gs|
    ensures Joins(gs, AddHost(gs, g, h), g, h)
  {
    forall x | 0 <= x < |gs| ensures AddHost(gs, g, h)[x].hosts == gs[x].hosts + (if x == g then [h] else []) {
      AddHostAt(gs, g, h, x);
    }
    forall x | 0 <= x < |gs| && x != g ensures AddHost(gs, g, h)[x].hosts == gs[x].hosts {
      assert gs[x].hosts + [] == gs[x].hosts;
    }
  }

  /**
   An assignment to one host gives it nb nodes, or nb for each of the host's threads when it is made to all
   threads, and changes no other group.
   */
  lemma AssignOneCounts(d: Daemon, g: nat, dh: DataHost, threads: ThreadSpec, nb: nat) returns (h: GroupHost)
    requires g < |d.groups| && AssignOne(d, g, dh, threads, nb).Ok?
    ensures ShareOf(d.me, h, dh.name, if threads.EveryThread? then nb * dh.nbThreads else nb)
    ensures Joins(d.groups, AssignOne(d, g, dh, threads, nb).d.groups, g, h)
  {
    var want := Wanted(dh, threads, nb);
    if dh.name != d.me {
      h := GroupHost(dh.name, false, want, []);
    } else {
      h := LocalHost(d.groups, g, d.me, Place(d.loads, threads, want).value);
    }
    AddHostJoins(d.groups, g, h);
  }

  /** A named assignment in a text: the first group of that name gets the share of the host. */
  lemma NamedAssignCounts(d: Daemon, group: string, host: string, threads: ThreadSpec, nb: nat, g: nat)
    returns (dh: DataHost, h: GroupHost)
    requires Step(d, Assign(group, Named(host), threads, nb)).Ok?
    requires g < |d.groups| && d.groups[g].name == group && forall x :: 0 <= x < g ==> d.groups[x].name != group
    ensures dh in d.dataHosts && dh.name == host
    ensures ShareOf(d.me, h, host, if threads.EveryThread? then nb * dh.nbThreads else nb)
    ensures Joins(d.groups, Step(d, Assign(group, Named(host), threads, nb)).d.groups, g, h)
  {
    FoundFirst(Names(d.groups), group, g);
    dh := FindHost(d.dataHosts, host).value;
    h := AssignOneCounts(d, g, dh, threads, nb);
  }

  lemma {:induction false} FoundFirst(names: seq<string>, group: string, g: nat)
    requires g < |names| && names[g] == group && forall x :: 0 <= x < g ==> names[x] != group
    ensures FindGroup(names, group) == Some(g)
  {
    if g > 0 { FoundFirst(names[1..], group, g - 1); }
  }

  /** The entries after are those before, followed by the share of each data host in turn. */
  ghost predicate SharesAdded(
    me: string, before: seq<GroupHost>, after: seq<GroupHost>, dhs: seq<DataHost>, threads: ThreadSpec, nb: nat)
  {
    if |dhs| == 0 then after == before else
    var dh := dhs[|dhs| - 1];
    && |after| > 0 && SharesAdded(me, before, after[..|after| - 1], dhs[..|dhs| - 1], threads, nb)
    && ShareOf(me, after[|after| - 1], dh.name, if threads.EveryThread? then nb * dh.nbThreads else nb)
  }

  /** A wildcard assignment gives every data host its share, in the order of their declaration. */
  lemma {:induction false} WildcardCounts(d: Daemon, g: nat, dhs: seq<DataHost>, threads: ThreadSpec, nb: nat)
    requires g < |d.groups| && AssignEach(d, g, dhs, threads, nb).Ok?
    ensures var r := AssignEach(d, g, dhs, threads, nb).d;
      && r.me == d.me && |r.groups| == |d.groups|
      && SharesAdded(d.me, d.groups[g].hosts, r.groups[g].hosts, dhs, threads, nb)
      && (forall x :: 0 <= x < |d.groups| && x != g ==> r.groups[x].hosts == d.groups[x].hosts)
  {
    if |dhs| > 0 {
      var n := |dhs| - 1;
      WildcardCounts(d, g, dhs[..n], threads, nb);
      var before := AssignEach(d, g, dhs[..n], threads, nb).d;
      var h := AssignOneCounts(before, g, dhs[n], threads, nb);
      assert (before.groups[g].hosts + [h])[..|before.groups[g].hosts|] == before.groups[g].hosts;
    }
  }

  /**
   A same-as assignment gives each host as many nodes as it has in the other group, up to the limit if there is
   one, and puts node i of this daemon on the thread of node i of the other group.
   */
  lemma SameCounts(d: Daemon, g: nat, o: GroupHost, limit: Option<nat>) returns (h: GroupHost)
    requires g < |d.groups| && (o.local ==> |o.nodes| == o.count && o.host == d.me)
    ensures Joins(d.groups, JoinSame(d, g, o, limit).groups, g, h) && JoinSame(d, g, o, limit).me == d.me
    ensures h.host == o.host && h.local == o.local && h.count <= o.count
    ensures limit.Some? ==> h.count <= limit.value && (h.count == limit.value || h.count == o.count)
    ensures limit.None? ==> h.count == o.count
    ensures h.local ==> |h.nodes| == h.count && forall i :: 0 <= i < h.count ==> h.nodes[i].thread == o.nodes[i].thread
  {
    if o.local {
      h := LocalHost(d.groups, g, d.me, SameThreads(o, limit));
    } else {
      h := GroupHost(o.host, false, Min(limit, o.count), []);
    }
    AddHostJoins(d.groups, g, h);
  }

  /** Each node runs on the same thread as its model. */
  ghost predicate SameThread(a: seq<NodeRef>, b: seq<NodeRef>) {
    |a| <= |b| && forall i :: 0 <= i < |a| ==> a[i].thread == b[i].thread
  }

  /** Entry h repeats entry o up to the limit. */
  ghost predicate Repeats(h: GroupHost, o: GroupHost, limit: Option<nat>) {
    && h.host == o.host && h.local == o.local
    && h.count == (if limit.Some? && limit.value < o.count then limit.value else o.count)
    && (h.local ==> |h.nodes| == h.count <= |o.nodes| && SameThread(h.nodes, o.nodes))
  }

  /** The entries after are those before, followed by a repetition of each of the others in turn. */
  ghost predicate RepeatsAdded(
    before: seq<GroupHost>, after: seq<GroupHost>, others: seq<GroupHost>, limit: Option<nat>)
  {
    if |others| == 0 then after == before else
    && |after| > 0 && RepeatsAdded(before, after[..|after| - 1], others[..|others| - 1], limit)
    && Repeats(after[|after| - 1], others[|others| - 1], limit)
  }

  lemma RepeatsOneMore(
    before: seq<GroupHost>, after: seq<GroupHost>, h: GroupHost, others: seq<GroupHost>, limit: Option<nat>)
    requires |others| > 0 && RepeatsAdded(before, after, others[..|others| - 1], limit)
    requires Repeats(h, others[|others| - 1], limit)
    ensures RepeatsAdded(before, after + [h], others, limit)
  {
    assert (after + [h])[..|after|] == after;
  }

  lemma {:induction false} SameEachCounts(d: Daemon, g: nat, hosts: seq<GroupHost>, limit: Option<nat>)
    requires g < |d.groups| && HostsOk(d.me, hosts)
    ensures var r := AssignSameEach(d, g, hosts, limit);
      r.me == d.me && RepeatsAdded(d.groups[g].hosts, r.groups[g].hosts, hosts, limit)
  {
    if |hosts| > 0 {
      var n := |hosts| - 1;
      HostsOkPrefix(d.me, hosts, n);
      SameEachCounts(d, g, hosts[..n], limit);
      var before := AssignSameEach(d, g, hosts[..n], limit);
      var h := SameCounts(before, g, hosts[n], limit);
      RepeatsOneMore(d.groups[g].hosts, before.groups[g].hosts, h, hosts, limit);
    }
  }

  /** A same-as assignment in a text repeats every host of the other group, in its order. */
  lemma {:induction false} SameAssignCounts(d: Daemon, group: string, ref: string, limit: Option<nat>, g: nat, r: nat)
    requires DaemonOk(d) && g < |d.groups| && r < |d.groups| && g != r
    requires d.groups[g].name == group && forall x :: 0 <= x < g ==> d.groups[x].name != group
    requires d.groups[r].name == ref && forall x :: 0 <= x < r ==> d.groups[x].name != ref
    ensures var t := Step(d, AssignSame(group, ref, limit));
      t.Ok? && RepeatsAdded(d.groups[g].hosts, t.d.groups[g].hosts, d.groups[r].hosts, limit)
  {
    FoundFirst(Names(d.groups), group, g);
    FoundFirst(Names(d.groups), ref, r);
    SameStep(d, group, ref, limit, g, r);
    assert GroupOk(d.me, d.groups[r]);
    SameEachCounts(d, g, d.groups[r].hosts, limit);
  }

  lemma {:induction false} SameStep(d: Daemon, group: string, ref: string, limit: Option<nat>, g: nat, r: nat)
    requires g < |d.groups| && r < |d.groups| && g != r
    requires FindGroup(Names(d.groups), group) == Some(g) && FindGroup(Names(d.groups), ref) == Some(r)
    ensures Step(d, AssignSame(group, ref, limit)) == Ok(AssignSameEach(d, g, d.groups[r].hosts, limit))
  {
  }

  /** A wildcard assignment in a text: the first group of that name gets the share of every data host. */
  lemma {:induction false} WildcardAssignCounts(d: Daemon, group: string, threads: ThreadSpec, nb: nat, g: nat)
    requires Step(d, Assign(group, Wildcard, threads, nb)).Ok?
    requires g < |d.groups| && d.groups[g].name == group && forall x :: 0 <= x < g ==> d.groups[x].name != group
    ensures var r := Step(d, Assign(group, Wildcard, threads, nb)).d;
      && |r.groups| == |d.groups|
      && SharesAdded(d.me, d.groups[g].hosts, r.groups[g].hosts, d.dataHosts, threads, nb)
      && (forall x :: 0 <= x < |d.groups| && x != g ==> r.groups[x].hosts == d.groups[x].hosts)
  {
    FoundFirst(Names(d.groups), group, g);
    WildcardCounts(d, g, d.dataHosts, threads, nb);
  }

  // ----- on which threads -----

  /** A placement on a given thread puts every node there; no other load changes. */
  lemma OnThreadLoads(loads: seq<nat>, th: nat, nb: nat)
    requires Place(loads, OnThread(th), nb).Some?
    ensures var p := Place(loads, OnThread(th), nb).value;
      && (forall i :: 0 <= i < |p| ==> p[i] == th)
      && (forall t :: 0 <= t < |loads| ==> Placed(loads, p)[t] == loads[t] + (if t == th then nb else 0))
  {
    if nb > 0 {
      forall t | 0 <= t < |loads|
        ensures Placed(loads, Repeat(th, nb))[t] == loads[t] + (if t == th then nb else 0)
      {
        RepeatCount(th, nb, t);
      }
    }
  }

  /** Any other placement gives every thread its even share, and the lightest one what is left over. */
  lemma EvenShares(loads: seq<nat>, threads: ThreadSpec, nb: nat, t: nat)
    requires !threads.OnThread? && Place(loads, threads, nb).Some? && t < |loads|
    ensures Placed(loads, Place(loads, threads, nb).value)[t]
      == loads[t] + nb / |loads| + (if t == Lightest(loads) then nb % |loads| else 0)
  {
    if nb > 0 {
      EvenLoads(loads, nb, t);
    } else {
      NoShareOfNone(|loads|);
    }
  }

  lemma NoShareOfNone(T: nat)
    requires T > 0
    ensures 0 / T == 0 && 0 % T == 0
  {
  }

  lemma Multiple(nb: nat, T: nat)
    requires T > 0
    ensures nb * T / T == nb && nb * T % T == 0
  {
    QuotientIs(nb * T, nb, T, 0);
    assert nb * T == nb * T / T * T + nb * T % T;
  }

  /** An assignment to all threads of the own host raises the load of each of them by exactly nb. */
  lemma EveryThreadGetsAll(d: Daemon, g: nat, dh: DataHost, nb: nat, t: nat)
    requires g < |d.groups| && dh.name == d.me && |d.loads| == dh.nbThreads && t < dh.nbThreads
    ensures var r := AssignOne(d, g, dh, EveryThread, nb);
      r.Ok? && |r.d.loads| == |d.loads| && r.d.loads[t] == d.loads[t] + nb
  {
    Multiple(nb, dh.nbThreads);
    PlaceIff(d.loads, EveryThread, nb * dh.nbThreads);
    EvenShares(d.loads, EveryThread, nb * dh.nbThreads, t);
  }

  // ----- the loads over a replay -----

  /** The local nodes of all groups. */
  function LocalNodes(gs: seq<Group>): nat {
    if |gs| == 0 then 0 else LocalNodes(gs[..|gs| - 1]) + gs[|gs| - 1].nbLocal
  }

  lemma {:induction false} LocalNodesJoin(before: seq<Group>, after: seq<Group>, g: nat, h: GroupHost)
    requires Joins(before, after, g, h)
    ensures LocalNodes(after) == LocalNodes(before) + (if h.local then h.count else 0)
  {
    if g < |before| - 1 {
      LocalNodesJoin(before[..|before| - 1], after[..|before| - 1], g, h);
    } else {
      LocalNodesSame(before[..g], after[..g]);
    }
  }

  lemma {:induction false} LocalNodesSame(a: seq<Group>, b: seq<Group>)
    requires |a| == |b| && forall x :: 0 <= x < |a| ==> a[x].nbLocal == b[x].nbLocal
    ensures LocalNodes(a) == LocalNodes(b)
  {
    if |a| > 0 { LocalNodesSame(a[..|a| - 1], b[..|a| - 1]); }
  }

  /** Every thread of a placement exists. */
  ghost predicate InRange(p: seq<nat>, T: nat) {
    forall i :: 0 <= i < |p| ==> p[i] < T
  }

  lemma {:induction false} PlacedSum(loads: seq<nat>, p: seq<nat>)
    requires InRange(p, |loads|)
    ensures Sum(Placed(loads, p)) == Sum(loads) + |p|
  {
    if |p| == 0 {
      assert Placed(loads, p) == loads;
    } else {
      var n := |p| - 1;
      PlacedSum(loads, p[..n]);
      assert p == p[..n] + [p[n]];
      PlacedNext(loads, p[..n], p[n]);
      SumBump(Placed(loads, p[..n]), p[n]);
    }
  }

  lemma {:induction false} SumBump(a: seq<nat>, t: nat)
    requires t < |a|
    ensures Sum(a[t := a[t] + 1]) == Sum(a) + 1
  {
    var n := |a| - 1;
    if t < n {
      SumBump(a[..n], t);
      assert a[t := a[t] + 1][..n] == a[..n][t := a[t] + 1];
    } else {
      assert a[t := a[t] + 1][..n] == a[..n];
    }
  }

  /** The local nodes of a daemon run on threads that exist, and the loads count them all. */
  ghost predicate Counted(d: Daemon) {
    && Sum(d.loads) == LocalNodes(d.groups)
    && (forall x :: 0 <= x < |d.groups| ==> forall h :: h in d.groups[x].hosts ==> OnThreads(h, |d.loads|))
  }

  ghost predicate OnThreads(h: GroupHost, T: nat) {
    forall i :: 0 <= i < |h.nodes| ==> h.nodes[i].thread < T
  }

  lemma JoinLocalCounted(d: Daemon, g: nat, p: seq<nat>)
    requires Counted(d) && g < |d.groups| && InRange(p, |d.loads|)
    ensures Counted(JoinLocal(d, g, p))
  {
    var h := LocalHost(d.groups, g, d.me, p);
    AddHostJoins(d.groups, g, h);
    LocalNodesJoin(d.groups, AddHost(d.groups, g, h), g, h);
    PlacedSum(d.loads, p);
    JoinOnThreads(d.groups, AddHost(d.groups, g, h), g, h, |d.loads|);
  }

  lemma JoinRemoteCounted(d: Daemon, g: nat, host: string, nb: nat)
    requires Counted(d) && g < |d.groups|
    ensures Counted(JoinRemote(d, g, host, nb))
  {
    var h := GroupHost(host, false, nb, []);
    AddHostJoins(d.groups, g, h);
    LocalNodesJoin(d.groups, AddHost(d.groups, g, h), g, h);
    JoinOnThreads(d.groups, AddHost(d.groups, g, h), g, h, |d.loads|);
  }

  lemma JoinOnThreads(before: seq<Group>, after: seq<Group>, g: nat, h: GroupHost, T: nat)
    requires Joins(before, after, g, h) && OnThreads(h, T)
    requires forall x :: 0 <= x < |before| ==> forall k :: k in before[x].hosts ==> OnThreads(k, T)
    ensures forall x :: 0 <= x < |after| ==> forall k :: k in after[x].hosts ==> OnThreads(k, T)
  {
    forall x | 0 <= x < |after| ensures forall k :: k in after[x].hosts ==> OnThreads(k, T) {
      if x != g { assert after[x].hosts == before[x].hosts; }
    }
  }

  lemma PlaceExists(loads: seq<nat>, threads: ThreadSpec, nb: nat)
    ensures var p := Place(loads, threads, nb); p.Some? ==> InRange(p.value, |loads|)
  {
    if |loads| > 0 { RoundsInRange(|loads|, Lightest(loads), nb / |loads|, |loads|); }
  }

  lemma AssignOneCounted(d: Daemon, g: nat, dh: DataHost, threads: ThreadSpec, nb: nat)
    requires Counted(d) && g < |d.groups|
    ensures var r := AssignOne(d, g, dh, threads, nb); r.Ok? ==> Counted(r.d)
  {
    var want := Wanted(dh, threads, nb);
    if dh.name != d.me {
      JoinRemoteCounted(d, g, dh.name, want);
    } else {
      var p := Place(d.loads, threads, want);
      PlaceExists(d.loads, threads, want);
      if p.Some? { JoinLocalCounted(d, g, p.value); }
    }
  }

  lemma {:induction false} AssignEachCounted(d: Daemon, g: nat, dhs: seq<DataHost>, threads: ThreadSpec, nb: nat)
    requires Counted(d) && g < |d.groups|
    ensures var r := AssignEach(d, g, dhs, threads, nb); r.Ok? ==> Counted(r.d)
  {
    if |dhs| > 0 {
      var n := |dhs| - 1;
      AssignEachCounted(d, g, dhs[..n], threads, nb);
      var before := AssignEach(d, g, dhs[..n], threads, nb);
      if before.Ok? { AssignOneCounted(before.d, g, dhs[n], threads, nb); }
    }
  }

  lemma {:induction false} AssignSameCounted(d: Daemon, g: nat, hs: seq<GroupHost>, limit: Option<nat>)
    requires Counted(d) && g < |d.groups| && forall h :: h in hs ==> OnThreads(h, |d.loads|)
    ensures Counted(AssignSameEach(d, g, hs, limit)) && |AssignSameEach(d, g, hs, limit).loads| == |d.loads|
  {
    if |hs| > 0 {
      var n := |hs| - 1;
      AssignSameCounted(d, g, hs[..n], limit);
      var before := AssignSameEach(d, g, hs[..n], limit);
      assert OnThreads(hs[n], |d.loads|);
      if hs[n].local {
        JoinLocalCounted(before, g, SameThreads(hs[n], limit));
      } else {
        JoinRemoteCounted(before, g, hs[n].host, Min(limit, hs[n].count));
      }
    }
  }

  lemma {:induction false} SumAppend(a: seq<nat>, n: nat)
    ensures Sum(a + Repeat(0, n)) == Sum(a)
  {
    if n == 0 {
      assert a + Repeat(0, 0) == a;
    } else {
      SumAppend(a, n - 1);
      assert (a + Repeat(0, n))[..|a| + n - 1] == a + Repeat(0, n - 1);
    }
  }

  lemma StepCounted(d: Daemon, s: Stmt)
    requires Counted(d) && Step(d, s).Ok?
    ensures Counted(Step(d, s).d)
  {
    match s
    case DeclareHost(name, n) =>
      var dh := FindHost(Declare(d.dataHosts, name, n), name);
      SumAppend(d.loads, if name == d.me && dh.Some? then dh.value.nbThreads else 0);
    case DeclareGroup(name) =>
      assert (d.groups + [NewGroup(name)])[..|d.groups|] == d.groups;
    case Connect(src, dst, kind) =>
      var a, b := FindGroup(Names(d.groups), src), FindGroup(Names(d.groups), dst);
      if a.Some? && b.Some? { ConnectCounted(d, LinkOf(a.value, b.value, kind)); }
    case Assign(group, spec, threads, nb) =>
      var g := FindGroup(Names(d.groups), group);
      if g.Some? {
        match spec {
          case Wildcard => AssignEachCounted(d, g.value, d.dataHosts, threads, nb);
          case Named(host) => AssignOneCounted(d, g.value, FindHost(d.dataHosts, host).value, threads, nb);
        }
      }
    case AssignSame(group, ref, limit) =>
      var g, r := FindGroup(Names(d.groups), group), FindGroup(Names(d.groups), ref);
      if g.Some? && r.Some? && g != r { AssignSameCounted(d, g.value, d.groups[r.value].hosts, limit); }
    case SetProperty(_) =>
  }

  lemma ConnectCounted(d: Daemon, l: Link)
    requires Counted(d) && l.src < |d.groups| && l.dst < |d.groups|
    ensures Counted(d.(groups := AddLink(d.groups, l)))
  {
    assert forall x :: 0 <= x < |d.groups| ==> AddLink(d.groups, l)[x].hosts == d.groups[x].hosts;
    LocalNodesSame(AddLink(d.groups, l), d.groups);
  }

  lemma {:induction false} ExecCounted(d: Daemon, stmts: seq<Stmt>)
    requires Counted(d) && Exec(d, stmts).Ok?
    ensures Counted(Exec(d, stmts).d)
  {
    if |stmts| > 0 {
      var n := |stmts| - 1;
      ExecCounted(d, stmts[..n]);
      StepCounted(Exec(d, stmts[..n]).d, stmts[n]);
    }
  }

  /** After any replay the loads of the threads count exactly the local nodes of all groups. */
  lemma LoadsCountNodes(me: string, spreader: bool, all: seq<Stmt>, i: nat)
    requires i <= |all| && Exec(Start(me, spreader, all), all[..i]).Ok?
    ensures Counted(Exec(Start(me, spreader, all), all[..i]).d)
  {
    ExecCounted(Start(me, spreader, all), all[..i]);
  }

  /** Statements that leave the choice of threads to the daemon and create none. */
  predicate Spreading(s: Stmt) {
    match s
    case Assign(_, _, threads, _) => !threads.OnThread?
    case AssignSame(_, _, _) => false
    case DeclareHost(_, _) => false
    case _ => true
  }

  lemma PlaceKeepsBalance(loads: seq<nat>, threads: ThreadSpec, nb: nat)
    requires !threads.OnThread? && Place(loads, threads, nb).Some? && Balanced(loads)
    ensures Balanced(Placed(loads, Place(loads, threads, nb).value))
  {
    if nb == 0 {
      assert Placed(loads, []) == loads;
    } else {
      EvenKeepsBalance(loads, nb);
    }
  }

  lemma {:induction false} SpreadKeepsBalance(d: Daemon, g: nat, dhs: seq<DataHost>, threads: ThreadSpec, nb: nat)
    requires g < |d.groups| && !threads.OnThread? && Balanced(d.loads)
    ensures var r := AssignEach(d, g, dhs, threads, nb); r.Ok? ==> Balanced(r.d.loads)
  {
    if |dhs| > 0 {
      var n := |dhs| - 1;
      SpreadKeepsBalance(d, g, dhs[..n], threads, nb);
      var before := AssignEach(d, g, dhs[..n], threads, nb);
      if before.Ok? { SpreadOneKeepsBalance(before.d, g, dhs[n], threads, nb); }
    }
  }

  lemma SpreadOneKeepsBalance(d: Daemon, g: nat, dh: DataHost, threads: ThreadSpec, nb: nat)
    requires g < |d.groups| && !threads.OnThread? && Balanced(d.loads)
    ensures var r := AssignOne(d, g, dh, threads, nb); r.Ok? ==> Balanced(r.d.loads)
  {
    var want := Wanted(dh, threads, nb);
    if dh.name == d.me && Place(d.loads, threads, want).Some? { PlaceKeepsBalance(d.loads, threads, want); }
  }

  /**
   From balanced loads, for instance those of threads just created, any statements that leave the choice of
   threads to the daemon keep them within the number of threads less one of each other.
   */
  lemma {:induction false} ReplayKeepsBalance(d: Daemon, stmts: seq<Stmt>)
    requires Balanced(d.loads) && (forall s :: s in stmts ==> Spreading(s)) && Exec(d, stmts).Ok?
    ensures Balanced(Exec(d, stmts).d.loads)
  {
    if |stmts| > 0 {
      var n := |stmts| - 1;
      ReplayKeepsBalance(d, stmts[..n]);
      var before, s := Exec(d, stmts[..n]).d, stmts[n];
      assert Spreading(s);
      if s.Assign? {
        var g := FindGroup(Names(before.groups), s.group);
        if g.Some? {
          SpreadKeepsBalance(before, g.value, before.dataHosts, s.threads, s.nb);
          if s.spec.Named? {
            SpreadOneKeepsBalance(before, g.value, FindHost(before.dataHosts, s.spec.host).value, s.threads, s.nb);
          }
        }
      }
    }
  }
}
