/**
 Every daemon replays the same model text, and each instantiates only its own nodes.  Replays on different
 daemons agree on everything that does not depend on who replays: the groups, the links and the node
 counts per group and host.
 */
module ModelReplay {
  import opened Vectors
  import opened Threads
  import opened Topologies

  datatype DataHost = DataHost(name: string, nbThreads: nat)

  /** A daemon identified by the host name that is its own. */
  datatype Daemon = Daemon(me: string, groups: seq<Group>, dataHosts: seq<DataHost>, loads: seq<nat>)

  datatype LinkKind = ToOthers | ToAll | ToLocal

  datatype HostSpec = Wildcard | Named(host: string)

  datatype ThreadSpec = Spread | EveryThread | OnThread(thread: nat)

  /** A parsed statement of a model text. */
  datatype Stmt =
    | DeclareHost(name: string, nbThreads: nat)
    | DeclareGroup(name: string)
    | Connect(src: string, dst: string, kind: LinkKind)
    | Assign(group: string, spec: HostSpec, threads: ThreadSpec, nb: nat)
    | AssignSame(group: string, ref: string, limit: Option<nat>)
    | SetProperty(group: string)

  /** Aborted stands for an exception that leaves the reader, and for a crash or an endless loop of it. */
  datatype Outcome = Ok(d: Daemon) | Aborted

  function FindGroup(names: seq<string>, name: string): (r: Option<nat>)
    ensures r.Some? ==> r.value < |names| && names[r.value] == name && name !in names[..r.value]
    ensures r.None? ==> name !in names
  {
    if |names| == 0 then None
    else if names[0] == name then Some(0)
    else var r := FindGroup(names[1..], name);
      assert names == [names[0]] + names[1..];
      if r.None? then None else
      assert names[..r.value + 1] == [names[0]] + names[1..][..r.value];
      Some(r.value + 1)
  }

  function FindHost(dhs: seq<DataHost>, name: string): (r: Option<DataHost>)
    ensures r.Some? ==> r.value in dhs && r.value.name == name
  {
    if |dhs| == 0 then None else if dhs[0].name == name then Some(dhs[0]) else FindHost(dhs[1..], name)
  }

  function Names(gs: seq<Group>): (r: seq<string>)
    ensures |r| == |gs|
  {
    seq(|gs|, i requires 0 <= i < |gs| => gs[i].name)
  }

  function Declare(dhs: seq<DataHost>, name: string, nbThreads: nat): seq<DataHost> {
    if FindHost(dhs, name).Some? then dhs else dhs + [DataHost(name, nbThreads)]
  }

  function LinkOf(src: nat, dst: nat, kind: LinkKind): Link {
    Link(src, dst, kind == ToAll, kind == ToLocal)
  }

  /** The number of nodes an assignment asks for on one host. */
  function Wanted(dh: DataHost, threads: ThreadSpec, nb: nat): nat {
    if threads.EveryThread? then nb * dh.nbThreads else nb
  }

  /** The threads of nb new local nodes; None when there is no such thread. */
  function Place(loads: seq<nat>, threads: ThreadSpec, nb: nat): (p: Option<seq<nat>>)
    ensures p.Some? ==> |p.value| == nb
  {
    if nb == 0 then Some([])
    else if threads.OnThread? then (if threads.thread < |loads| then Some(Repeat(threads.thread, nb)) else None)
    else if |loads| > 0 then Some(EvenPlacement(loads, nb)) else None
  }

  /** The nodes a group gets on this daemon: their ids follow those it already has. */
  function LocalHost(gs: seq<Group>, g: nat, host: string, p: seq<nat>): GroupHost
    requires g < |gs|
  {
    GroupHost(host, true, |p|, seq(|p|, i requires 0 <= i < |p| => NodeRef(gs[g].nbLocal + i, p[i])))
  }

  function JoinLocal(d: Daemon, g: nat, p: seq<nat>): Daemon
    requires g < |d.groups|
  {
    d.(groups := AddHost(d.groups, g, LocalHost(d.groups, g, d.me, p)), loads := Placed(d.loads, p))
  }

  function JoinRemote(d: Daemon, g: nat, host: string, nb: nat): Daemon
    requires g < |d.groups|
  {
    d.(groups := AddHost(d.groups, g, GroupHost(host, false, nb, [])))
  }

  function AssignOne(d: Daemon, g: nat, dh: DataHost, threads: ThreadSpec, nb: nat): (r: Outcome)
    requires g < |d.groups|
    ensures r.Ok? ==> |r.d.groups| == |d.groups|
  {
    if dh.name != d.me then Ok(JoinRemote(d, g, dh.name, Wanted(dh, threads, nb)))
    else var p := Place(d.loads, threads, Wanted(dh, threads, nb));
      if p.None? then Aborted else Ok(JoinLocal(d, g, p.value))
  }

  /** The assignment repeated for a list of hosts. */
  function AssignEach(d: Daemon, g: nat, dhs: seq<DataHost>, threads: ThreadSpec, nb: nat): (r: Outcome)
    requires g < |d.groups|
    ensures r.Ok? ==> |r.d.groups| == |d.groups|
  {
    if |dhs| == 0 then Ok(d) else
    var before := AssignEach(d, g, dhs[..|dhs| - 1], threads, nb);
    if before.Aborted? then Aborted else AssignOne(before.d, g, dhs[|dhs| - 1], threads, nb)
  }

  function Min(limit: Option<nat>, n: nat): nat {
    if limit.Some? && limit.value < n then limit.value else n
  }

  /** The threads of the first nodes of h, up to the limit. */
  function SameThreads(h: GroupHost, limit: Option<nat>): seq<nat> {
    seq(Min(limit, |h.nodes|), i requires 0 <= i < |h.nodes| => h.nodes[i].thread)
  }

  /** One host of a same-as assignment. */
  function JoinSame(d: Daemon, g: nat, h: GroupHost, limit: Option<nat>): (r: Daemon)
    requires g < |d.groups|
    ensures |r.groups| == |d.groups|
  {
    if h.local then JoinLocal(d, g, SameThreads(h, limit)) else JoinRemote(d, g, h.host, Min(limit, h.count))
  }

  function AssignSameEach(d: Daemon, g: nat, hosts: seq<GroupHost>, limit: Option<nat>): (r: Daemon)
    requires g < |d.groups|
    ensures |r.groups| == |d.groups|
  {
    if |hosts| == 0 then d
    else JoinSame(AssignSameEach(d, g, hosts[..|hosts| - 1], limit), g, hosts[|hosts| - 1], limit)
  }

  function Step(d: Daemon, s: Stmt): Outcome {
    match s
    case DeclareHost(name, n) =>
      var dhs := Declare(d.dataHosts, name, n);
      var dh := FindHost(dhs, name);
      var created := if name == d.me && dh.Some? then dh.value.nbThreads else 0;
      Ok(d.(dataHosts := dhs, loads := d.loads + Repeat(0, created)))
    case DeclareGroup(name) => Ok(d.(groups := d.groups + [NewGroup(name)]))
    case Connect(src, dst, kind) =>
      var a, b := FindGroup(Names(d.groups), src), FindGroup(Names(d.groups), dst);
      if a.Some? && b.Some? then Ok(d.(groups := AddLink(d.groups, LinkOf(a.value, b.value, kind)))) else Ok(d)
    case Assign(group, spec, threads, nb) =>
      var g := FindGroup(Names(d.groups), group);
      match spec {
        case Wildcard => if g.None? then Ok(d) else AssignEach(d, g.value, d.dataHosts, threads, nb)
        case Named(host) =>
          var dh := FindHost(d.dataHosts, host);
          if dh.None? && threads.EveryThread? then Aborted
          else if g.None? then Ok(d)
          else if dh.None? then Aborted
          else AssignOne(d, g.value, dh.value, threads, nb)
      }
    case AssignSame(group, ref, limit) =>
      var g, r := FindGroup(Names(d.groups), group), FindGroup(Names(d.groups), ref);
      if g.None? || r.None? then Ok(d)
      else if g == r then (if |d.groups[r.value].hosts| == 0 then Ok(d) else Aborted)
      else Ok(AssignSameEach(d, g.value, d.groups[r.value].hosts, limit))
    case SetProperty(group) => Ok(d)
  }

  function Exec(d: Daemon, stmts: seq<Stmt>): Outcome {
    if |stmts| == 0 then Ok(d) else
    var before := Exec(d, stmts[..|stmts| - 1]);
    if before.Aborted? then Aborted else Step(before.d, stmts[|stmts| - 1])
  }

  /** The data hosts declared by a statement list, in order of first declaration. */
  function Hosts(stmts: seq<Stmt>): seq<DataHost> {
    if |stmts| == 0 then [] else
    var s := stmts[|stmts| - 1];
    if s.DeclareHost? then Declare(Hosts(stmts[..|stmts| - 1]), s.name, s.nbThreads) else Hosts(stmts[..|stmts| - 1])
  }

  /** A replay on daemon me.  The daemon that spread the model has read its Host statements beforehand. */
  function Replay(me: string, spreader: bool, stmts: seq<Stmt>): Outcome {
    Exec(Daemon(me, [], if spreader then Hosts(stmts) else [], []), stmts)
  }

  // ----- what every replay has in common -----

  datatype HostCount = HostCount(host: string, count: nat)

  datatype GroupView = GroupView(name: string, hosts: seq<HostCount>, ins: seq<Link>, outs: seq<Link>, nbNodes: nat)

  function ViewHosts(hs: seq<GroupHost>): (r: seq<HostCount>)
    ensures |r| == |hs|
  {
    seq(|hs|, i requires 0 <= i < |hs| => HostCount(hs[i].host, hs[i].count))
  }

  function View(g: Group): GroupView {
    GroupView(g.name, ViewHosts(g.hosts), g.ins, g.outs, g.nbNodes)
  }

  /** The groups with everything forgotten that depends on whose replay it is. */
  function Views(gs: seq<Group>): (r: seq<GroupView>)
    ensures |r| == |gs|
  {
    seq(|gs|, i requires 0 <= i < |gs| => View(gs[i]))
  }

  function ViewNames(vs: seq<GroupView>): (r: seq<string>)
    ensures |r| == |vs|
  {
    seq(|vs|, i requires 0 <= i < |vs| => vs[i].name)
  }

  function AddCounts(vs: seq<GroupView>, g: nat, cs: seq<HostCount>): (r: seq<GroupView>)
    requires g < |vs|
    ensures |r| == |vs|
  {
    if |cs| == 0 then vs else
    var before := AddCounts(vs, g, cs[..|cs| - 1]);
    var c := cs[|cs| - 1];
    before[g := before[g].(hosts := before[g].hosts + [c], nbNodes := before[g].nbNodes + c.count)]
  }

  function Wants(dhs: seq<DataHost>, threads: ThreadSpec, nb: nat): (r: seq<HostCount>)
    ensures |r| == |dhs|
  {
    seq(|dhs|, i requires 0 <= i < |dhs| => HostCount(dhs[i].name, Wanted(dhs[i], threads, nb)))
  }

  function Limited(hs: seq<HostCount>, limit: Option<nat>): (r: seq<HostCount>)
    ensures |r| == |hs|
  {
    seq(|hs|, i requires 0 <= i < |hs| => HostCount(hs[i].host, Min(limit, hs[i].count)))
  }

  /** The same statement interpreted without knowing whose replay it is. */
  function ViewStep(vs: seq<GroupView>, dhs: seq<DataHost>, s: Stmt): seq<GroupView> {
    var names := ViewNames(vs);
    match s
    case DeclareHost(_, _) => vs
    case DeclareGroup(name) => vs + [GroupView(name, [], [], [], 0)]
    case Connect(src, dst, kind) =>
      var a, b := FindGroup(names, src), FindGroup(names, dst);
      if a.None? || b.None? then vs else
      var l := LinkOf(a.value, b.value, kind);
      var t := vs[l.src := vs[l.src].(outs := vs[l.src].outs + [l])];
      t[l.dst := t[l.dst].(ins := t[l.dst].ins + [l])]
    case Assign(group, spec, threads, nb) =>
      var g := FindGroup(names, group);
      if g.None? then vs else (
        match spec
        case Wildcard => AddCounts(vs, g.value, Wants(dhs, threads, nb))
        case Named(host) =>
          var dh := FindHost(dhs, host);
          if dh.None? then vs else AddCounts(vs, g.value, Wants([dh.value], threads, nb)))
    case AssignSame(group, ref, limit) =>
      var g, r := FindGroup(names, group), FindGroup(names, ref);
      if g.None? || r.None? || g == r then vs else AddCounts(vs, g.value, Limited(vs[r.value].hosts, limit))
    case SetProperty(_) => vs
  }

  // ----- what a daemon holds itself -----

  function LocalCount(hs: seq<GroupHost>): nat {
    if |hs| == 0 then 0
    else LocalCount(hs[..|hs| - 1]) + (if hs[|hs| - 1].local then hs[|hs| - 1].count else 0)
  }

  function AnyCount(hs: seq<GroupHost>): nat {
    if |hs| == 0 then 0 else AnyCount(hs[..|hs| - 1]) + hs[|hs| - 1].count
  }

  /** Local hosts are exactly this daemon's, hold as many nodes as counted, and number them consecutively. */
  ghost predicate HostsOk(me: string, hs: seq<GroupHost>) {
    forall j :: 0 <= j < |hs| ==>
      && (hs[j].local <==> hs[j].host == me)
      && (if hs[j].local
          then |hs[j].nodes| == hs[j].count
            && forall i :: 0 <= i < |hs[j].nodes| ==> hs[j].nodes[i].id == LocalCount(hs[..j]) + i
          else hs[j].nodes == [])
  }

  ghost predicate GroupOk(me: string, g: Group) {
    && HostsOk(me, g.hosts)
    && g.nbLocal == LocalCount(g.hosts)
    && g.nbNodes == AnyCount(g.hosts)
    && g.nbLocal <= g.nbNodes
  }

  ghost predicate DaemonOk(d: Daemon) {
    forall g :: 0 <= g < |d.groups| ==> GroupOk(d.me, d.groups[g])
  }

  lemma NamesOfViews(gs: seq<Group>)
    ensures ViewNames(Views(gs)) == Names(gs)
  {
  }

  /** The nodes of h, if local, are numbered after those the group already has. */
  ghost predicate Fresh(me: string, g: Group, h: GroupHost) {
    && (h.local <==> h.host == me)
    && (if h.local
        then |h.nodes| == h.count && forall i :: 0 <= i < |h.nodes| ==> h.nodes[i].id == g.nbLocal + i
        else h.nodes == [])
  }

  lemma PushHostsOk(me: string, g: Group, h: GroupHost)
    requires GroupOk(me, g) && Fresh(me, g, h)
    ensures HostsOk(me, g.hosts + [h])
  {
    var hs := g.hosts + [h];
    forall j | 0 <= j <= |g.hosts| ensures hs[..j] == g.hosts[..j] {}
    assert g.hosts[..|g.hosts|] == g.hosts;
  }

  lemma PushHost(me: string, g: Group, h: GroupHost)
    requires GroupOk(me, g) && Fresh(me, g, h)
    ensures GroupOk(me, Joined(g, h))
    ensures View(Joined(g, h))
         == View(g).(hosts := View(g).hosts + [HostCount(h.host, h.count)], nbNodes := g.nbNodes + h.count)
  {
    PushHostsOk(me, g, h);
    assert (g.hosts + [h])[..|g.hosts|] == g.hosts;
    assert ViewHosts(g.hosts + [h]) == ViewHosts(g.hosts) + [HostCount(h.host, h.count)];
  }

  lemma JoinViews(d: Daemon, g: nat, h: GroupHost)
    requires DaemonOk(d) && g < |d.groups| && Fresh(d.me, d.groups[g], h)
    ensures DaemonOk(d.(groups := AddHost(d.groups, g, h)))
    ensures Views(AddHost(d.groups, g, h)) == AddCounts(Views(d.groups), g, [HostCount(h.host, h.count)])
  {
    var r := AddHost(d.groups, g, h);
    PushHost(d.me, d.groups[g], h);
    forall x | 0 <= x < |d.groups|
      ensures GroupOk(d.me, r[x])
      ensures View(r[x]) == if x == g then View(Joined(d.groups[g], h)) else View(d.groups[x])
    {
      AddHostAt(d.groups, g, h, x);
    }
    var cs := [HostCount(h.host, h.count)];
    assert AddCounts(Views(d.groups), g, cs[..0]) == Views(d.groups);
    assert cs[..|cs| - 1] == cs[..0];
  }

  lemma PushCounts(vs: seq<GroupView>, g: nat, cs: seq<HostCount>, c: HostCount)
    requires g < |vs|
    ensures AddCounts(vs, g, cs + [c]) == AddCounts(AddCounts(vs, g, cs), g, [c])
  {
    assert (cs + [c])[..|cs|] == cs;
    assert [c][..0] == [];
    assert AddCounts(AddCounts(vs, g, cs), g, []) == AddCounts(vs, g, cs);
  }

  lemma AssignOneViews(d: Daemon, g: nat, dh: DataHost, threads: ThreadSpec, nb: nat)
    requires DaemonOk(d) && g < |d.groups|
    ensures var r := AssignOne(d, g, dh, threads, nb);
      r.Ok? ==>
        && r.d.me == d.me && DaemonOk(r.d) && r.d.dataHosts == d.dataHosts
        && Views(r.d.groups) == AddCounts(Views(d.groups), g, Wants([dh], threads, nb))
  {
    assert Wants([dh], threads, nb) == [HostCount(dh.name, Wanted(dh, threads, nb))];
    var want := Wanted(dh, threads, nb);
    if dh.name != d.me {
      JoinViews(d, g, GroupHost(dh.name, false, want, []));
    } else {
      var p := Place(d.loads, threads, want);
      if p.Some? { JoinViews(d, g, LocalHost(d.groups, g, d.me, p.value)); }
    }
  }

  lemma {:induction false} AssignEachViews(d: Daemon, g: nat, dhs: seq<DataHost>, threads: ThreadSpec, nb: nat)
    requires DaemonOk(d) && g < |d.groups|
    ensures var r := AssignEach(d, g, dhs, threads, nb);
      r.Ok? ==>
        && r.d.me == d.me && DaemonOk(r.d) && r.d.dataHosts == d.dataHosts
        && Views(r.d.groups) == AddCounts(Views(d.groups), g, Wants(dhs, threads, nb))
  {
    if |dhs| > 0 {
      var n := |dhs| - 1;
      AssignEachViews(d, g, dhs[..n], threads, nb);
      var before := AssignEach(d, g, dhs[..n], threads, nb);
      if before.Ok? {
        AssignOneViews(before.d, g, dhs[n], threads, nb);
        WantsLast(Views(d.groups), g, dhs, threads, nb);
      }
    }
  }

  lemma WantsLast(vs: seq<GroupView>, g: nat, dhs: seq<DataHost>, threads: ThreadSpec, nb: nat)
    requires g < |vs| && |dhs| > 0
    ensures var n := |dhs| - 1;
      AddCounts(vs, g, Wants(dhs, threads, nb))
        == AddCounts(AddCounts(vs, g, Wants(dhs[..n], threads, nb)), g, Wants([dhs[n]], threads, nb))
  {
    var n := |dhs| - 1;
    var last := Wants([dhs[n]], threads, nb)[0];
    PushCounts(vs, g, Wants(dhs[..n], threads, nb), last);
    assert Wants(dhs, threads, nb) == Wants(dhs[..n], threads, nb) + [last];
    assert Wants([dhs[n]], threads, nb) == [last];
  }

  lemma JoinSameViews(d: Daemon, g: nat, h: GroupHost, limit: Option<nat>)
    requires DaemonOk(d) && g < |d.groups| && (h.local <==> h.host == d.me) && (h.local ==> |h.nodes| == h.count)
    ensures var r := JoinSame(d, g, h, limit);
      && r.me == d.me && DaemonOk(r) && r.dataHosts == d.dataHosts
      && Views(r.groups) == AddCounts(Views(d.groups), g, [HostCount(h.host, Min(limit, h.count))])
  {
    if h.local {
      JoinViews(d, g, LocalHost(d.groups, g, d.me, SameThreads(h, limit)));
    } else {
      JoinViews(d, g, GroupHost(h.host, false, Min(limit, h.count), []));
    }
  }

  lemma HostsOkPrefix(me: string, hs: seq<GroupHost>, n: nat)
    requires HostsOk(me, hs) && n <= |hs|
    ensures HostsOk(me, hs[..n])
  {
    forall j | 0 <= j < n ensures hs[..n][..j] == hs[..j] {}
  }

  lemma LimitedLast(hs: seq<GroupHost>, limit: Option<nat>)
    requires |hs| > 0
    ensures var n := |hs| - 1;
      Limited(ViewHosts(hs), limit)
        == Limited(ViewHosts(hs[..n]), limit) + [HostCount(hs[n].host, Min(limit, hs[n].count))]
  {
  }

  lemma {:induction false} AssignSameViews(d: Daemon, g: nat, hs: seq<GroupHost>, limit: Option<nat>)
    requires DaemonOk(d) && g < |d.groups| && HostsOk(d.me, hs)
    ensures var r := AssignSameEach(d, g, hs, limit);
      && r.me == d.me && DaemonOk(r) && r.dataHosts == d.dataHosts
      && Views(r.groups) == AddCounts(Views(d.groups), g, Limited(ViewHosts(hs), limit))
  {
    if |hs| > 0 {
      var n := |hs| - 1;
      var c := HostCount(hs[n].host, Min(limit, hs[n].count));
      HostsOkPrefix(d.me, hs, n);
      AssignSameViews(d, g, hs[..n], limit);
      JoinSameViews(AssignSameEach(d, g, hs[..n], limit), g, hs[n], limit);
      PushCounts(Views(d.groups), g, Limited(ViewHosts(hs[..n]), limit), c);
      LimitedLast(hs, limit);
    }
  }

  /** A statement that does not abort has the same effect on the views whoever executes it. */
  lemma StepViews(d: Daemon, s: Stmt)
    requires DaemonOk(d) && Step(d, s).Ok?
    ensures var r := Step(d, s).d;
      && r.me == d.me && DaemonOk(r)
      && Views(r.groups) == ViewStep(Views(d.groups), d.dataHosts, s)
      && r.dataHosts == if s.DeclareHost? then Declare(d.dataHosts, s.name, s.nbThreads) else d.dataHosts
  {
    NamesOfViews(d.groups);
    match s
    case DeclareHost(name, n) =>
    case DeclareGroup(name) =>
      assert Views(d.groups + [NewGroup(name)]) == Views(d.groups) + [GroupView(name, [], [], [], 0)];
    case Connect(src, dst, kind) =>
      var a, b := FindGroup(Names(d.groups), src), FindGroup(Names(d.groups), dst);
      if a.Some? && b.Some? {
        ConnectViews(d, LinkOf(a.value, b.value, kind));
      }
    case Assign(group, spec, threads, nb) =>
      var g := FindGroup(Names(d.groups), group);
      if g.Some? {
        match spec {
          case Wildcard => AssignEachViews(d, g.value, d.dataHosts, threads, nb);
          case Named(host) => AssignOneViews(d, g.value, FindHost(d.dataHosts, host).value, threads, nb);
        }
      }
    case AssignSame(group, ref, limit) =>
      var g, r := FindGroup(Names(d.groups), group), FindGroup(Names(d.groups), ref);
      if g.Some? && r.Some? && g != r {
        assert GroupOk(d.me, d.groups[r.value]);
        AssignSameViews(d, g.value, d.groups[r.value].hosts, limit);
      }
    case SetProperty(_) =>
  }

  lemma ConnectViews(d: Daemon, l: Link)
    requires DaemonOk(d) && l.src < |d.groups| && l.dst < |d.groups|
    ensures DaemonOk(d.(groups := AddLink(d.groups, l)))
    ensures var vs := Views(d.groups);
      var t := vs[l.src := vs[l.src].(outs := vs[l.src].outs + [l])];
      Views(AddLink(d.groups, l)) == t[l.dst := t[l.dst].(ins := t[l.dst].ins + [l])]
  {
  }

  /** The views a replay arrives at: the spreader knows all hosts from the start, others as they are declared. */
  function ViewRun(stmts: seq<Stmt>, spreader: bool, all: seq<Stmt>): seq<GroupView> {
    if |stmts| == 0 then [] else
    var before := stmts[..|stmts| - 1];
    ViewStep(ViewRun(before, spreader, all), if spreader then Hosts(all) else Hosts(before), stmts[|stmts| - 1])
  }

  lemma {:induction false} FindHostGrows(dhs: seq<DataHost>, more: seq<DataHost>, name: string)
    requires FindHost(dhs, name).Some?
    ensures FindHost(dhs + more, name) == FindHost(dhs, name)
  {
    assert (dhs + more)[0] == dhs[0];
    if dhs[0].name != name {
      FindHostGrows(dhs[1..], more, name);
      assert (dhs + more)[1..] == dhs[1..] + more;
    }
  }

  lemma {:induction false} FindHostLast(dhs: seq<DataHost>, dh: DataHost)
    ensures FindHost(dhs + [dh], dh.name).Some?
  {
    if |dhs| > 0 {
      FindHostLast(dhs[1..], dh);
      assert (dhs + [dh])[1..] == dhs[1..] + [dh];
    }
  }

  /** The hosts declared by a prefix are a prefix of the hosts declared, and include every name in it. */
  lemma {:induction false} HostsGrow(stmts: seq<Stmt>, i: nat)
    requires i <= |stmts|
    ensures Hosts(stmts[..i]) <= Hosts(stmts)
    ensures forall j :: 0 <= j < i && stmts[j].DeclareHost? ==> FindHost(Hosts(stmts), stmts[j].name).Some?
  {
    if i < |stmts| {
      var n := |stmts| - 1;
      HostsGrow(stmts[..n], i);
      assert stmts[..n][..i] == stmts[..i];
      KnownHostsStay(stmts[..n], stmts[n]);
      assert stmts[..n] + [stmts[n]] == stmts;
    } else {
      assert stmts[..i] == stmts;
      if i > 0 {
        var n := |stmts| - 1;
        HostsGrow(stmts[..n], n);
        assert stmts[..n][..n] == stmts[..n];
        KnownHostsStay(stmts[..n], stmts[n]);
        assert stmts[..n] + [stmts[n]] == stmts;
        assert forall j :: 0 <= j < n ==> stmts[..n][j] == stmts[j];
      }
    }
  }

  lemma KnownHostsStay(stmts: seq<Stmt>, s: Stmt)
    ensures Hosts(stmts) <= Hosts(stmts + [s])
    ensures forall name :: FindHost(Hosts(stmts), name).Some? ==> FindHost(Hosts(stmts + [s]), name).Some?
    ensures s.DeclareHost? ==> FindHost(Hosts(stmts + [s]), s.name).Some?
  {
    assert (stmts + [s])[..|stmts|] == stmts;
    if s.DeclareHost? {
      forall name | FindHost(Hosts(stmts), name).Some?
        ensures FindHost(Hosts(stmts + [s]), name).Some?
      {
        FindHostGrows(Hosts(stmts), [DataHost(s.name, s.nbThreads)], name);
      }
      FindHostLast(Hosts(stmts), DataHost(s.name, s.nbThreads));
    }
  }

  /** A replay that does not abort computes the views of the run, on any daemon. */
  lemma {:induction false} ReplayViews(me: string, spreader: bool, all: seq<Stmt>, i: nat)
    requires i <= |all|
    requires Exec(Daemon(me, [], if spreader then Hosts(all) else [], []), all[..i]).Ok?
    ensures var d := Exec(Daemon(me, [], if spreader then Hosts(all) else [], []), all[..i]).d;
      && d.me == me && DaemonOk(d)
      && d.dataHosts == (if spreader then Hosts(all) else Hosts(all[..i]))
      && Views(d.groups) == ViewRun(all[..i], spreader, all)
  {
    if i > 0 {
      var n := i - 1;
      assert all[..i][..n] == all[..n];
      ReplayViews(me, spreader, all, n);
      var d := Exec(Daemon(me, [], if spreader then Hosts(all) else [], []), all[..n]).d;
      StepViews(d, all[n]);
      assert all[..i][|all[..i]| - 1] == all[n];
      HostsGrow(all, i);
    }
  }
}
