/**
 The degree counters over a whole replay.  A replay is a series of new groups, new links and hosts that join,
 and the counters stay exact through all of it exactly when every host joins faithfully.
 */
module Degrees {
  import opened Vectors
  import opened Threads
  import opened Topologies
  import opened ModelReplay
  import opened Replicas

  /** One change of the group list. */
  datatype Change = Birth(name: string) | Tie(l: Link) | Join(g: nat, h: GroupHost)

  function Apply(gs: seq<Group>, c: Change): seq<Group> {
    match c
    case Birth(name) => gs + [NewGroup(name)]
    case Tie(l) => if l.src < |gs| && l.dst < |gs| then AddLink(gs, l) else gs
    case Join(g, h) => if g < |gs| then AddHost(gs, g, h) else gs
  }

  function ApplyAll(gs: seq<Group>, cs: seq<Change>): seq<Group> {
    if |cs| == 0 then gs else Apply(ApplyAll(gs, cs[..|cs| - 1]), cs[|cs| - 1])
  }

  lemma {:induction false} ApplyConcat(gs: seq<Group>, a: seq<Change>, b: seq<Change>)
    ensures ApplyAll(gs, a + b) == ApplyAll(ApplyAll(gs, a), b)
  {
    if |b| == 0 {
      assert a + b == a;
    } else {
      ApplyConcat(gs, a, b[..|b| - 1]);
      assert (a + b)[..|a + b| - 1] == a + b[..|b| - 1];
    }
  }

  // ----- exact if and only if faithful -----

  ghost predicate WellLinked(gs: seq<Group>) {
    Linked(gs) && forall x :: 0 <= x < |gs| ==> gs[x].nbLocal <= gs[x].nbNodes
  }

  /** A joining host is faithful to every link of its group. */
  predicate FaithfulJoin(gs: seq<Group>, c: Change) {
    c.Join? && c.g < |gs| ==> forall l :: l in gs[c.g].outs ==> Faithful(l, gs[c.g].nbNodes, gs[c.g].nbLocal, c.h)
  }

  predicate FaithfulJoins(gs: seq<Group>, cs: seq<Change>) {
    |cs| == 0 ||
    (var n := |cs| - 1; FaithfulJoins(gs, cs[..n]) && FaithfulJoin(ApplyAll(gs, cs[..n]), cs[n]))
  }

  /** The counters are exact before, between and after the changes. */
  ghost predicate AlwaysCached(gs: seq<Group>, cs: seq<Change>) {
    Cached(ApplyAll(gs, cs)) && (|cs| == 0 || AlwaysCached(gs, cs[..|cs| - 1]))
  }

  lemma NewGroupLinked(gs: seq<Group>, name: string)
    requires Linked(gs)
    ensures Linked(gs + [NewGroup(name)])
  {
    var r := gs + [NewGroup(name)];
    forall x, y | 0 <= x < |r| && 0 <= y < |r|
      ensures LinksTo(r[x].outs, y) == LinksFrom(r[y].ins, x)
    {
      if x < |gs| && y < |gs| {
        assert LinksTo(gs[x].outs, y) == LinksFrom(gs[y].ins, x);
      } else {
        NoLinks(r[x].outs, y);
        NoLinks(r[y].ins, x);
      }
    }
  }

  lemma {:induction false} NoLinks(ls: seq<Link>, x: nat)
    ensures (forall l :: l in ls ==> l.dst != x) ==> LinksTo(ls, x) == []
    ensures (forall l :: l in ls ==> l.src != x) ==> LinksFrom(ls, x) == []
  {
    if |ls| > 0 {
      NoLinks(ls[..|ls| - 1], x);
      assert ls[|ls| - 1] in ls;
    }
  }

  lemma NewGroupCached(gs: seq<Group>, name: string)
    requires Linked(gs) && Cached(gs)
    ensures Cached(gs + [NewGroup(name)])
  {
    var r := gs + [NewGroup(name)];
    forall x | 0 <= x < |gs|
      ensures OutDegree(r, x) == OutDegree(gs, x) && InDegree(r, x) == InDegree(gs, x)
    {
      SumSame(gs[x].outs, OutF(r), OutF(gs));
      SumSame(gs[x].ins, InF(r), InF(gs));
    }
    assert OutDegree(r, |gs|) == 0 && InDegree(r, |gs|) == 0;
  }

  lemma JoinWellLinked(gs: seq<Group>, g: nat, h: GroupHost)
    requires WellLinked(gs) && g < |gs|
    ensures WellLinked(AddHost(gs, g, h))
  {
    AddHostKeepsLinked(gs, g, h);
    forall x | 0 <= x < |gs|
      ensures AddHost(gs, g, h)[x].nbLocal <= AddHost(gs, g, h)[x].nbNodes
    {
      AddHostAt(gs, g, h, x);
    }
  }

  lemma TieWellLinked(gs: seq<Group>, l: Link)
    requires WellLinked(gs) && l.src < |gs| && l.dst < |gs|
    ensures WellLinked(AddLink(gs, l))
  {
    AddLinkKeepsLinked(gs, l);
    forall x | 0 <= x < |gs|
      ensures AddLink(gs, l)[x].nbLocal <= AddLink(gs, l)[x].nbNodes
    {
      AddLinkAt(gs, l, x);
    }
  }

  lemma ApplyWellLinked(gs: seq<Group>, c: Change)
    requires WellLinked(gs)
    ensures WellLinked(Apply(gs, c))
  {
    match c
    case Birth(name) => NewGroupLinked(gs, name);
    case Tie(l) => if l.src < |gs| && l.dst < |gs| { TieWellLinked(gs, l); }
    case Join(g, h) => if g < |gs| { JoinWellLinked(gs, g, h); }
  }

  /** One change keeps exact counters exact if and only if it is no unfaithful join. */
  lemma ApplyCached(gs: seq<Group>, c: Change)
    requires WellLinked(gs) && Cached(gs)
    ensures Cached(Apply(gs, c)) <==> FaithfulJoin(gs, c)
  {
    match c
    case Birth(name) => NewGroupCached(gs, name);
    case Tie(l) => if l.src < |gs| && l.dst < |gs| { AddLinkKeepsDegrees(gs, l); }
    case Join(g, h) => if g < |gs| { AddHostKeepsDegrees(gs, g, h); }
  }

  lemma {:induction false} HistoryWellLinked(gs: seq<Group>, cs: seq<Change>)
    requires WellLinked(gs)
    ensures WellLinked(ApplyAll(gs, cs))
  {
    if |cs| > 0 {
      HistoryWellLinked(gs, cs[..|cs| - 1]);
      ApplyWellLinked(ApplyAll(gs, cs[..|cs| - 1]), cs[|cs| - 1]);
    }
  }

  lemma {:induction false} CachedIff(gs: seq<Group>, cs: seq<Change>)
    requires WellLinked(gs) && Cached(gs)
    ensures AlwaysCached(gs, cs) <==> FaithfulJoins(gs, cs)
  {
    if |cs| > 0 {
      var n := |cs| - 1;
      CachedIff(gs, cs[..n]);
      HistoryWellLinked(gs, cs[..n]);
      if Cached(ApplyAll(gs, cs[..n])) { ApplyCached(ApplyAll(gs, cs[..n]), cs[n]); }
      assert AlwaysCached(gs, cs[..n]) ==> Cached(ApplyAll(gs, cs[..n]));
    }
  }

  // ----- the changes a statement makes -----

  function OneChange(d: Daemon, g: nat, dh: DataHost, threads: ThreadSpec, nb: nat): seq<Change>
    requires g < |d.groups|
  {
    if dh.name != d.me then [Join(g, GroupHost(dh.name, false, Wanted(dh, threads, nb), []))]
    else var p := Place(d.loads, threads, Wanted(dh, threads, nb));
      if p.None? then [] else [Join(g, LocalHost(d.groups, g, d.me, p.value))]
  }

  function EachChanges(d: Daemon, g: nat, dhs: seq<DataHost>, threads: ThreadSpec, nb: nat): seq<Change>
    requires g < |d.groups|
  {
    if |dhs| == 0 then [] else
    var before := AssignEach(d, g, dhs[..|dhs| - 1], threads, nb);
    EachChanges(d, g, dhs[..|dhs| - 1], threads, nb)
      + (if before.Ok? then OneChange(before.d, g, dhs[|dhs| - 1], threads, nb) else [])
  }

  function SameChange(d: Daemon, g: nat, h: GroupHost, limit: Option<nat>): Change
    requires g < |d.groups|
  {
    if h.local then Join(g, LocalHost(d.groups, g, d.me, SameThreads(h, limit)))
    else Join(g, GroupHost(h.host, false, Min(limit, h.count), []))
  }

  function SameChanges(d: Daemon, g: nat, hosts: seq<GroupHost>, limit: Option<nat>): seq<Change>
    requires g < |d.groups|
  {
    if |hosts| == 0 then [] else
    SameChanges(d, g, hosts[..|hosts| - 1], limit)
      + [SameChange(AssignSameEach(d, g, hosts[..|hosts| - 1], limit), g, hosts[|hosts| - 1], limit)]
  }

  function StepChanges(d: Daemon, s: Stmt): seq<Change> {
    match s
    case DeclareGroup(name) => [Birth(name)]
    case Connect(src, dst, kind) =>
      var a, b := FindGroup(Names(d.groups), src), FindGroup(Names(d.groups), dst);
      if a.Some? && b.Some? then [Tie(LinkOf(a.value, b.value, kind))] else []
    case Assign(group, spec, threads, nb) =>
      var g := FindGroup(Names(d.groups), group);
      if g.None? then []
      else if spec.Wildcard? then EachChanges(d, g.value, d.dataHosts, threads, nb)
      else var dh := FindHost(d.dataHosts, spec.host);
        if dh.None? then [] else OneChange(d, g.value, dh.value, threads, nb)
    case AssignSame(group, ref, limit) =>
      var g, r := FindGroup(Names(d.groups), group), FindGroup(Names(d.groups), ref);
      if g.None? || r.None? || g == r then [] else SameChanges(d, g.value, d.groups[r.value].hosts, limit)
    case _ => []
  }

  /** All the changes of a replay, in order. */
  function History(d: Daemon, stmts: seq<Stmt>): seq<Change> {
    if |stmts| == 0 then [] else
    var before := Exec(d, stmts[..|stmts| - 1]);
    History(d, stmts[..|stmts| - 1]) + (if before.Ok? then StepChanges(before.d, stmts[|stmts| - 1]) else [])
  }

  lemma ApplyOne(gs: seq<Group>, c: Change)
    ensures ApplyAll(gs, [c]) == Apply(gs, c)
  {
    assert [c][..0] == [];
    assert ApplyAll(gs, []) == gs;
  }

  lemma OneIsChange(d: Daemon, g: nat, dh: DataHost, threads: ThreadSpec, nb: nat)
    requires g < |d.groups| && AssignOne(d, g, dh, threads, nb).Ok?
    ensures AssignOne(d, g, dh, threads, nb).d.groups == ApplyAll(d.groups, OneChange(d, g, dh, threads, nb))
  {
    var cs := OneChange(d, g, dh, threads, nb);
    ApplyOne(d.groups, cs[0]);
    assert cs == [cs[0]];
  }

  lemma {:induction false} EachAreChanges(d: Daemon, g: nat, dhs: seq<DataHost>, threads: ThreadSpec, nb: nat)
    requires g < |d.groups| && AssignEach(d, g, dhs, threads, nb).Ok?
    ensures AssignEach(d, g, dhs, threads, nb).d.groups == ApplyAll(d.groups, EachChanges(d, g, dhs, threads, nb))
  {
    if |dhs| > 0 {
      var n := |dhs| - 1;
      EachAreChanges(d, g, dhs[..n], threads, nb);
      var before := AssignEach(d, g, dhs[..n], threads, nb).d;
      OneIsChange(before, g, dhs[n], threads, nb);
      ApplyConcat(d.groups, EachChanges(d, g, dhs[..n], threads, nb), OneChange(before, g, dhs[n], threads, nb));
    }
  }

  lemma {:induction false} SamesAreChanges(d: Daemon, g: nat, hosts: seq<GroupHost>, limit: Option<nat>)
    requires g < |d.groups|
    ensures AssignSameEach(d, g, hosts, limit).groups == ApplyAll(d.groups, SameChanges(d, g, hosts, limit))
  {
    if |hosts| > 0 {
      var n := |hosts| - 1;
      SamesAreChanges(d, g, hosts[..n], limit);
      var before := AssignSameEach(d, g, hosts[..n], limit);
      var c := SameChange(before, g, hosts[n], limit);
      ApplyOne(before.groups, c);
      ApplyConcat(d.groups, SameChanges(d, g, hosts[..n], limit), [c]);
    }
  }

  lemma StepIsChanges(d: Daemon, s: Stmt)
    requires Step(d, s).Ok?
    ensures Step(d, s).d.groups == ApplyAll(d.groups, StepChanges(d, s))
  {
    match s
    case DeclareGroup(name) => ApplyOne(d.groups, Birth(name));
    case Connect(src, dst, kind) =>
      var a, b := FindGroup(Names(d.groups), src), FindGroup(Names(d.groups), dst);
      if a.Some? && b.Some? { ApplyOne(d.groups, Tie(LinkOf(a.value, b.value, kind))); }
    case Assign(group, spec, threads, nb) =>
      var g := FindGroup(Names(d.groups), group);
      if g.Some? {
        if spec.Wildcard? {
          EachAreChanges(d, g.value, d.dataHosts, threads, nb);
        } else {
          OneIsChange(d, g.value, FindHost(d.dataHosts, spec.host).value, threads, nb);
        }
      }
    case AssignSame(group, ref, limit) =>
      var g, r := FindGroup(Names(d.groups), group), FindGroup(Names(d.groups), ref);
      if g.Some? && r.Some? && g != r { SamesAreChanges(d, g.value, d.groups[r.value].hosts, limit); }
    case _ =>
  }

  lemma {:induction false} ReplayIsHistory(d: Daemon, stmts: seq<Stmt>)
    requires Exec(d, stmts).Ok?
    ensures Exec(d, stmts).d.groups == ApplyAll(d.groups, History(d, stmts))
  {
    if |stmts| > 0 {
      var n := |stmts| - 1;
      ReplayIsHistory(d, stmts[..n]);
      var before := Exec(d, stmts[..n]).d;
      StepIsChanges(before, stmts[n]);
      ApplyConcat(d.groups, History(d, stmts[..n]), StepChanges(before, stmts[n]));
    }
  }

  /**
   On any daemon and for any text, the cached degrees are exact after every single change of the replay if
   and only if every host that joins a group is faithful to the links the group then has.
   */
  lemma ReplayIsExactIff(me: string, spreader: bool, all: seq<Stmt>)
    requires Replay(me, spreader, all).Ok?
    ensures var h := History(Start(me, spreader, all), all);
      && Replay(me, spreader, all).d.groups == ApplyAll([], h)
      && WellLinked(ApplyAll([], h))
      && (AlwaysCached([], h) <==> FaithfulJoins([], h))
  {
    var h := History(Start(me, spreader, all), all);
    ReplayIsHistory(Start(me, spreader, all), all);
    HistoryWellLinked([], h);
    CachedIff([], h);
  }

  // ----- how far a counter is off -----

  function EmptyTo(g: nat, n: nat, h: GroupHost): Link -> int {
    (l: Link) => if l.dst == g && EmptyFirst(l, n, h) then 1 else 0
  }

  function LateTo(g: nat, n: nat, k: nat, h: GroupHost): Link -> int {
    (l: Link) => if l.dst == g && LateLocal(l, n, k, h) then 1 else 0
  }

  /** Over how many links of group x a change is an empty first join. */
  function EmptyFirsts(gs: seq<Group>, c: Change, x: nat): int {
    if c.Join? && c.g < |gs| && x < |gs| then SumOver(gs[x].outs, EmptyTo(c.g, gs[c.g].nbNodes, c.h)) else 0
  }

  /** Over how many links of group x a change is a late local join. */
  function LateLocals(gs: seq<Group>, c: Change, x: nat): int {
    if c.Join? && c.g < |gs| && x < |gs|
    then SumOver(gs[x].outs, LateTo(c.g, gs[c.g].nbNodes, gs[c.g].nbLocal, c.h)) else 0
  }

  function AllEmptyFirsts(gs: seq<Group>, cs: seq<Change>, x: nat): int {
    if |cs| == 0 then 0 else
    var n := |cs| - 1; AllEmptyFirsts(gs, cs[..n], x) + EmptyFirsts(ApplyAll(gs, cs[..n]), cs[n], x)
  }

  function AllLateLocals(gs: seq<Group>, cs: seq<Change>, x: nat): int {
    if |cs| == 0 then 0 else
    var n := |cs| - 1; AllLateLocals(gs, cs[..n], x) + LateLocals(ApplyAll(gs, cs[..n]), cs[n], x)
  }

  /** How many neighbours the counter of group x misses. */
  function Gap(gs: seq<Group>, x: nat): int
    requires x < |gs|
  {
    OutDegree(gs, x) - gs[x].nbOut
  }

  lemma {:induction false} MissesSplit(ls: seq<Link>, g: nat, n: nat, k: nat, h: GroupHost)
    requires k <= n
    ensures SumOver(ls, MissTo(g, n, k, h)) == SumOver(ls, EmptyTo(g, n, h)) - SumOver(ls, LateTo(g, n, k, h))
  {
    if |ls| > 0 {
      MissesSplit(ls[..|ls| - 1], g, n, k, h);
      FaithfulExactly(ls[|ls| - 1], n, k, h);
    }
  }

  lemma BirthGap(gs: seq<Group>, name: string, x: nat)
    requires WellLinked(gs) && x <= |gs|
    ensures Gap(gs + [NewGroup(name)], x) == if x < |gs| then Gap(gs, x) else 0
  {
    var r := gs + [NewGroup(name)];
    if x < |gs| { SumSame(gs[x].outs, OutF(r), OutF(gs)); }
  }

  /** One change moves the gap of an existing group by its empty first joins less its late local ones. */
  lemma ApplyGap(gs: seq<Group>, c: Change, x: nat)
    requires WellLinked(gs) && x < |gs|
    ensures x < |Apply(gs, c)| && Gap(Apply(gs, c), x) == Gap(gs, x) + EmptyFirsts(gs, c, x) - LateLocals(gs, c, x)
  {
    match c
    case Birth(name) => BirthGap(gs, name, x);
    case Tie(l) => if l.src < |gs| && l.dst < |gs| { AddLinkDegrees(gs, l, x); }
    case Join(g, h) =>
      if g < |gs| {
        CounterGap(gs, g, h, x);
        MissesSplit(gs[x].outs, g, gs[g].nbNodes, gs[g].nbLocal, h);
      }
  }

  lemma {:induction false} NothingBeforeBirth(cs: seq<Change>, x: nat)
    requires x >= |ApplyAll([], cs)|
    ensures AllEmptyFirsts([], cs, x) == AllLateLocals([], cs, x) == 0
  {
    if |cs| > 0 { NothingBeforeBirth(cs[..|cs| - 1], x); }
  }

  /** The counter of a group misses one neighbour per empty first join and has one too many per late local join. */
  lemma {:induction false} HistoryGap(cs: seq<Change>, x: nat)
    requires x < |ApplyAll([], cs)|
    ensures Gap(ApplyAll([], cs), x) == AllEmptyFirsts([], cs, x) - AllLateLocals([], cs, x)
  {
    if |cs| > 0 {
      var n := |cs| - 1;
      var before := ApplyAll([], cs[..n]);
      HistoryWellLinked([], cs[..n]);
      if x < |before| {
        HistoryGap(cs[..n], x);
        ApplyGap(before, cs[n], x);
      } else {
        NothingBeforeBirth(cs[..n], x);
        BirthGap(before, cs[n].name, x);
      }
    }
  }

  /** The first local nodes of every group with a -L> link to itself come before remote ones, or after none. */
  predicate NoLateJoin(gs: seq<Group>, c: Change) {
    c.Join? && c.g < |gs| ==> forall l :: l in gs[c.g].outs ==> !LateLocal(l, gs[c.g].nbNodes, gs[c.g].nbLocal, c.h)
  }

  predicate NoLateJoins(gs: seq<Group>, cs: seq<Change>) {
    |cs| == 0 || (var n := |cs| - 1; NoLateJoins(gs, cs[..n]) && NoLateJoin(ApplyAll(gs, cs[..n]), cs[n]))
  }

  lemma {:induction false} SumVanishes(ls: seq<Link>, f: Link -> int)
    requires forall l :: l in ls ==> f(l) == 0
    ensures SumOver(ls, f) == 0
  {
    if |ls| > 0 { SumVanishes(ls[..|ls| - 1], f); }
  }

  lemma {:induction false} SumNonNegative(ls: seq<Link>, f: Link -> int)
    requires forall l :: l in ls ==> f(l) >= 0
    ensures SumOver(ls, f) >= 0
  {
    if |ls| > 0 { SumNonNegative(ls[..|ls| - 1], f); }
  }

  lemma {:induction false} LateJoinsAreCounted(cs: seq<Change>, x: nat)
    ensures AllEmptyFirsts([], cs, x) >= 0
    ensures NoLateJoins([], cs) ==> AllLateLocals([], cs, x) == 0
  {
    if |cs| > 0 {
      var n, c := |cs| - 1, cs[|cs| - 1];
      var gs := ApplyAll([], cs[..n]);
      LateJoinsAreCounted(cs[..n], x);
      HistoryWellLinked([], cs[..n]);
      if c.Join? && c.g < |gs| && x < |gs| {
        SumNonNegative(gs[x].outs, EmptyTo(c.g, gs[c.g].nbNodes, c.h));
        if NoLateJoin(gs, c) { SumVanishes(gs[x].outs, LateTo(c.g, gs[c.g].nbNodes, gs[c.g].nbLocal, c.h)); }
      }
    }
  }

  // ----- a condition on the text that suffices -----

  /** Assignments bring nodes to every host they name, and -L> links join different groups. */
  predicate Tame(s: Stmt) {
    match s
    case DeclareHost(_, n) => n > 0
    case Connect(src, dst, kind) => kind == ToLocal ==> src != dst
    case Assign(_, _, _, nb) => nb > 0
    case AssignSame(_, _, limit) => limit.Some? ==> limit.value > 0
    case _ => true
  }

  predicate TameChange(c: Change) {
    match c
    case Birth(_) => true
    case Tie(l) => l.onlyLocal ==> l.src != l.dst
    case Join(_, h) => h.count > 0
  }

  ghost predicate AllTame(cs: seq<Change>) {
    forall i :: 0 <= i < |cs| ==> TameChange(cs[i])
  }

  /** All hosts bring nodes, and no -L> link leads from a group to itself. */
  ghost predicate Populated(gs: seq<Group>) {
    && (forall g :: 0 <= g < |gs| ==> forall h :: h in gs[g].hosts ==> h.count > 0)
    && (forall g :: 0 <= g < |gs| ==> forall l :: l in gs[g].outs && l.onlyLocal ==> l.src != l.dst)
  }

  lemma ApplyPopulated(gs: seq<Group>, c: Change)
    requires Populated(gs) && TameChange(c)
    ensures Populated(Apply(gs, c)) && FaithfulJoin(gs, c)
  {
    match c
    case Birth(name) =>
    case Tie(l) =>
      if l.src < |gs| && l.dst < |gs| {
        forall x | 0 <= x < |gs|
          ensures AddLink(gs, l)[x].hosts == gs[x].hosts
          ensures forall k :: k in AddLink(gs, l)[x].outs && k.onlyLocal ==> k.src != k.dst
        {
          AddLinkAt(gs, l, x);
        }
      }
    case Join(g, h) =>
      if g < |gs| {
        forall x | 0 <= x < |gs|
          ensures forall k :: k in AddHost(gs, g, h)[x].hosts ==> k.count > 0
          ensures AddHost(gs, g, h)[x].outs == gs[x].outs
        {
          AddHostAt(gs, g, h, x);
        }
      }
  }

  lemma {:induction false} TameIsFaithful(cs: seq<Change>)
    requires AllTame(cs)
    ensures Populated(ApplyAll([], cs)) && FaithfulJoins([], cs)
  {
    if |cs| > 0 {
      TameIsFaithful(cs[..|cs| - 1]);
      ApplyPopulated(ApplyAll([], cs[..|cs| - 1]), cs[|cs| - 1]);
    }
  }

  lemma ProductPositive(a: nat, b: nat)
    requires a > 0 && b > 0
    ensures a * b > 0
  {
  }

  lemma {:induction false} EachTame(d: Daemon, g: nat, dhs: seq<DataHost>, threads: ThreadSpec, nb: nat)
    requires g < |d.groups| && nb > 0 && forall dh :: dh in dhs ==> dh.nbThreads > 0
    ensures AllTame(EachChanges(d, g, dhs, threads, nb))
  {
    if |dhs| > 0 {
      EachTame(d, g, dhs[..|dhs| - 1], threads, nb);
      assert dhs[|dhs| - 1] in dhs;
      ProductPositive(nb, dhs[|dhs| - 1].nbThreads);
    }
  }

  lemma {:induction false} SamesTame(d: Daemon, g: nat, hosts: seq<GroupHost>, limit: Option<nat>)
    requires g < |d.groups| && (limit.Some? ==> limit.value > 0)
    requires forall h :: h in hosts ==> h.count > 0 && (h.local ==> |h.nodes| == h.count)
    ensures AllTame(SameChanges(d, g, hosts, limit))
  {
    if |hosts| > 0 {
      SamesTame(d, g, hosts[..|hosts| - 1], limit);
      assert hosts[|hosts| - 1] in hosts;
    }
  }

  lemma StepTame(d: Daemon, s: Stmt)
    requires DaemonOk(d) && Populated(d.groups) && Tame(s) && forall dh :: dh in d.dataHosts ==> dh.nbThreads > 0
    ensures AllTame(StepChanges(d, s))
  {
    match s
    case Assign(group, spec, threads, nb) =>
      var g := FindGroup(Names(d.groups), group);
      if g.Some? {
        EachTame(d, g.value, d.dataHosts, threads, nb);
        var dh := FindHost(d.dataHosts, if spec.Named? then spec.host else "");
        if dh.Some? { ProductPositive(nb, dh.value.nbThreads); }
      }
    case AssignSame(group, ref, limit) =>
      var g, r := FindGroup(Names(d.groups), group), FindGroup(Names(d.groups), ref);
      if g.Some? && r.Some? && g != r {
        assert GroupOk(d.me, d.groups[r.value]);
        SamesTame(d, g.value, d.groups[r.value].hosts, limit);
      }
    case _ =>
  }

  lemma {:induction false} HostsHaveThreads(stmts: seq<Stmt>)
    requires forall s :: s in stmts ==> Tame(s)
    ensures forall dh :: dh in Hosts(stmts) ==> dh.nbThreads > 0
  {
    if |stmts| > 0 {
      HostsHaveThreads(stmts[..|stmts| - 1]);
      assert Tame(stmts[|stmts| - 1]);
    }
  }

  lemma {:induction false} HistoryTame(me: string, spreader: bool, all: seq<Stmt>, i: nat)
    requires i <= |all| && (forall s :: s in all ==> Tame(s)) && Exec(Start(me, spreader, all), all[..i]).Ok?
    ensures AllTame(History(Start(me, spreader, all), all[..i]))
  {
    if i > 0 {
      var n := i - 1;
      assert all[..i][..n] == all[..n];
      OkBefore(Start(me, spreader, all), all, n);
      HistoryTame(me, spreader, all, n);
      TameIsFaithful(History(Start(me, spreader, all), all[..n]));
      ReplayIsHistory(Start(me, spreader, all), all[..n]);
      ReplayViews(me, spreader, all, n);
      HostsHaveThreads(all);
      HostsHaveThreads(all[..n]);
      StepTame(Exec(Start(me, spreader, all), all[..n]).d, all[n]);
    }
  }

  /** A text of tame statements keeps every counter exact on every daemon. */
  lemma TameTextIsExact(me: string, spreader: bool, all: seq<Stmt>)
    requires (forall s :: s in all ==> Tame(s)) && Replay(me, spreader, all).Ok?
    ensures var h := History(Start(me, spreader, all), all); FaithfulJoins([], h) && AlwaysCached([], h)
  {
    assert all[..|all|] == all;
    HistoryTame(me, spreader, all, |all|);
    TameIsFaithful(History(Start(me, spreader, all), all));
    ReplayIsExactIff(me, spreader, all);
  }
}
