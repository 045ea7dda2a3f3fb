/** Agreement between the replays of one model text, and when a replay reaches the end of the text. */
module Replicas {
  import opened Vectors
  import opened Threads
  import opened Topologies
  import opened ModelReplay

  // ----- when replays agree -----

  function GroupNames(stmts: seq<Stmt>): seq<string> {
    if |stmts| == 0 then [] else
    GroupNames(stmts[..|stmts| - 1]) + (if stmts[|stmts| - 1].DeclareGroup? then [stmts[|stmts| - 1].name] else [])
  }

  /** Statement i hands nodes of an existing group to all hosts, with some host not declared yet. */
  predicate Untimely(stmts: seq<Stmt>, i: nat)
    requires i < |stmts|
  {
    && stmts[i].Assign? && stmts[i].spec.Wildcard?
    && FindGroup(GroupNames(stmts[..i]), stmts[i].group).Some?
    && Hosts(stmts[..i]) != Hosts(stmts)
  }

  /** Every wildcard assignment to an existing group comes after the last declaration of a new host. */
  predicate Timely(stmts: seq<Stmt>) {
    forall i :: 0 <= i < |stmts| ==> !Untimely(stmts, i)
  }

  lemma AddCountsAt(vs: seq<GroupView>, g: nat, cs: seq<HostCount>, x: nat)
    requires g < |vs| && x < |vs|
    ensures var r := AddCounts(vs, g, cs);
      r[x].name == vs[x].name && |r[x].hosts| == |vs[x].hosts| + (if x == g then |cs| else 0)
  {
    if |cs| > 0 { AddCountsAt(vs, g, cs[..|cs| - 1], x); }
  }

  lemma ViewStepNames(vs: seq<GroupView>, dhs: seq<DataHost>, s: Stmt)
    ensures ViewNames(ViewStep(vs, dhs, s)) == ViewNames(vs) + (if s.DeclareGroup? then [s.name] else [])
  {
    var r := ViewStep(vs, dhs, s);
    forall x | 0 <= x < |vs| ensures x < |r| && r[x].name == vs[x].name {
      var names := ViewNames(vs);
      match s
      case Assign(group, spec, threads, nb) =>
        var g := FindGroup(names, group);
        if g.Some? {
          if spec.Wildcard? {
            AddCountsAt(vs, g.value, Wants(dhs, threads, nb), x);
          } else if FindHost(dhs, spec.host).Some? {
            AddCountsAt(vs, g.value, Wants([FindHost(dhs, spec.host).value], threads, nb), x);
          }
        }
      case AssignSame(group, ref, limit) =>
        var g, h := FindGroup(names, group), FindGroup(names, ref);
        if g.Some? && h.Some? { AddCountsAt(vs, g.value, Limited(vs[h.value].hosts, limit), x); }
      case _ =>
    }
    assert |r| == |vs| + (if s.DeclareGroup? then 1 else 0);
  }

  lemma {:induction false} RunNames(stmts: seq<Stmt>, spreader: bool, all: seq<Stmt>)
    ensures ViewNames(ViewRun(stmts, spreader, all)) == GroupNames(stmts)
  {
    if |stmts| > 0 {
      var n := |stmts| - 1;
      RunNames(stmts[..n], spreader, all);
      ViewStepNames(ViewRun(stmts[..n], spreader, all), if spreader then Hosts(all) else Hosts(stmts[..n]), stmts[n]);
    }
  }

  function Start(me: string, spreader: bool, all: seq<Stmt>): Daemon {
    Daemon(me, [], if spreader then Hosts(all) else [], [])
  }

  lemma OkBefore(d: Daemon, stmts: seq<Stmt>, i: nat)
    requires i < |stmts| && Exec(d, stmts[..i + 1]).Ok?
    ensures Exec(d, stmts[..i]).Ok? && Step(Exec(d, stmts[..i]).d, stmts[i]).Ok?
  {
    assert stmts[..i + 1][..i] == stmts[..i];
  }

  lemma NamedNeedsHost(d: Daemon, s: Stmt)
    requires s.Assign? && s.spec.Named? && FindGroup(Names(d.groups), s.group).Some? && Step(d, s).Ok?
    ensures FindHost(d.dataHosts, s.spec.host).Some?
  {
  }

  /** A host known to a prefix is the same host for the spreader. */
  lemma KnownHostStays(all: seq<Stmt>, i: nat, name: string)
    requires i <= |all| && FindHost(Hosts(all[..i]), name).Some?
    ensures FindHost(Hosts(all), name) == FindHost(Hosts(all[..i]), name)
  {
    HostsGrow(all, i);
    var known, later := Hosts(all[..i]), Hosts(all)[|Hosts(all[..i])|..];
    assert Hosts(all) == known + later;
    FindHostGrows(known, later, name);
  }

  /** A named host that a replay without foresight has found is the same host for the spreader. */
  lemma NamedHostFound(me: string, all: seq<Stmt>, i: nat)
    requires i < |all| && Exec(Start(me, false, all), all[..i + 1]).Ok?
    requires all[i].Assign? && all[i].spec.Named? && FindGroup(GroupNames(all[..i]), all[i].group).Some?
    ensures FindHost(Hosts(all[..i]), all[i].spec.host).Some?
    ensures FindHost(Hosts(all), all[i].spec.host) == FindHost(Hosts(all[..i]), all[i].spec.host)
  {
    OkBefore(Start(me, false, all), all, i);
    ReplayViews(me, false, all, i);
    RunNames(all[..i], false, all);
    var d := Exec(Start(me, false, all), all[..i]).d;
    NamesOfViews(d.groups);
    NamedNeedsHost(d, all[i]);
    KnownHostStays(all, i, all[i].spec.host);
  }

  lemma RunNext(all: seq<Stmt>, n: nat, spreader: bool)
    requires n < |all|
    ensures ViewRun(all[..n + 1], spreader, all)
         == ViewStep(ViewRun(all[..n], spreader, all), if spreader then Hosts(all) else Hosts(all[..n]), all[n])
  {
    assert all[..n + 1][..n] == all[..n];
  }

  /** Up to the first untimely wildcard, foresight makes no difference. */
  lemma {:induction false} RunsAgree(me: string, all: seq<Stmt>, i: nat)
    requires i <= |all| && Exec(Start(me, false, all), all[..i]).Ok?
    requires forall j :: 0 <= j < i ==> !Untimely(all, j)
    ensures ViewRun(all[..i], true, all) == ViewRun(all[..i], false, all)
  {
    if i > 0 {
      var n := i - 1;
      OkBefore(Start(me, false, all), all, n);
      RunsAgree(me, all, n);
      RunNext(all, n, false);
      RunNext(all, n, true);
      RunNames(all[..n], false, all);
      assert !Untimely(all, n);
      if all[n].Assign? && all[n].spec.Named? && FindGroup(GroupNames(all[..n]), all[n].group).Some? {
        NamedHostFound(me, all, n);
      }
    }
  }

  /** Every group has at least as many hosts for the spreader, and group x strictly more. */
  ghost predicate Ahead(few: seq<GroupView>, many: seq<GroupView>, x: nat) {
    && |few| == |many| && x < |few| && |few[x].hosts| < |many[x].hosts|
    && NoFewer(few, many)
  }

  ghost predicate NoFewer(few: seq<GroupView>, many: seq<GroupView>) {
    |few| == |many| && forall g :: 0 <= g < |few| ==> |few[g].hosts| <= |many[g].hosts|
  }

  lemma AddMore(few: seq<GroupView>, many: seq<GroupView>, g: nat, cs: seq<HostCount>, ds: seq<HostCount>)
    requires NoFewer(few, many) && g < |few| && |cs| <= |ds|
    ensures NoFewer(AddCounts(few, g, cs), AddCounts(many, g, ds))
    ensures forall x :: Ahead(few, many, x) ==> Ahead(AddCounts(few, g, cs), AddCounts(many, g, ds), x)
    ensures |cs| < |ds| ==> Ahead(AddCounts(few, g, cs), AddCounts(many, g, ds), g)
  {
    forall x | 0 <= x < |few|
      ensures |AddCounts(few, g, cs)[x].hosts| == |few[x].hosts| + (if x == g then |cs| else 0)
      ensures |AddCounts(many, g, ds)[x].hosts| == |many[x].hosts| + (if x == g then |ds| else 0)
    {
      AddCountsAt(few, g, cs, x);
      AddCountsAt(many, g, ds, x);
    }
  }

  /** The spreader is ahead in some group. */
  ghost predicate AheadSomewhere(few: seq<GroupView>, many: seq<GroupView>) {
    exists x :: Ahead(few, many, x)
  }

  ghost predicate UntimelyBefore(all: seq<Stmt>, i: nat)
    requires i <= |all|
  {
    exists j :: 0 <= j < i && Untimely(all, j)
  }

  /** The spreader never has fewer hosts in a group, and an untimely wildcard puts it ahead for good. */
  lemma {:induction false} SpreaderAhead(me: string, all: seq<Stmt>, i: nat)
    requires i <= |all| && Exec(Start(me, false, all), all[..i]).Ok?
    ensures var few, many := ViewRun(all[..i], false, all), ViewRun(all[..i], true, all);
      NoFewer(few, many) && (UntimelyBefore(all, i) ==> AheadSomewhere(few, many))
  {
    if i > 0 {
      var n := i - 1;
      OkBefore(Start(me, false, all), all, n);
      SpreaderAhead(me, all, n);
      AheadStep(me, all, n);
      RunNext(all, n, false);
      RunNext(all, n, true);
      UntimelyNext(all, n);
    }
  }

  lemma UntimelyNext(all: seq<Stmt>, n: nat)
    requires n < |all|
    ensures UntimelyBefore(all, n + 1) ==> UntimelyBefore(all, n) || Untimely(all, n)
  {
  }

  lemma ConnectAhead(few: seq<GroupView>, many: seq<GroupView>, f: seq<DataHost>, m: seq<DataHost>, s: Stmt)
    requires NoFewer(few, many) && ViewNames(few) == ViewNames(many)
    requires s.Connect? || s.DeclareGroup? || s.DeclareHost? || s.SetProperty?
    ensures NoFewer(ViewStep(few, f, s), ViewStep(many, m, s))
    ensures forall x :: Ahead(few, many, x) ==> Ahead(ViewStep(few, f, s), ViewStep(many, m, s), x)
  {
  }

  lemma SameAhead(few: seq<GroupView>, many: seq<GroupView>, f: seq<DataHost>, m: seq<DataHost>, s: Stmt)
    requires NoFewer(few, many) && ViewNames(few) == ViewNames(many) && s.AssignSame?
    ensures NoFewer(ViewStep(few, f, s), ViewStep(many, m, s))
    ensures forall x :: Ahead(few, many, x) ==> Ahead(ViewStep(few, f, s), ViewStep(many, m, s), x)
  {
    var g, r := FindGroup(ViewNames(few), s.group), FindGroup(ViewNames(few), s.ref);
    if g.Some? && r.Some? && g != r {
      AddMore(few, many, g.value, Limited(few[r.value].hosts, s.limit), Limited(many[r.value].hosts, s.limit));
    }
  }

  lemma AheadStep(me: string, all: seq<Stmt>, n: nat)
    requires n < |all| && Exec(Start(me, false, all), all[..n + 1]).Ok?
    requires var few, many := ViewRun(all[..n], false, all), ViewRun(all[..n], true, all); NoFewer(few, many)
    ensures var few, many := ViewRun(all[..n], false, all), ViewRun(all[..n], true, all);
      var few', many' := ViewStep(few, Hosts(all[..n]), all[n]), ViewStep(many, Hosts(all), all[n]);
      && NoFewer(few', many')
      && (AheadSomewhere(few, many) || Untimely(all, n) ==> AheadSomewhere(few', many'))
  {
    var few, many := ViewRun(all[..n], false, all), ViewRun(all[..n], true, all);
    var f, m := Hosts(all[..n]), Hosts(all);
    RunNames(all[..n], false, all);
    RunNames(all[..n], true, all);
    var s := all[n];
    if s.AssignSame? {
      SameAhead(few, many, f, m, s);
    } else if s.Assign? {
      var g := FindGroup(GroupNames(all[..n]), s.group);
      if g.Some? {
        if s.spec.Wildcard? {
          HostsGrow(all, n);
          AddMore(few, many, g.value, Wants(f, s.threads, s.nb), Wants(m, s.threads, s.nb));
          assert f != m ==> |f| < |m|;
        } else {
          NamedHostFound(me, all, n);
          var want := Wants([FindHost(m, s.spec.host).value], s.threads, s.nb);
          AddMore(few, many, g.value, want, want);
        }
      }
    } else {
      ConnectAhead(few, many, f, m, s);
    }
  }

  /** Daemons that did not spread the model agree after every statement that both have executed. */
  lemma FollowersAgree(me1: string, me2: string, all: seq<Stmt>, i: nat)
    requires i <= |all| && Exec(Start(me1, false, all), all[..i]).Ok? && Exec(Start(me2, false, all), all[..i]).Ok?
    ensures Views(Exec(Start(me1, false, all), all[..i]).d.groups)
         == Views(Exec(Start(me2, false, all), all[..i]).d.groups)
  {
    ReplayViews(me1, false, all, i);
    ReplayViews(me2, false, all, i);
  }

  /** The daemon that spread the model agrees with the others if and only if every wildcard is timely. */
  lemma SpreaderAgreesIffTimely(me1: string, me2: string, all: seq<Stmt>)
    requires Replay(me1, true, all).Ok? && Replay(me2, false, all).Ok?
    ensures Views(Replay(me1, true, all).d.groups) == Views(Replay(me2, false, all).d.groups) <==> Timely(all)
  {
    assert all[..|all|] == all;
    ReplayViews(me1, true, all, |all|);
    ReplayViews(me2, false, all, |all|);
    if Timely(all) {
      RunsAgree(me2, all, |all|);
    } else {
      SpreaderAhead(me2, all, |all|);
      assert UntimelyBefore(all, |all|);
    }
  }

  /** A wildcard that comes before the second host. */
  function EarlyWildcard(): (all: seq<Stmt>)
    ensures |all| == 4
  {
    [DeclareHost("a", 1), DeclareGroup("g"), Assign("g", Wildcard, Spread, 1), DeclareHost("b", 1)]
  }

  lemma EarlyWildcardUntimely()
    ensures !Timely(EarlyWildcard())
  {
    var all := EarlyWildcard();
    var h1, h2, h3 := [all[0]], [all[0], all[1]], [all[0], all[1], all[2]];
    assert all[..2] == h2 && all[..3] == h3 && h2[..1] == h1 && h3[..2] == h2 && h1[..0] == [];
    assert Hosts([]) == [];
    assert Hosts(h1) == [DataHost("a", 1)];
    assert Hosts(h2) == Hosts(h3) == [DataHost("a", 1)];
    assert FindHost([DataHost("a", 1)], "b").None?;
    assert Hosts(all) == [DataHost("a", 1), DataHost("b", 1)];
    assert GroupNames(h1) == [];
    assert GroupNames(h2) == ["g"];
    assert Untimely(all, 2);
  }

  /** A daemon that none of the data hosts names executes the wildcard without an exception. */
  lemma {:induction false} RemoteWildcard(d: Daemon, g: nat, dhs: seq<DataHost>, threads: ThreadSpec, nb: nat)
    requires g < |d.groups| && forall dh :: dh in dhs ==> dh.name != d.me
    ensures AssignEach(d, g, dhs, threads, nb).Ok? && AssignEach(d, g, dhs, threads, nb).d.me == d.me
  {
    if |dhs| > 0 {
      RemoteWildcard(d, g, dhs[..|dhs| - 1], threads, nb);
      assert dhs[|dhs| - 1] in dhs;
    }
  }

  lemma {:induction false} HostNames(stmts: seq<Stmt>, me: string)
    requires forall i :: 0 <= i < |stmts| && stmts[i].DeclareHost? ==> stmts[i].name != me
    ensures forall dh :: dh in Hosts(stmts) ==> dh.name != me
  {
    if |stmts| > 0 { HostNames(stmts[..|stmts| - 1], me); }
  }

  lemma EarlyWildcardRuns(spreader: bool)
    ensures Replay("c", spreader, EarlyWildcard()).Ok?
  {
    var all := EarlyWildcard();
    var h1, h2, h3 := [all[0]], [all[0], all[1]], [all[0], all[1], all[2]];
    assert all[..3] == h3 && h2[..1] == h1 && h3[..2] == h2 && h1[..0] == [];
    var d := Start("c", spreader, all);
    assert Exec(d, []) == Ok(d);
    HostNames(all, "c");
    HostNames(h1, "c");
    assert "c" != "a" && "c" != "b";
    var d1 := Step(d, all[0]).d;
    assert Exec(d, h1) == Ok(d1) && d1.me == "c" && forall dh :: dh in d1.dataHosts ==> dh.name != "c";
    var d2 := Step(d1, all[1]).d;
    assert Exec(d, h2) == Ok(d2) && d2.me == "c" && d2.dataHosts == d1.dataHosts;
    if FindGroup(Names(d2.groups), "g").Some? {
      RemoteWildcard(d2, FindGroup(Names(d2.groups), "g").value, d2.dataHosts, Spread, 1);
    }
    assert Exec(d, h3).Ok?;
  }

  /** A concrete model text on which the spreader and the others disagree. */
  lemma EarlyWildcardDisagrees()
    ensures Replay("c", true, EarlyWildcard()).Ok? && Replay("c", false, EarlyWildcard()).Ok?
    ensures Views(Replay("c", true, EarlyWildcard()).d.groups) != Views(Replay("c", false, EarlyWildcard()).d.groups)
  {
    EarlyWildcardUntimely();
    EarlyWildcardRuns(true);
    EarlyWildcardRuns(false);
    SpreaderAgreesIffTimely("c", "c", EarlyWildcard());
  }

  /** The number of nodes daemon d instantiated for entry j of group g. */
  function Instantiated(d: Daemon, g: nat, j: nat): nat
    requires g < |d.groups| && j < |d.groups[g].hosts|
  {
    |d.groups[g].hosts[j].nodes|
  }

  /** Whoever spread the model, two replays agree if and only if both had foresight, neither had, or it is timely. */
  lemma ReplaysAgreeIff(me1: string, spreader1: bool, me2: string, spreader2: bool, all: seq<Stmt>)
    requires Replay(me1, spreader1, all).Ok? && Replay(me2, spreader2, all).Ok?
    ensures Views(Replay(me1, spreader1, all).d.groups) == Views(Replay(me2, spreader2, all).d.groups)
      <==> spreader1 == spreader2 || Timely(all)
  {
    if spreader1 == spreader2 {
      assert all[..|all|] == all;
      ReplayViews(me1, spreader1, all, |all|);
      ReplayViews(me2, spreader2, all, |all|);
    } else if spreader1 {
      SpreaderAgreesIffTimely(me1, me2, all);
    } else {
      SpreaderAgreesIffTimely(me2, me1, all);
    }
  }

  /** What one daemon believes about another's share of a group is what that daemon instantiates. */
  lemma BelievedIsInstantiated(
    me1: string, spreader1: bool, me2: string, spreader2: bool, all: seq<Stmt>, g: nat, j: nat)
    requires Replay(me1, spreader1, all).Ok? && Replay(me2, spreader2, all).Ok?
    requires spreader1 != spreader2 ==> Timely(all)
    requires g < |Replay(me1, spreader1, all).d.groups| && j < |Replay(me1, spreader1, all).d.groups[g].hosts|
    ensures var d1, d2 := Replay(me1, spreader1, all).d, Replay(me2, spreader2, all).d;
      && g < |d2.groups| && j < |d2.groups[g].hosts|
      && d2.groups[g].hosts[j].host == d1.groups[g].hosts[j].host
      && d2.groups[g].hosts[j].count == d1.groups[g].hosts[j].count
      && (d1.groups[g].hosts[j].host == me2 ==> Instantiated(d2, g, j) == d1.groups[g].hosts[j].count)
      && (d1.groups[g].hosts[j].host != me2 ==> Instantiated(d2, g, j) == 0)
  {
    assert all[..|all|] == all;
    ReplayViews(me2, spreader2, all, |all|);
    ReplaysAgreeIff(me1, spreader1, me2, spreader2, all);
    var d1, d2 := Replay(me1, spreader1, all).d, Replay(me2, spreader2, all).d;
    assert Views(d1.groups)[g] == Views(d2.groups)[g];
    assert ViewHosts(d1.groups[g].hosts)[j] == ViewHosts(d2.groups[g].hosts)[j];
    assert GroupOk(me2, d2.groups[g]);
  }

  // ----- the data hosts -----

  ghost predicate NamesOnce(dhs: seq<DataHost>) {
    forall i, j :: 0 <= i < j < |dhs| ==> dhs[i].name != dhs[j].name
  }

  /** The first declaration of a host in a text. */
  ghost predicate FirstDeclared(stmts: seq<Stmt>, i: nat, dh: DataHost) {
    && i < |stmts| && stmts[i] == DeclareHost(dh.name, dh.nbThreads)
    && forall j :: 0 <= j < i && stmts[j].DeclareHost? ==> stmts[j].name != dh.name
  }

  lemma {:induction false} NotFound(dhs: seq<DataHost>, name: string)
    ensures FindHost(dhs, name).None? <==> forall dh :: dh in dhs ==> dh.name != name
  {
    if |dhs| > 0 {
      NotFound(dhs[1..], name);
      assert dhs == [dhs[0]] + dhs[1..];
    }
  }

  /** Each declared host is known once, with the number of threads of its first declaration, and no other is. */
  lemma {:induction false} HostsAreDeclared(stmts: seq<Stmt>)
    ensures NamesOnce(Hosts(stmts))
    ensures forall dh :: dh in Hosts(stmts) ==> exists i: nat :: FirstDeclared(stmts, i, dh)
    ensures forall i :: 0 <= i < |stmts| && stmts[i].DeclareHost? ==> FindHost(Hosts(stmts), stmts[i].name).Some?
  {
    if |stmts| > 0 {
      var n, s := |stmts| - 1, stmts[|stmts| - 1];
      var before := Hosts(stmts[..n]);
      HostsAreDeclared(stmts[..n]);
      HostsGrow(stmts, |stmts|);
      assert stmts[..|stmts|] == stmts;
      if s.DeclareHost? { NotFound(before, s.name); }
      forall dh | dh in Hosts(stmts) ensures exists i: nat :: FirstDeclared(stmts, i, dh) {
        if dh in before {
          var i: nat :| FirstDeclared(stmts[..n], i, dh);
          assert FirstDeclared(stmts, i, dh);
        } else {
          NewlyDeclared(stmts, dh);
        }
      }
    }
  }

  lemma {:induction false} NewlyDeclared(stmts: seq<Stmt>, dh: DataHost)
    requires |stmts| > 0 && dh in Hosts(stmts) && dh !in Hosts(stmts[..|stmts| - 1])
    ensures FirstDeclared(stmts, |stmts| - 1, dh)
  {
    var n := |stmts| - 1;
    forall j | 0 <= j < n && stmts[j].DeclareHost? ensures stmts[j].name != dh.name {
      HostsGrow(stmts[..n], n);
      assert stmts[..n][j] == stmts[j];
    }
  }

  // ----- when a replay reaches the end of the text -----

  /** The data hosts a daemon knows after i statements. */
  function Known(spreader: bool, all: seq<Stmt>, i: nat): seq<DataHost>
    requires i <= |all|
  {
    if spreader then Hosts(all) else Hosts(all[..i])
  }

  /** The threads daemon me has created after i statements. */
  function OwnThreads(me: string, spreader: bool, all: seq<Stmt>, i: nat): nat
    requires i <= |all|
  {
    if i == 0 then 0 else
    var dh := FindHost(Known(spreader, all, i), me);
    OwnThreads(me, spreader, all, i - 1)
      + (if all[i - 1].DeclareHost? && all[i - 1].name == me && dh.Some? then dh.value.nbThreads else 0)
  }

  /** Among T threads there is one for nb new nodes. */
  predicate HasThread(T: nat, threads: ThreadSpec, nb: nat) {
    nb == 0 || (if threads.OnThread? then threads.thread < T else T > 0)
  }

  /** Whichever of the hosts are daemon me, their nodes have a thread. */
  predicate OwnHostsFit(me: string, dhs: seq<DataHost>, T: nat, threads: ThreadSpec, nb: nat) {
    |dhs| == 0 ||
    (var dh := dhs[|dhs| - 1];
     && OwnHostsFit(me, dhs[..|dhs| - 1], T, threads, nb)
     && (dh.name == me ==> HasThread(T, threads, Wanted(dh, threads, nb))))
  }

  /**
   Daemon me can execute s: a named host has been declared, nodes of its own go to threads that exist, and a
   group with hosts is not assigned like itself.
   */
  predicate Executable(me: string, vs: seq<GroupView>, dhs: seq<DataHost>, T: nat, s: Stmt) {
    match s
    case Assign(group, spec, threads, nb) =>
      var g := FindGroup(ViewNames(vs), group);
      if spec.Wildcard?
      then g.Some? ==> OwnHostsFit(me, dhs, T, threads, nb)
      else
        var dh := FindHost(dhs, spec.host);
        if dh.None? then g.None? && !threads.EveryThread?
        else g.Some? && spec.host == me ==> HasThread(T, threads, Wanted(dh.value, threads, nb))
    case AssignSame(group, ref, _) =>
      var g := FindGroup(ViewNames(vs), group);
      g.Some? && g == FindGroup(ViewNames(vs), ref) ==> vs[g.value].hosts == []
    case _ => true
  }

  predicate ExecutableAt(me: string, spreader: bool, all: seq<Stmt>, i: nat)
    requires i < |all|
  {
    Executable(me, ViewRun(all[..i], spreader, all), Known(spreader, all, i), OwnThreads(me, spreader, all, i), all[i])
  }

  lemma PlaceIff(loads: seq<nat>, threads: ThreadSpec, nb: nat)
    ensures Place(loads, threads, nb).Some? <==> HasThread(|loads|, threads, nb)
  {
  }

  lemma {:induction false} AssignEachIff(d: Daemon, g: nat, dhs: seq<DataHost>, threads: ThreadSpec, nb: nat)
    requires g < |d.groups|
    ensures var r := AssignEach(d, g, dhs, threads, nb);
      && (r.Ok? <==> OwnHostsFit(d.me, dhs, |d.loads|, threads, nb))
      && (r.Ok? ==> r.d.me == d.me && |r.d.loads| == |d.loads|)
  {
    if |dhs| > 0 {
      var n := |dhs| - 1;
      AssignEachIff(d, g, dhs[..n], threads, nb);
      var before := AssignEach(d, g, dhs[..n], threads, nb);
      if before.Ok? { PlaceIff(before.d.loads, threads, Wanted(dhs[n], threads, nb)); }
    }
  }

  lemma {:induction false} SameKeepsThreads(d: Daemon, g: nat, hosts: seq<GroupHost>, limit: Option<nat>)
    requires g < |d.groups|
    ensures |AssignSameEach(d, g, hosts, limit).loads| == |d.loads|
  {
    if |hosts| > 0 { SameKeepsThreads(d, g, hosts[..|hosts| - 1], limit); }
  }

  /** A statement is executed without an exception, a crash or an endless loop if and only if it is executable. */
  lemma StepIff(d: Daemon, s: Stmt)
    ensures Step(d, s).Ok? <==> Executable(d.me, Views(d.groups), d.dataHosts, |d.loads|, s)
  {
    NamesOfViews(d.groups);
    match s
    case Assign(group, spec, threads, nb) =>
      var g := FindGroup(Names(d.groups), group);
      if g.Some? {
        if spec.Wildcard? {
          AssignEachIff(d, g.value, d.dataHosts, threads, nb);
        } else if FindHost(d.dataHosts, spec.host).Some? {
          PlaceIff(d.loads, threads, Wanted(FindHost(d.dataHosts, spec.host).value, threads, nb));
        }
      }
    case AssignSame(group, ref, limit) =>
    case _ =>
  }

  /** How many threads a statement creates. */
  lemma StepThreads(d: Daemon, s: Stmt)
    requires Step(d, s).Ok?
    ensures var r := Step(d, s).d;
      var dh := FindHost(r.dataHosts, d.me);
      && |r.loads| == |d.loads| + (if s.DeclareHost? && s.name == d.me && dh.Some? then dh.value.nbThreads else 0)
  {
    match s
    case Assign(group, spec, threads, nb) =>
      var g := FindGroup(Names(d.groups), group);
      if g.Some? && spec.Wildcard? { AssignEachIff(d, g.value, d.dataHosts, threads, nb); }
    case AssignSame(group, ref, limit) =>
      var g, r := FindGroup(Names(d.groups), group), FindGroup(Names(d.groups), ref);
      if g.Some? && r.Some? && g != r { SameKeepsThreads(d, g.value, d.groups[r.value].hosts, limit); }
    case _ =>
  }

  lemma {:induction false} ThreadsOfRun(me: string, spreader: bool, all: seq<Stmt>, i: nat)
    requires i <= |all| && Exec(Start(me, spreader, all), all[..i]).Ok?
    ensures |Exec(Start(me, spreader, all), all[..i]).d.loads| == OwnThreads(me, spreader, all, i)
  {
    if i > 0 {
      OkBefore(Start(me, spreader, all), all, i - 1);
      ThreadsOfRun(me, spreader, all, i - 1);
      ReplayViews(me, spreader, all, i - 1);
      ReplayViews(me, spreader, all, i);
      StepThreads(Exec(Start(me, spreader, all), all[..i - 1]).d, all[i - 1]);
      assert all[..i][..i - 1] == all[..i - 1];
    }
  }

  lemma StepAtIff(me: string, spreader: bool, all: seq<Stmt>, n: nat)
    requires n < |all|
    ensures var before, after := Exec(Start(me, spreader, all), all[..n]), Exec(Start(me, spreader, all), all[..n + 1]);
      after.Ok? <==> before.Ok? && ExecutableAt(me, spreader, all, n)
  {
    assert all[..n + 1][..n] == all[..n];
    var before := Exec(Start(me, spreader, all), all[..n]);
    if before.Ok? {
      ReplayViews(me, spreader, all, n);
      ThreadsOfRun(me, spreader, all, n);
      StepIff(before.d, all[n]);
    }
  }

  /** Daemon me can execute each of the first i statements. */
  predicate AllExecutable(me: string, spreader: bool, all: seq<Stmt>, i: nat)
    requires i <= |all|
  {
    i == 0 || (AllExecutable(me, spreader, all, i - 1) && ExecutableAt(me, spreader, all, i - 1))
  }

  lemma {:induction false} RunEndsIff(me: string, spreader: bool, all: seq<Stmt>, i: nat)
    requires i <= |all|
    ensures Exec(Start(me, spreader, all), all[..i]).Ok? <==> AllExecutable(me, spreader, all, i)
  {
    if i > 0 {
      RunEndsIff(me, spreader, all, i - 1);
      StepAtIff(me, spreader, all, i - 1);
    }
  }

  /** A daemon reaches the end of a model text if and only if it can execute each of its statements. */
  lemma ReplayEndsIff(me: string, spreader: bool, all: seq<Stmt>)
    ensures Replay(me, spreader, all).Ok? <==> AllExecutable(me, spreader, all, |all|)
  {
    assert all[..|all|] == all;
    RunEndsIff(me, spreader, all, |all|);
  }
}
