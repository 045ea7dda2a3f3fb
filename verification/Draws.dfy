/**
 The neighbour indices that nodes draw from the cached out-degree of their group, and exactly when every draw
 leads to a node.
 */
module Draws {
  import opened Vectors
  import opened Threads
  import opened Topologies
  import opened ModelReplay
  import opened Replicas
  import opened Degrees
  import opened Routing

  /** rand() % count, as the source's remainder takes it: it does not see the sign of the counter. */
  function Drawn(r: nat, count: int): (i: nat)
    requires count != 0
    ensures i < Abs(count) && (r < Abs(count) ==> i == r)
  {
    SmallRest(r, Abs(count));
    r % Abs(count)
  }

  lemma SmallRest(r: nat, n: nat)
    requires n > 0
    ensures r < n ==> r % n == r
  {
  }

  function Abs(x: int): nat {
    if x < 0 then -x else x
  }

  /** Every draw of a K-means node, which draws unless the counter is zero, is routed. */
  ghost predicate ClusterDrawsRouted(d: Daemon, g: nat, s: nat)
    requires g < |d.groups| && Linked(d.groups)
  {
    var count := d.groups[g].nbOut;
    count != 0 ==> forall r: nat :: Route(d, g, s, Drawn(r, count)).Some?
  }

  /** Every draw of an averaging node, which draws if the counter is positive, is routed. */
  ghost predicate AverageDrawsRouted(d: Daemon, g: nat, s: nat)
    requires g < |d.groups| && Linked(d.groups)
  {
    var count := d.groups[g].nbOut;
    count > 0 ==> forall r: nat :: Route(d, g, s, Drawn(r, count)).Some?
  }

  lemma DrawsIff(d: Daemon, g: nat, s: nat)
    requires Routable(d, g, s) && d.groups[g].nbOut != 0
    ensures (forall r: nat :: Route(d, g, s, Drawn(r, d.groups[g].nbOut)).Some?)
      <==> Abs(d.groups[g].nbOut) <= OutDegree(d.groups, g)
  {
    var count := d.groups[g].nbOut;
    forall r: nat
      ensures Route(d, g, s, Drawn(r, count)).Some? <==> Drawn(r, count) < OutDegree(d.groups, g)
    {
      RouteTotal(d, g, s, Drawn(r, count));
    }
    SumNonNegative(d.groups[g].outs, OutF(d.groups));
    if Abs(count) > OutDegree(d.groups, g) {
      var r: nat := OutDegree(d.groups, g);
      assert Drawn(r, count) == r;
    }
  }

  /**
   No draw overflows, so no halved mass is lost, if and only if the replay made at least as many empty first
   joins to the group as late local ones, and for a K-means node, which also draws from a negative counter, not
   so many more that the counter falls below minus the out-degree.
   */
  lemma DrawnIndexIff(me: string, spreader: bool, all: seq<Stmt>, g: nat, s: nat)
    requires Replay(me, spreader, all).Ok?
    requires var d := Replay(me, spreader, all).d; g < |d.groups| && s < d.groups[g].nbLocal
    ensures var d, h := Replay(me, spreader, all).d, History(Start(me, spreader, all), all);
      var late, empty := AllLateLocals([], h, g), AllEmptyFirsts([], h, g);
      && Linked(d.groups)
      && (AverageDrawsRouted(d, g, s) <==> late <= empty)
      && (ClusterDrawsRouted(d, g, s) <==> late <= empty <= late + 2 * OutDegree(d.groups, g))
  {
    assert all[..|all|] == all;
    var d, h := Replay(me, spreader, all).d, History(Start(me, spreader, all), all);
    ReplayIsExactIff(me, spreader, all);
    ReplayViews(me, spreader, all, |all|);
    HistoryGap(h, g);
    SumNonNegative(d.groups[g].outs, OutF(d.groups));
    if d.groups[g].nbOut != 0 { DrawsIff(d, g, s); }
  }

  lemma NoLateGap(me: string, spreader: bool, all: seq<Stmt>, g: nat)
    requires Replay(me, spreader, all).Ok? && NoLateJoins([], History(Start(me, spreader, all), all))
    requires g < |Replay(me, spreader, all).d.groups|
    ensures var d, h := Replay(me, spreader, all).d, History(Start(me, spreader, all), all);
      && AllLateLocals([], h, g) == 0 <= AllEmptyFirsts([], h, g) == OutDegree(d.groups, g) - d.groups[g].nbOut
      && Linked(d.groups)
  {
    var h := History(Start(me, spreader, all), all);
    LateJoinsAreCounted(h, g);
    ReplayIsExactIff(me, spreader, all);
    HistoryGap(h, g);
  }

  /** In particular no draw overflows when no local join is late and the counter has not become negative. */
  lemma DrawnIndexNeverOverflows(me: string, spreader: bool, all: seq<Stmt>, g: nat, s: nat)
    requires Replay(me, spreader, all).Ok? && NoLateJoins([], History(Start(me, spreader, all), all))
    requires var d := Replay(me, spreader, all).d; g < |d.groups| && s < d.groups[g].nbLocal
    ensures var d := Replay(me, spreader, all).d;
      && Linked(d.groups) && AverageDrawsRouted(d, g, s)
      && (d.groups[g].nbOut >= 0 ==> ClusterDrawsRouted(d, g, s))
  {
    NoLateGap(me, spreader, all, g);
    DrawnIndexIff(me, spreader, all, g, s);
    var gs := Replay(me, spreader, all).d.groups;
    SumNonNegative(gs[g].outs, OutF(gs));
  }

  // ----- a text after which a K-means node loses mass -----

  /** An empty first assignment of a group that is linked to itself, then one node. */
  function EmptyFirstText(): (all: seq<Stmt>)
    ensures |all| == 5
  {
    [DeclareHost("a", 1), DeclareGroup("g"), Connect("g", "g", ToOthers),
     Assign("g", Named("a"), OnThread(0), 0), Assign("g", Named("a"), OnThread(0), 1)]
  }

  /** Host a with group g as given. */
  function OnHostA(g: Group, load: nat): Daemon {
    Daemon("a", [g], [DataHost("a", 1)], [load])
  }

  function SelfLink(): Link {
    Link(0, 0, false, false)
  }

  function Linking(): Group {
    NewGroup("g").(ins := [SelfLink()], outs := [SelfLink()])
  }

  function AfterEmptyJoin(): Group {
    Linking().(hosts := [GroupHost("a", true, 0, [])], nbOut := -1, nbIn := -1)
  }

  /** What the replay of that text ends in on host a: one node, and a counter of -1. */
  function LonelyDaemon(): Daemon {
    var n := GroupHost("a", true, 1, [NodeRef(0, 0)]);
    OnHostA(AfterEmptyJoin().(hosts := [GroupHost("a", true, 0, []), n], nbNodes := 1, nbLocal := 1), 1)
  }

  /** A local assignment to host a of nb nodes on its one thread. */
  lemma AssignToA(g: Group, load: nat, nb: nat, r: Group)
    requires g.name == "g" && (nb == 0 || nb == 1)
    requires AddHost([g], 0, LocalHost([g], 0, "a", Repeat(0, nb))) == [r]
    ensures Step(OnHostA(g, load), Assign("g", Named("a"), OnThread(0), nb)) == Ok(OnHostA(r, load + nb))
  {
    assert Names([g])[0] == "g";
    assert FindGroup(Names([g]), "g") == Some(0);
    assert FindHost([DataHost("a", 1)], "a") == Some(DataHost("a", 1));
    if nb == 0 {
      assert Repeat(0, 0) == [];
      assert Placed([load], []) == [load];
    } else {
      assert Repeat(0, 1) == [0];
      assert Placed([load], [0]) == [load + 1];
    }
  }

  /** One host more for the linked group alone on its list. */
  lemma JoinAlone(g: Group, h: GroupHost)
    requires g.ins == [SelfLink()] && g.outs == [SelfLink()]
    ensures var inc := Inc(SelfLink(), h, g.nbNodes == 0);
      AddHost([g], 0, h) == [Joined(g.(nbOut := g.nbOut + inc, nbIn := g.nbIn + inc), h)]
  {
    OneLink(SelfLink());
  }

  lemma EmptyJoin()
    ensures Step(OnHostA(Linking(), 0), EmptyFirstText()[3]) == Ok(OnHostA(AfterEmptyJoin(), 0))
  {
    var h := LocalHost([Linking()], 0, "a", Repeat(0, 0));
    assert h == GroupHost("a", true, 0, []);
    JoinAlone(Linking(), h);
    assert Linking().hosts + [h] == [h];
    AssignToA(Linking(), 0, 0, AfterEmptyJoin());
  }

  lemma NodeJoin()
    ensures Step(OnHostA(AfterEmptyJoin(), 0), EmptyFirstText()[4]) == Ok(LonelyDaemon())
  {
    var g := AfterEmptyJoin();
    var h := LocalHost([g], 0, "a", Repeat(0, 1));
    assert h == GroupHost("a", true, 1, [NodeRef(0, 0)]);
    JoinAlone(g, h);
    assert g.hosts + [h] == [GroupHost("a", true, 0, []), h];
    AssignToA(g, 0, 1, LonelyDaemon().groups[0]);
  }

  lemma BeforeJoins()
    ensures Step(Start("a", false, EmptyFirstText()), EmptyFirstText()[0])
      == Ok(Daemon("a", [], [DataHost("a", 1)], [0]))
    ensures Step(Daemon("a", [], [DataHost("a", 1)], [0]), EmptyFirstText()[1]) == Ok(OnHostA(NewGroup("g"), 0))
    ensures Step(OnHostA(NewGroup("g"), 0), EmptyFirstText()[2]) == Ok(OnHostA(Linking(), 0))
  {
    assert FindHost([], "a") == None;
    assert FindHost([DataHost("a", 1)], "a") == Some(DataHost("a", 1));
    assert Repeat(0, 1) == [0];
    assert [] + [DataHost("a", 1)] == [DataHost("a", 1)] && [] + [0] == [0];
    assert [] + [NewGroup("g")] == [NewGroup("g")] && [] + [SelfLink()] == [SelfLink()];
    assert Names([NewGroup("g")])[0] == "g";
    assert FindGroup(Names([NewGroup("g")]), "g") == Some(0);
  }

  lemma ExecNext(d: Daemon, stmts: seq<Stmt>, i: nat, e: Daemon, f: Daemon)
    requires i < |stmts| && Exec(d, stmts[..i]) == Ok(e) && Step(e, stmts[i]) == Ok(f)
    ensures Exec(d, stmts[..i + 1]) == Ok(f)
  {
    assert stmts[..i + 1][..i] == stmts[..i];
  }

  lemma EmptyFirstReplay()
    ensures Replay("a", false, EmptyFirstText()) == Ok(LonelyDaemon())
  {
    var all := EmptyFirstText();
    var d := Start("a", false, all);
    assert Exec(d, all[..0]) == Ok(d);
    BeforeJoins();
    EmptyJoin();
    NodeJoin();
    ExecNext(d, all, 0, d, Daemon("a", [], [DataHost("a", 1)], [0]));
    ExecNext(d, all, 1, Daemon("a", [], [DataHost("a", 1)], [0]), OnHostA(NewGroup("g"), 0));
    ExecNext(d, all, 2, OnHostA(NewGroup("g"), 0), OnHostA(Linking(), 0));
    ExecNext(d, all, 3, OnHostA(Linking(), 0), OnHostA(AfterEmptyJoin(), 0));
    ExecNext(d, all, 4, OnHostA(AfterEmptyJoin(), 0), LonelyDaemon());
    assert all[..5] == all;
  }

  lemma LonelyOverflows()
    ensures var d := LonelyDaemon(); Linked(d.groups) && Route(d, 0, 0, 0) == None && OutDegree(d.groups, 0) == 0
  {
    OneLink(SelfLink());
    var outs := LonelyDaemon().groups[0].outs;
    assert FindLink(LonelyDaemon().groups, outs, 0, 0) == FindLink(LonelyDaemon().groups, outs, 0, 1);
  }

  /**
   The K-means guard tests for zero only: after an empty first join the only node of a group draws index 0 from
   the counter -1, which overflows, although no local join was late.
   */
  lemma NegativeCounterOverflows()
    ensures var d, h := LonelyDaemon(), History(Start("a", false, EmptyFirstText()), EmptyFirstText());
      && Replay("a", false, EmptyFirstText()) == Ok(d) && Linked(d.groups)
      && d.groups[0].nbLocal == 1 && d.groups[0].nbOut == -1
      && AllLateLocals([], h, 0) <= AllEmptyFirsts([], h, 0)
      && Drawn(0, -1) == 0 && Route(d, 0, 0, 0) == None
      && AverageDrawsRouted(d, 0, 0) && !ClusterDrawsRouted(d, 0, 0)
  {
    EmptyFirstReplay();
    LonelyOverflows();
    DrawnIndexIff("a", false, EmptyFirstText(), 0, 0);
    assert Drawn(0, -1) == 0;
  }
}
