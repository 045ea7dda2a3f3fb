/**
 The life of nodes on a simulation thread: attaching and detaching from the scheduler's list, finishing,
 and the thread leaving its loop when its last node has finished.
 */
module Lifecycle {
  import opened Vectors

  /** A thread and the flags of its nodes, known by their numbers; started tells whether its loop has begun. */
  datatype State = State(
    nodes: seq<nat>, attached: set<nat>, finished: set<nat>, added: set<nat>,
    nbRunning: int, started: bool, running: bool)

  /** Start is the beginning of the thread's loop. */
  datatype Event = Attach(n: nat) | Detach(n: nat) | Finish(n: nat) | Add(n: nat) | Start

  function Init(): State {
    State([], {}, {}, {}, 0, false, false)
  }

  function Attached(t: State, n: nat): State {
    if n in t.attached then t else t.(nodes := t.nodes + [n], attached := t.attached + {n})
  }

  function Detached(t: State, n: nat): State {
    if n !in t.attached then t else t.(nodes := Removed(t.nodes, n), attached := t.attached - {n})
  }

  function Step(t: State, e: Event): State {
    match e
    case Attach(n) => Attached(t, n)
    case Detach(n) => Detached(t, n)
    case Add(n) => Attached(t.(nbRunning := t.nbRunning + 1, added := t.added + {n}), n)
    case Finish(n) =>
      if n in t.finished then t else
      var nb := t.nbRunning - 1;
      Detached(t.(finished := t.finished + {n}, nbRunning := nb, running := t.running && nb != 0), n)
    case Start => t.(started := true, running := true)
  }

  /** Each node is added once, and none finishes before it is added. */
  predicate Proper(t: State, e: Event) {
    match e
    case Add(n) => n !in t.added
    case Finish(n) => n in t.added
    case _ => true
  }

  function Exec(t: State, es: seq<Event>): State {
    if |es| == 0 then t else Step(Exec(t, es[..|es| - 1]), es[|es| - 1])
  }

  /** Every event of the run is proper where it happens. */
  predicate ProperRun(t: State, es: seq<Event>) {
    |es| == 0 || (var n := |es| - 1; ProperRun(t, es[..n]) && Proper(Exec(t, es[..n]), es[n]))
  }

  // ----- the invariant -----

  /** The list holds each attached node exactly once, and nothing else. */
  ghost predicate ListOk(nodes: seq<nat>, attached: set<nat>) {
    forall n :: multiset(nodes)[n] == if n in attached then 1 else 0
  }

  ghost predicate Ok(t: State) {
    && ListOk(t.nodes, t.attached)
    && t.finished <= t.added
    && t.nbRunning == |t.added - t.finished|
  }

  lemma {:induction false} RemovedOnce(s: seq<nat>, n: nat)
    requires n in s
    ensures multiset(Removed(s, n)) == multiset(s) - multiset{n}
  {
    assert s == [s[0]] + s[1..];
    if s[0] != n { RemovedOnce(s[1..], n); }
  }

  lemma DetachOk(t: State, n: nat)
    requires ListOk(t.nodes, t.attached)
    ensures ListOk(Detached(t, n).nodes, Detached(t, n).attached)
  {
    if n in t.attached {
      assert multiset(t.nodes)[n] == 1;
      assert n in t.nodes;
      RemovedOnce(t.nodes, n);
    }
  }

  lemma AttachOk(t: State, n: nat)
    requires ListOk(t.nodes, t.attached)
    ensures ListOk(Attached(t, n).nodes, Attached(t, n).attached)
  {
  }

  lemma CardinalityStep(a: set<nat>, n: nat)
    ensures |a + {n}| == |a| + (if n in a then 0 else 1)
    ensures |a - {n}| == |a| - (if n in a then 1 else 0)
  {
    assert n in a ==> a + {n} == a;
    assert n !in a ==> a - {n} == a;
  }

  lemma FinishOk(t: State, n: nat)
    requires Ok(t) && n in t.added && n !in t.finished
    ensures Ok(Step(t, Finish(n)))
  {
    var nb := t.nbRunning - 1;
    var u := t.(finished := t.finished + {n}, nbRunning := nb, running := t.running && nb != 0);
    assert t.added - u.finished == (t.added - t.finished) - {n};
    CardinalityStep(t.added - t.finished, n);
    DetachOk(u, n);
  }

  lemma AddOk(t: State, n: nat)
    requires Ok(t) && n !in t.added
    ensures Ok(Step(t, Add(n)))
  {
    OneMoreRunning(t.added, t.finished, n);
    AttachOk(t.(nbRunning := t.nbRunning + 1, added := t.added + {n}), n);
  }

  lemma OneMoreRunning(added: set<nat>, finished: set<nat>, n: nat)
    requires finished <= added && n !in added
    ensures |added + {n} - finished| == |added - finished| + 1
  {
    assert added + {n} - finished == (added - finished) + {n};
  }

  /**
   One event keeps the invariant: a node is in the list exactly once while attached and not at all
   otherwise, and nb_running_nodes counts the added nodes that have not finished.
   */
  lemma StepOk(t: State, e: Event)
    requires Ok(t) && Proper(t, e)
    ensures Ok(Step(t, e))
  {
    match e
    case Attach(n) => AttachOk(t, n);
    case Detach(n) => DetachOk(t, n);
    case Add(n) => AddOk(t, n);
    case Finish(n) => if n !in t.finished { FinishOk(t, n); }
    case Start =>
  }

  lemma {:induction false} RunOk(t: State, es: seq<Event>)
    requires Ok(t) && ProperRun(t, es)
    ensures Ok(Exec(t, es))
  {
    if |es| > 0 {
      var n := |es| - 1;
      RunOk(t, es[..n]);
      StepOk(Exec(t, es[..n]), es[n]);
    }
  }

  /** In every proper run from an empty thread. */
  lemma EveryRunOk(es: seq<Event>)
    requires ProperRun(Init(), es)
    ensures Ok(Exec(Init(), es))
  {
    RunOk(Init(), es);
  }

  // ----- leaving the loop -----

  /** The thread's loop has begun and the thread has been told to leave it. */
  predicate ToldToLeave(t: State) {
    t.started && !t.running
  }

  /** A thread that has been told to leave its loop leaves no unfinished node behind. */
  predicate Settled(t: State) {
    ToldToLeave(t) ==> t.added == t.finished
  }

  /** What a caller can check before adding a node: the thread has not been told to leave. */
  predicate SafeAdd(t: State, e: Event) {
    e.Add? ==> !ToldToLeave(t)
  }

  /** No node of the run is added to a thread that has been told to leave. */
  predicate SafeAdds(t: State, es: seq<Event>) {
    |es| == 0 || (var n := |es| - 1; SafeAdds(t, es[..n]) && SafeAdd(Exec(t, es[..n]), es[n]))
  }

  /** At no point of the run is an unfinished node left behind. */
  predicate AlwaysSettled(t: State, es: seq<Event>) {
    Settled(Exec(t, es)) && (|es| == 0 || AlwaysSettled(t, es[..|es| - 1]))
  }

  /** From a settled state, an event leaves a settled state exactly when it is no unsafe add. */
  lemma SettledStep(t: State, e: Event)
    requires Ok(t) && Proper(t, e) && Settled(t)
    ensures Settled(Step(t, e)) <==> SafeAdd(t, e)
  {
    StepOk(t, e);
    CountZero(Step(t, e));
    if e.Add? { assert e.n in Step(t, e).added && e.n !in Step(t, e).finished; }
  }

  /**
   The exact condition: in a run that starts from a settled state, a thread told to leave its loop never
   leaves an unfinished node behind if and only if no node is added to a thread that has been told to leave.
   */
  lemma {:induction false} NoneAbandonedIff(t: State, es: seq<Event>)
    requires Ok(t) && ProperRun(t, es)
    ensures AlwaysSettled(t, es) <==> Settled(t) && SafeAdds(t, es)
  {
    if |es| > 0 {
      var n := |es| - 1;
      NoneAbandonedIff(t, es[..n]);
      RunOk(t, es[..n]);
      if AlwaysSettled(t, es[..n]) { SettledStep(Exec(t, es[..n]), es[n]); }
    }
  }

  /** No node is added after the loop has begun. */
  predicate AddsFirst(es: seq<Event>) {
    forall i, j :: 0 <= i < j < |es| && es[i].Start? ==> !es[j].Add?
  }

  lemma {:induction false} StartedNeedsStart(es: seq<Event>)
    ensures Exec(Init(), es).started <==> exists i :: 0 <= i < |es| && es[i].Start?
  {
    if |es| > 0 {
      var n := |es| - 1;
      StartedNeedsStart(es[..n]);
      if exists i :: 0 <= i < n && es[..n][i].Start? {
        var i :| 0 <= i < n && es[..n][i].Start?;
        assert es[i].Start?;
      }
    }
  }

  /** The ordinary start-up: nodes are added before the loop begins, so none is ever left behind. */
  lemma {:induction false} StartUpIsSafe(es: seq<Event>)
    requires ProperRun(Init(), es) && AddsFirst(es)
    ensures SafeAdds(Init(), es) && AlwaysSettled(Init(), es)
  {
    if |es| > 0 {
      var n := |es| - 1;
      assert forall i :: 0 <= i < n ==> es[..n][i] == es[i];
      StartUpIsSafe(es[..n]);
      StartedNeedsStart(es[..n]);
      if Exec(Init(), es[..n]).started {
        var i :| 0 <= i < n && es[..n][i].Start?;
        assert !es[n].Add?;
      }
    }
    NoneAbandonedIff(Init(), es);
  }

  /** The claim about a state r reached from t's loop start: told to leave iff a node finished and none is left. */
  ghost predicate LoopFrom(t: State, r: State) {
    && Ok(r) && r.started && t.finished <= r.finished
    && (!r.running <==> r.finished != t.finished && r.added == r.finished)
  }

  lemma LoopFromStep(t: State, r: State, e: Event)
    requires LoopFrom(t, r) && Proper(r, e) && SafeAdd(r, e) && !e.Start?
    ensures LoopFrom(t, Step(r, e))
  {
    StepOk(r, e);
    CountZero(r);
    CountZero(Step(r, e));
  }

  predicate NoStart(es: seq<Event>) {
    forall i :: 0 <= i < |es| ==> !es[i].Start?
  }

  /**
   From the start of its loop, while no node is added after it has been told to leave, a thread has been told
   to leave its loop if and only if some node has finished since and all its nodes have finished.
   */
  lemma {:induction false} LeavesLoopIff(t: State, es: seq<Event>)
    requires Ok(t) && NoStart(es) && ProperRun(Step(t, Start), es) && SafeAdds(Step(t, Start), es)
    ensures LoopFrom(t, Exec(Step(t, Start), es))
  {
    if |es| > 0 {
      var n := |es| - 1;
      LeavesLoopIff(t, es[..n]);
      LoopFromStep(t, Exec(Step(t, Start), es[..n]), es[n]);
    }
  }

  lemma CountZero(t: State)
    requires Ok(t)
    ensures t.nbRunning == 0 <==> t.added == t.finished
    ensures t.nbRunning >= 0
  {
    assert t.added == t.finished + (t.added - t.finished);
    assert t.nbRunning == 0 <==> t.added - t.finished == {};
  }

  /** A node added between the last finish and the loop test is abandoned: the thread leaves with it unfinished. */
  lemma LateAddIsAbandoned()
    ensures var r := Exec(Init(), [Add(0), Start, Finish(0), Add(1)]);
      ToldToLeave(r) && 1 in r.added && 1 !in r.finished
  {
    var e1, e2, e3, e4 := [Add(0)], [Add(0), Start], [Add(0), Start, Finish(0)], [Add(0), Start, Finish(0), Add(1)];
    assert e1[..0] == [] && e2[..1] == e1 && e3[..2] == e2 && e4[..3] == e3;
    assert Exec(Init(), []) == Init();
    assert Exec(Init(), e1) == Step(Init(), Add(0));
    assert Exec(Init(), e2) == Step(Exec(Init(), e1), Start);
    assert Exec(Init(), e3) == Step(Exec(Init(), e2), Finish(0));
    assert Exec(Init(), e4) == Step(Exec(Init(), e3), Add(1));
  }

  // ----- the daemon -----

  /** threads that are live have not left their loop; the daemon exits when the last one ends. */
  datatype Daemon = Daemon(threads: seq<State>, live: set<nat>, exited: bool)

  datatype DaemonEvent = On(thread: nat, e: Event) | End(thread: nat)

  /** Threads that hold no node yet and have not begun their loops. */
  function NewDaemon(n: nat): Daemon {
    Daemon(seq(n, _ => Init()), Below(n), false)
  }

  function Below(n: nat): (r: set<nat>)
    ensures forall i :: i in r <==> 0 <= i < n
  {
    if n == 0 then {} else Below(n - 1) + {n - 1}
  }

  function DaemonStep(d: Daemon, e: DaemonEvent): Daemon {
    match e
    case On(i, ev) => if i < |d.threads| then d.(threads := d.threads[i := Step(d.threads[i], ev)]) else d
    case End(i) =>
      if i < |d.threads| && i in d.live && ToldToLeave(d.threads[i])
      then d.(live := d.live - {i}, exited := d.live - {i} == {}) else d
  }

  /** Nodes are added once and finish afterwards; a thread that has ended is not started again. */
  predicate Working(d: Daemon, e: DaemonEvent) {
    e.On? && e.thread < |d.threads| ==>
      Proper(d.threads[e.thread], e.e) && (e.e.Start? ==> e.thread in d.live)
  }

  /** No node is added to a thread that has been told to leave. */
  predicate SafeOn(d: Daemon, e: DaemonEvent) {
    e.On? && e.thread < |d.threads| ==> SafeAdd(d.threads[e.thread], e.e)
  }

  function DaemonExec(d: Daemon, es: seq<DaemonEvent>): Daemon {
    if |es| == 0 then d else DaemonStep(DaemonExec(d, es[..|es| - 1]), es[|es| - 1])
  }

  predicate WorkingRun(d: Daemon, es: seq<DaemonEvent>) {
    |es| == 0 || (var n := |es| - 1; WorkingRun(d, es[..n]) && Working(DaemonExec(d, es[..n]), es[n]))
  }

  predicate SafeRun(d: Daemon, es: seq<DaemonEvent>) {
    |es| == 0 || (var n := |es| - 1; SafeRun(d, es[..n]) && SafeOn(DaemonExec(d, es[..n]), es[n]))
  }

  ghost predicate DaemonOk(d: Daemon) {
    && (forall i :: 0 <= i < |d.threads| ==> Ok(d.threads[i]) && Settled(d.threads[i]))
    && (forall i :: 0 <= i < |d.threads| && i !in d.live ==> ToldToLeave(d.threads[i]))
    && (forall i :: i in d.live ==> i < |d.threads|)
    && (d.exited <==> d.live == {} && |d.threads| > 0)
  }

  lemma DaemonStepOk(d: Daemon, e: DaemonEvent)
    requires DaemonOk(d) && Working(d, e)
    ensures DaemonOk(DaemonStep(d, e)) <==> SafeOn(d, e)
  {
    if e.On? && e.thread < |d.threads| {
      var t := d.threads[e.thread];
      StepOk(t, e.e);
      SettledStep(t, e.e);
      assert DaemonStep(d, e).threads[e.thread] == Step(t, e.e);
    }
  }

  ghost predicate AlwaysOk(d: Daemon, es: seq<DaemonEvent>) {
    DaemonOk(DaemonExec(d, es)) && (|es| == 0 || AlwaysOk(d, es[..|es| - 1]))
  }

  /**
   Whatever the threads do, no thread ever leaves its loop, and the daemon never exits, over an unfinished
   node if and only if no node is added to a thread that has been told to leave.
   */
  lemma {:induction false} ExitMeansFinished(d: Daemon, es: seq<DaemonEvent>)
    requires WorkingRun(d, es)
    ensures AlwaysOk(d, es) <==> DaemonOk(d) && SafeRun(d, es)
    ensures var r := DaemonExec(d, es);
      DaemonOk(d) && SafeRun(d, es) && r.exited ==>
        forall i :: 0 <= i < |r.threads| ==> r.threads[i].added == r.threads[i].finished
  {
    if |es| > 0 {
      var n := |es| - 1;
      ExitMeansFinished(d, es[..n]);
      if AlwaysOk(d, es[..n]) { DaemonStepOk(DaemonExec(d, es[..n]), es[n]); }
    }
  }

  /** The claim from the very beginning: threads without nodes whose loops have not begun. */
  lemma NewDaemonIff(n: nat, es: seq<DaemonEvent>)
    requires WorkingRun(NewDaemon(n), es)
    ensures AlwaysOk(NewDaemon(n), es) <==> SafeRun(NewDaemon(n), es)
  {
    ExitMeansFinished(NewDaemon(n), es);
    assert DaemonOk(NewDaemon(n)) by { EveryRunOk([]); }
  }

  // ----- the objects -----

  class Node {
    const id: nat
    const thread: Thread
    var bAttached: bool
    var bFinished: bool

    constructor (id: nat, thread: Thread)
      ensures this.id == id && this.thread == thread && !bAttached && !bFinished
    {
      this.id, this.thread, bAttached, bFinished := id, thread, false, false;
    }

    method Attach()
      requires thread.Valid() && this in thread.members
      modifies this`bAttached, thread`nodes
      ensures thread.Valid() && thread.View() == Attached(old(thread.View()), id)
    {
      if bAttached { return; }
      thread.nodes := thread.nodes + [id];
      bAttached := true;
      ghost var t := old(thread.View());
      assert thread.View().attached == t.attached + {id};
    }

    method Detach()
      requires thread.Valid() && this in thread.members
      modifies this`bAttached, thread`nodes
      ensures thread.Valid() && thread.View() == Detached(old(thread.View()), id)
    {
      if !bAttached { return; }
      thread.nodes := Removed(thread.nodes, id);
      bAttached := false;
      ghost var t := old(thread.View());
      assert thread.View().attached == t.attached - {id};
    }

    /** finish: once only, then the thread forgets the node. */
    method Finish()
      requires thread.Valid() && this in thread.members
      modifies this, thread
      ensures thread.Valid() && thread.members == old(thread.members)
      ensures thread.View() == Step(old(thread.View()), Event.Finish(id))
    {
      if bFinished { return; }
      bFinished := true;
      ghost var t := old(thread.View());
      assert thread.View().finished == t.finished + {id} && thread.View().attached == t.attached;
      thread.Remove(this);
    }
  }

  class Thread {
    var nodes: seq<nat>
    var nbRunningNodes: int
    var bRunning: bool
    ghost var started: bool
    ghost var members: set<Node>
    ghost var added: set<nat>

    constructor ()
      ensures Valid() && View() == Init() && members == {}
    {
      nodes, nbRunningNodes, bRunning, started, members, added := [], 0, false, false, {}, {};
    }

    ghost predicate Valid()
      reads this, members
    {
      && (forall n :: n in members ==> n.thread == this)
      && (forall m, n :: m in members && n in members && m.id == n.id ==> m == n)
    }

    ghost function View(): State
      reads this, members
    {
      State(nodes, (set n | n in members && n.bAttached :: n.id), (set n | n in members && n.bFinished :: n.id),
        added, nbRunningNodes, started, bRunning)
    }

    /** A new node is given this thread, before its init runs. */
    ghost method Enroll(node: Node)
      requires Valid() && node.thread == this && !node.bAttached && !node.bFinished
      requires forall m :: m in members ==> m.id != node.id
      modifies this`members
      ensures Valid() && members == old(members) + {node} && View() == old(View())
    {
      ghost var t := View();
      members := members + {node};
      assert View().attached == t.attached && View().finished == t.finished;
    }

    /** The first statement of run. */
    method BeginLoop()
      requires Valid()
      modifies `bRunning, `started
      ensures Valid() && View() == Step(old(View()), Start)
    {
      bRunning, started := true, true;
    }

    /** add */
    method AddNode(node: Node)
      requires Valid() && node in members
      modifies this, node
      ensures Valid() && members == old(members) && View() == Step(old(View()), Add(node.id))
    {
      nbRunningNodes := nbRunningNodes + 1;
      added := added + {node.id};
      assert View() == old(View()).(nbRunning := nbRunningNodes, added := added);
      node.Attach();
    }

    /** remove */
    method Remove(node: Node)
      requires Valid() && node in members
      modifies this, node`bAttached
      ensures Valid() && members == old(members)
      ensures View() == var nb := old(View()).nbRunning - 1;
        Detached(old(View()).(nbRunning := nb, running := old(View()).running && nb != 0), node.id)
    {
      ghost var t := View();
      nbRunningNodes := nbRunningNodes - 1;
      if nbRunningNodes == 0 { bRunning := false; }
      assert View() == t.(nbRunning := nbRunningNodes, running := bRunning);
      node.Detach();
    }
  }
}
