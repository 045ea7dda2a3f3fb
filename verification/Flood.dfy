/**
 The tree of daemons and the flood of a model over it: a request climbs from master to master to the root
 of its tree, and the model then goes down to every daemon of the tree, which applies it exactly once.
 */
module Flood {
  import opened Vectors

  /** Who each daemon's masters and slaves are. */
  datatype Net = Net(masters: seq<seq<nat>>, slaves: seq<seq<nat>>)

  /** Daemon d enters the network at a peer, or a host invites another daemon into it. */
  datatype Build = Enter(d: nat, peer: nat) | Invite(host: nat, other: nat)

  function Alone(n: nat): Net {
    Net(seq(n, _ => []), seq(n, _ => []))
  }

  predicate IsRoot(net: Net, d: nat) {
    d < |net.masters| && net.masters[d] == []
  }

  /** s becomes a slave of m. */
  function Subscribe(net: Net, s: nat, m: nat): Net
    requires s < |net.masters| && m < |net.slaves|
  {
    Net(net.masters[s := net.masters[s] + [m]], net.slaves[m := net.slaves[m] + [s]])
  }

  /** The invited daemon gains a master and drops it from its slaves. */
  function Invited(net: Net, host: nat, other: nat): Net
    requires host < |net.masters| == |net.slaves| && other < |net.masters|
  {
    var t := Subscribe(net, other, host);
    t.(slaves := t.slaves[other := Removed(t.slaves[other], host)])
  }

  function BuildStep(net: Net, b: Build): (r: Net)
    requires |net.masters| == |net.slaves|
    ensures |r.masters| == |r.slaves| == |net.masters|
  {
    match b
    case Enter(d, peer) => if d < |net.masters| && peer < |net.masters| then Subscribe(net, d, peer) else net
    case Invite(host, other) => if host < |net.masters| && other < |net.masters| then Invited(net, host, other) else net
  }

  function Built(n: nat, bs: seq<Build>): (net: Net)
    ensures |net.masters| == |net.slaves| == n
  {
    if |bs| == 0 then Alone(n) else BuildStep(Built(n, bs[..|bs| - 1]), bs[|bs| - 1])
  }

  // ----- forests -----

  /** Ranks that grow from slave to master, all at most top. */
  datatype Ranking = Ranking(rank: seq<nat>, top: nat)

  predicate HasMaster(net: Net, s: nat, m: nat) {
    s < |net.masters| && net.masters[s] == [m]
  }

  ghost predicate Forest(net: Net, r: Ranking) {
    && |net.masters| == |net.slaves| == |r.rank|
    && (forall d :: 0 <= d < |r.rank| ==> |net.masters[d]| <= 1 && r.rank[d] <= r.top)
    && (forall m :: 0 <= m < |net.slaves| ==> forall s: nat :: s in net.slaves[m] <==> HasMaster(net, s, m))
    && (forall m :: 0 <= m < |net.slaves| ==>
          forall i, j :: 0 <= i < j < |net.slaves[m]| ==> net.slaves[m][i] != net.slaves[m][j])
    && (forall s :: 0 <= s < |net.masters| && net.masters[s] != [] ==>
          net.masters[s][0] < |net.masters| && r.rank[s] < r.rank[net.masters[s][0]])
  }

  lemma {:induction false} SubscribeForest(net: Net, r: Ranking, s: nat, m: nat, r': Ranking)
    requires Forest(net, r) && IsRoot(net, s) && m < |net.masters| && m != s
    requires |r'.rank| == |r.rank| && (forall d :: 0 <= d < |r.rank| ==> r'.rank[d] <= r'.top)
    requires forall d :: 0 <= d < |r.rank| && net.masters[d] != [] ==> r'.rank[d] < r'.rank[net.masters[d][0]]
    requires r'.rank[s] < r'.rank[m]
    ensures Forest(Subscribe(net, s, m), r')
  {
    var n := Subscribe(net, s, m);
    assert !HasMaster(net, s, m) && s !in net.slaves[m];
    forall p: nat, x: nat | p < |n.slaves|
      ensures x in n.slaves[p] <==> HasMaster(n, x, p)
    {
      SubscribeMirrors(net, r, s, m, p, x);
    }
  }

  /** The slave lists still mirror the masters. */
  lemma SubscribeMirrors(net: Net, r: Ranking, s: nat, m: nat, p: nat, x: nat)
    requires Forest(net, r) && IsRoot(net, s) && m < |net.masters| && p < |net.slaves|
    ensures var n := Subscribe(net, s, m); x in n.slaves[p] <==> HasMaster(n, x, p)
  {
    var n := Subscribe(net, s, m);
    assert x in net.slaves[p] <==> HasMaster(net, x, p);
    assert n.slaves[p] == if p == m then net.slaves[m] + [s] else net.slaves[p];
    if x == s {
      assert n.masters[s] == [m];
    } else {
      assert x < |net.masters| ==> n.masters[x] == net.masters[x];
    }
  }

  /** A root is nobody's slave. */
  lemma RootIsNoSlave(net: Net, r: Ranking, root: nat, d: nat)
    requires Forest(net, r) && IsRoot(net, root) && d < |net.slaves|
    ensures root !in net.slaves[d]
  {
    assert root in net.slaves[d] <==> HasMaster(net, root, d);
  }

  ghost predicate IsForest(net: Net) {
    exists r :: Forest(net, r)
  }

  // ----- which joins keep a forest -----

  /** The daemon k masters up from v, or the root above v if there are fewer. */
  function Up(net: Net, v: nat, k: nat): nat {
    if k == 0 then v else
    var u := Up(net, v, k - 1);
    if u < |net.masters| && net.masters[u] != [] then net.masters[u][0] else u
  }

  /** v is in the tree below root. */
  ghost predicate InTree(net: Net, v: nat, root: nat) {
    exists k: nat :: Up(net, v, k) == root
  }

  lemma {:induction false} UpShift(net: Net, v: nat, k: nat)
    requires v < |net.masters| && net.masters[v] != []
    ensures Up(net, v, k + 1) == Up(net, net.masters[v][0], k)
  {
    if k > 0 { UpShift(net, v, k - 1); }
  }

  /** A daemon other than the root is in the tree exactly when its master is. */
  lemma InTreeWithMaster(net: Net, r: Ranking, v: nat, root: nat)
    requires Forest(net, r) && IsRoot(net, root) && v < |net.masters| && net.masters[v] != []
    ensures InTree(net, v, root) <==> InTree(net, net.masters[v][0], root)
  {
    if InTree(net, v, root) {
      var k: nat :| Up(net, v, k) == root;
      UpShift(net, v, k - 1);
    }
    if InTree(net, net.masters[v][0], root) {
      var k: nat :| Up(net, net.masters[v][0], k) == root;
      UpShift(net, v, k);
    }
  }

  /** Everything outside the tree of root ranks above the tree. */
  ghost function Lifted(net: Net, r: Ranking, root: nat): Ranking {
    Ranking(seq(|r.rank|, x requires 0 <= x < |r.rank| =>
      if InTree(net, x, root) then r.rank[x] else r.rank[x] + r.top + 1), 2 * r.top + 1)
  }

  lemma JoinForest(net: Net, r: Ranking, s: nat, m: nat)
    requires Forest(net, r) && IsRoot(net, s) && m < |net.masters| && !InTree(net, m, s)
    ensures Forest(Subscribe(net, s, m), Lifted(net, r, s))
  {
    assert Up(net, s, 0) == s && InTree(net, s, s);
    forall x | 0 <= x < |r.rank| && net.masters[x] != []
      ensures Lifted(net, r, s).rank[x] < Lifted(net, r, s).rank[net.masters[x][0]]
    {
      InTreeWithMaster(net, r, x, s);
    }
    SubscribeForest(net, r, s, m, Lifted(net, r, s));
  }

  /** In a later forest that keeps the masters of all but root s, ranks grow on the way up to s. */
  lemma {:induction false} UpRanks(net: Net, t: Net, r: Ranking, s: nat, v: nat, k: nat)
    requires Forest(t, r) && |net.masters| == |t.masters| && IsRoot(net, s) && v < |net.masters|
    requires forall x :: 0 <= x < |net.masters| && x != s ==> t.masters[x] == net.masters[x]
    ensures Up(net, v, k) < |net.masters| && r.rank[v] <= r.rank[Up(net, v, k)]
  {
    if k > 0 { UpRanks(net, t, r, s, v, k - 1); }
  }

  lemma JoinNeeds(net: Net, r: Ranking, t: Net, s: nat, m: nat)
    requires Forest(net, r) && s < |net.masters| && m < |net.masters|
    requires t.masters == net.masters[s := net.masters[s] + [m]] && IsForest(t)
    ensures IsRoot(net, s) && !InTree(net, m, s)
  {
    var r' :| Forest(t, r');
    assert t.masters[s] == net.masters[s] + [m];
    if InTree(net, m, s) {
      var k: nat :| Up(net, m, k) == s;
      UpRanks(net, t, r', s, m, k);
      assert false;
    }
  }

  /** The step makes a root the slave of a daemon outside its own tree. */
  ghost predicate Fitting(net: Net, b: Build) {
    match b
    case Enter(d, peer) => d < |net.masters| && peer < |net.masters| ==> IsRoot(net, d) && !InTree(net, peer, d)
    case Invite(host, other) =>
      host < |net.masters| && other < |net.masters| ==> IsRoot(net, other) && !InTree(net, host, other)
  }

  /** An inviting host outside the tree of a root is none of its slaves, so nothing is dropped. */
  lemma InvitedIsSubscribed(net: Net, r: Ranking, host: nat, other: nat)
    requires Forest(net, r) && host < |net.masters| && IsRoot(net, other) && !InTree(net, host, other)
    ensures Invited(net, host, other) == Subscribe(net, other, host)
  {
    assert Up(net, host, 0) == host && Up(net, host, 1) != other;
    assert host in net.slaves[other] <==> HasMaster(net, host, other);
    var t := Subscribe(net, other, host);
    assert t.slaves[other := t.slaves[other]] == t.slaves;
  }

  /** One step keeps a forest if and only if it makes a root the slave of a daemon outside its own tree. */
  lemma BuildStepIff(net: Net, b: Build)
    requires IsForest(net)
    ensures IsForest(BuildStep(net, b)) <==> Fitting(net, b)
  {
    var r :| Forest(net, r);
    var t := BuildStep(net, b);
    match b
    case Enter(d, peer) =>
      if d < |net.masters| && peer < |net.masters| {
        if IsRoot(net, d) && !InTree(net, peer, d) { JoinForest(net, r, d, peer); }
        if IsForest(t) { JoinNeeds(net, r, t, d, peer); }
      }
    case Invite(host, other) =>
      if host < |net.masters| && other < |net.masters| {
        if IsRoot(net, other) && !InTree(net, host, other) {
          InvitedIsSubscribed(net, r, host, other);
          JoinForest(net, r, other, host);
        }
        if IsForest(t) { JoinNeeds(net, r, t, other, host); }
      }
  }

  ghost predicate AllFitting(n: nat, bs: seq<Build>) {
    |bs| == 0 || (var k := |bs| - 1; AllFitting(n, bs[..k]) && Fitting(Built(n, bs[..k]), bs[k]))
  }

  ghost predicate AlwaysForest(n: nat, bs: seq<Build>) {
    IsForest(Built(n, bs)) && (|bs| == 0 || AlwaysForest(n, bs[..|bs| - 1]))
  }

  lemma AloneIsForest(n: nat)
    ensures IsForest(Alone(n))
  {
    assert Forest(Alone(n), Ranking(seq(n, _ => 0), 0));
  }

  /**
   While a network is built it is always a forest if and only if each step makes a root the slave of a daemon
   outside its own tree.
   */
  lemma {:induction false} BuiltForest(n: nat, bs: seq<Build>)
    ensures AlwaysForest(n, bs) <==> AllFitting(n, bs)
  {
    AloneIsForest(n);
    if |bs| > 0 {
      var k := |bs| - 1;
      BuiltForest(n, bs[..k]);
      assert AlwaysForest(n, bs[..k]) ==> IsForest(Built(n, bs[..k]));
      if IsForest(Built(n, bs[..k])) { BuildStepIff(Built(n, bs[..k]), bs[k]); }
    }
  }

  /** A daemon that starts, with no master and no slave, may enter anywhere. */
  lemma StarterFits(net: Net, r: Ranking, d: nat, peer: nat)
    requires Forest(net, r) && IsRoot(net, d) && net.slaves[d] == [] && peer < |net.masters| && peer != d
    ensures Fitting(net, Enter(d, peer))
  {
    if InTree(net, peer, d) {
      var k: nat :| Up(net, peer, k) == d;
      NobodyBelow(net, r, peer, d, k);
      assert false;
    }
  }

  lemma {:induction false} NobodyBelow(net: Net, r: Ranking, v: nat, d: nat, k: nat)
    requires Forest(net, r) && d < |net.slaves| && net.slaves[d] == [] && v < |net.masters| && v != d
    ensures Up(net, v, k) < |net.masters| && Up(net, v, k) != d
  {
    if k > 0 {
      NobodyBelow(net, r, v, d, k - 1);
      var u := Up(net, v, k - 1);
      if net.masters[u] != [] { MasterHasSlave(net, r, u); }
    }
  }

  lemma MasterHasSlave(net: Net, r: Ranking, u: nat)
    requires Forest(net, r) && u < |net.masters| && net.masters[u] != []
    ensures net.masters[u][0] < |net.masters| && u in net.slaves[net.masters[u][0]]
  {
    assert net.masters[u] == [net.masters[u][0]];
    assert HasMaster(net, u, net.masters[u][0]);
  }

  /** a is v or a master of a master ... of v.  In a forest the guards on the ranks always hold. */
  predicate Above(net: Net, r: Ranking, a: nat, v: nat)
    requires v < |net.masters| == |r.rank|
    decreases if r.rank[v] <= r.top then r.top - r.rank[v] else 0
  {
    a == v || (|net.masters[v]| == 1 && net.masters[v][0] < |r.rank|
               && r.rank[v] < r.rank[net.masters[v][0]] <= r.top && Above(net, r, a, net.masters[v][0]))
  }

  function RootOf(net: Net, r: Ranking, v: nat): (m: nat)
    requires v < |net.masters| == |r.rank|
    ensures m < |net.masters|
    decreases if r.rank[v] <= r.top then r.top - r.rank[v] else 0
  {
    if |net.masters[v]| == 1 && net.masters[v][0] < |r.rank| && r.rank[v] < r.rank[net.masters[v][0]] <= r.top
    then RootOf(net, r, net.masters[v][0]) else v
  }

  lemma {:induction false} AboveRank(net: Net, r: Ranking, a: nat, v: nat)
    requires Forest(net, r) && v < |r.rank| && a < |r.rank| && Above(net, r, a, v)
    ensures a == v || r.rank[v] < r.rank[a]
    decreases r.top - r.rank[v]
  {
    if a != v { AboveRank(net, r, a, net.masters[v][0]); }
  }

  lemma {:induction false} AboveMaster(net: Net, r: Ranking, c: nat, v: nat)
    requires Forest(net, r) && v < |r.rank| && c < |r.rank| && Above(net, r, c, v) && net.masters[c] != []
    ensures Above(net, r, net.masters[c][0], v)
    decreases r.top - r.rank[v]
  {
    if c != v {
      AboveMaster(net, r, c, net.masters[v][0]);
    } else {
      assert Above(net, r, net.masters[v][0], net.masters[v][0]);
    }
  }

  /** No other slave of v's master is above v. */
  lemma OwnSlave(net: Net, r: Ranking, u: nat, v: nat, x: nat)
    requires Forest(net, r) && v < |r.rank| && u < |r.rank| && net.masters[v] == [u]
    requires x in net.slaves[u] && Above(net, r, x, v)
    ensures x == v
  {
    if x != v {
      assert HasMaster(net, x, u);
      AboveRank(net, r, x, u);
    }
  }

  /** The slave of u through which v is reached. */
  lemma {:induction false} Toward(net: Net, r: Ranking, u: nat, v: nat) returns (c: nat)
    requires Forest(net, r) && v < |r.rank| && u < |r.rank| && u != v && Above(net, r, u, v)
    ensures c in net.slaves[u] && Above(net, r, c, v)
    ensures forall x :: x in net.slaves[u] && Above(net, r, x, v) ==> x == c
    decreases r.top - r.rank[v]
  {
    var m := net.masters[v][0];
    assert net.masters[v] == [m];
    if m == u {
      c := v;
      forall x | x in net.slaves[u] && Above(net, r, x, v) ensures x == c {
        OwnSlave(net, r, u, v, x);
      }
    } else {
      c := Toward(net, r, u, m);
      forall x | x in net.slaves[u] && Above(net, r, x, v) ensures x == c {
        assert x != v;
      }
    }
  }

  lemma {:induction false} RootIsAbove(net: Net, r: Ranking, u: nat, v: nat)
    requires Forest(net, r) && v < |r.rank| && IsRoot(net, u)
    ensures RootOf(net, r, v) == u <==> Above(net, r, u, v)
    decreases r.top - r.rank[v]
  {
    if net.masters[v] != [] {
      assert |net.masters[v]| == 1;
      RootIsAbove(net, r, u, net.masters[v][0]);
    }
  }

  // ----- the flood -----

  datatype Msg = Model(dst: nat) | SetTopology(dst: nat)

  /** How often each daemon has applied the model, and the commands on their way. */
  datatype State = State(applied: seq<nat>, flight: seq<Msg>)

  function ToSlaves(ss: seq<nat>): (ms: seq<Msg>)
    ensures |ms| == |ss|
  {
    seq(|ss|, i requires 0 <= i < |ss| => SetTopology(ss[i]))
  }

  function ToMasters(ms: seq<nat>): (r: seq<Msg>)
    ensures |r| == |ms|
  {
    seq(|ms|, i requires 0 <= i < |ms| => Model(ms[i]))
  }

  /** A client asks daemon d to run a model. */
  function Request(n: nat, d: nat): State {
    State(seq(n, _ => 0), [Model(d)])
  }

  /** set_topology at u: pass it on to all slaves, then apply it. */
  function Apply(net: Net, st: State, u: nat): State
    requires u < |net.slaves| && u < |st.applied|
  {
    State(st.applied[u := st.applied[u] + 1], st.flight + ToSlaves(net.slaves[u]))
  }

  /** The k-th command in flight arrives; any k, so any interleaving. */
  function Deliver(net: Net, st: State, k: nat): State
    requires |net.slaves| == |net.masters| == |st.applied|
  {
    if k >= |st.flight| || st.flight[k].dst >= |net.masters| then st else
    var m, rest := st.flight[k], st.(flight := Without(st.flight, k));
    if m.SetTopology? || net.masters[m.dst] == [] then Apply(net, rest, m.dst)
    else rest.(flight := rest.flight + ToMasters(net.masters[m.dst]))
  }

  function Run(net: Net, d: nat, ks: seq<nat>): (st: State)
    requires |net.slaves| == |net.masters|
    ensures |st.applied| == |net.masters|
  {
    if |ks| == 0 then Request(|net.masters|, d) else Deliver(net, Run(net, d, ks[..|ks| - 1]), ks[|ks| - 1])
  }

  // ----- exactly once -----

  /** Whether a command in flight will make v apply the model. */
  function Covers(net: Net, r: Ranking, v: nat): Msg -> real
    requires v < |net.masters| == |r.rank|
  {
    (m: Msg) =>
      if m.dst >= |r.rank| then 0.0
      else if m.SetTopology? then (if Above(net, r, m.dst, v) then 1.0 else 0.0)
      else if RootOf(net, r, m.dst) == RootOf(net, r, v) then 1.0 else 0.0
  }

  /** How often v has to apply a model requested at d: once in d's tree, never outside it. */
  function Expected(net: Net, r: Ranking, d: nat, v: nat): nat
    requires v < |net.masters| == |r.rank| && d < |net.masters|
  {
    if RootOf(net, r, v) == RootOf(net, r, d) then 1 else 0
  }

  /** Applications done and commands still on their way to v make exactly what is expected of v. */
  ghost predicate Once(net: Net, r: Ranking, d: nat, st: State) {
    && |net.masters| == |r.rank| == |st.applied| && d < |r.rank|
    && (forall v :: 0 <= v < |r.rank| ==>
          st.applied[v] as real + Total(st.flight, Covers(net, r, v)) == Expected(net, r, d, v) as real)
    && (forall k :: 0 <= k < |st.flight| ==> st.flight[k].dst < |r.rank|)
  }

  lemma {:induction false} AtMostOneCovers(ms: seq<nat>, f: Msg -> real, c: nat)
    requires forall i, j :: 0 <= i < j < |ms| ==> ms[i] != ms[j]
    requires forall x :: x in ms ==> f(SetTopology(x)) == if x == c then 1.0 else 0.0
    ensures Total(ToSlaves(ms), f) == if c in ms then 1.0 else 0.0
  {
    if |ms| > 0 {
      var n := |ms| - 1;
      AtMostOneCovers(ms[..n], f, c);
      assert ms == ms[..n] + [ms[n]];
      assert ToSlaves(ms)[..n] == ToSlaves(ms[..n]);
    }
  }

  /** What is at or below a slave of u is strictly below u. */
  lemma SlaveAbove(net: Net, r: Ranking, u: nat, v: nat, x: nat)
    requires Forest(net, r) && u < |r.rank| && v < |r.rank| && x in net.slaves[u] && Above(net, r, x, v)
    ensures u != v && Above(net, r, u, v)
  {
    assert HasMaster(net, x, u);
    AboveMaster(net, r, x, v);
    AboveRank(net, r, x, v);
  }

  /** Applying at u and passing on to u's slaves covers exactly the daemons below u, each once. */
  lemma {:induction false} ApplySpreads(net: Net, r: Ranking, u: nat, v: nat)
    requires Forest(net, r) && u < |r.rank| && v < |r.rank|
    ensures (if u == v then 1.0 else 0.0) + Total(ToSlaves(net.slaves[u]), Covers(net, r, v))
         == if Above(net, r, u, v) then 1.0 else 0.0
  {
    var ss, f := net.slaves[u], Covers(net, r, v);
    if u != v && Above(net, r, u, v) {
      var c := Toward(net, r, u, v);
      AtMostOneCovers(ss, f, c);
    } else {
      forall x | x in ss ensures !Above(net, r, x, v) {
        if Above(net, r, x, v) { SlaveAbove(net, r, u, v, x); }
      }
      TotalVanishes(ToSlaves(ss), f);
    }
  }

  /** A model applied at its arrival keeps the account of every daemon. */
  lemma ApplyOnce(net: Net, r: Ranking, st: State, k: nat, v: nat)
    requires Forest(net, r) && |st.applied| == |r.rank| && v < |r.rank| && k < |st.flight|
    requires var m := st.flight[k]; m.dst < |r.rank| && (m.SetTopology? || net.masters[m.dst] == [])
    ensures var st' := Apply(net, st.(flight := Without(st.flight, k)), st.flight[k].dst);
      st'.applied[v] as real + Total(st'.flight, Covers(net, r, v))
        == st.applied[v] as real + Total(st.flight, Covers(net, r, v))
  {
    var m, f := st.flight[k], Covers(net, r, v);
    TotalWithout(st.flight, k, f);
    ApplySpreads(net, r, m.dst, v);
    TotalConcat(Without(st.flight, k), ToSlaves(net.slaves[m.dst]), f);
    if m.Model? {
      RootIsAbove(net, r, m.dst, v);
      RootIsAbove(net, r, m.dst, m.dst);
    }
  }

  /** So does a request passed on to the master. */
  lemma ClimbOnce(net: Net, r: Ranking, st: State, k: nat, v: nat)
    requires Forest(net, r) && v < |r.rank| && k < |st.flight|
    requires var m := st.flight[k]; m.Model? && m.dst < |r.rank| && net.masters[m.dst] != []
    ensures Total(Without(st.flight, k) + [Model(net.masters[st.flight[k].dst][0])], Covers(net, r, v))
         == Total(st.flight, Covers(net, r, v))
  {
    var f := Covers(net, r, v);
    TotalWithout(st.flight, k, f);
    TotalPush(Without(st.flight, k), Model(net.masters[st.flight[k].dst][0]), f);
  }

  /** What the arrival of a command does, in a forest. */
  lemma DeliverShape(net: Net, r: Ranking, st: State, k: nat)
    requires Forest(net, r) && |st.applied| == |r.rank| && k < |st.flight| && st.flight[k].dst < |r.rank|
    ensures var m, rest := st.flight[k], st.(flight := Without(st.flight, k));
      Deliver(net, st, k) ==
        if m.SetTopology? || net.masters[m.dst] == [] then Apply(net, rest, m.dst)
        else rest.(flight := rest.flight + [Model(net.masters[m.dst][0])])
  {
    var m := st.flight[k];
    if !(m.SetTopology? || net.masters[m.dst] == []) {
      var up := net.masters[m.dst];
      assert |up| == 1;
      assert ToMasters(up) == [Model(up[0])];
    }
  }

  lemma DeliverOnce(net: Net, r: Ranking, d: nat, st: State, k: nat)
    requires Forest(net, r) && Once(net, r, d, st)
    ensures Once(net, r, d, Deliver(net, st, k))
  {
    if k < |st.flight| {
      var m, st' := st.flight[k], Deliver(net, st, k);
      DeliverShape(net, r, st, k);
      forall v | 0 <= v < |r.rank|
        ensures st'.applied[v] as real + Total(st'.flight, Covers(net, r, v)) == Expected(net, r, d, v) as real
      {
        if m.SetTopology? || net.masters[m.dst] == [] {
          ApplyOnce(net, r, st, k, v);
        } else {
          ClimbOnce(net, r, st, k, v);
        }
      }
      DeliverInRange(net, r, st, k);
    }
  }

  lemma DeliverInRange(net: Net, r: Ranking, st: State, k: nat)
    requires Forest(net, r) && |st.applied| == |r.rank| && k < |st.flight|
    requires forall i :: 0 <= i < |st.flight| ==> st.flight[i].dst < |r.rank|
    ensures forall i :: 0 <= i < |Deliver(net, st, k).flight| ==> Deliver(net, st, k).flight[i].dst < |r.rank|
  {
    DeliverShape(net, r, st, k);
    var u := st.flight[k].dst;
    forall i | 0 <= i < |net.slaves[u]| ensures net.slaves[u][i] < |r.rank| {
      assert net.slaves[u][i] in net.slaves[u];
    }
  }

  lemma RequestOnce(net: Net, r: Ranking, d: nat)
    requires Forest(net, r) && d < |r.rank|
    ensures Once(net, r, d, Request(|net.masters|, d))
  {
    forall v | 0 <= v < |r.rank|
      ensures Total([Model(d)], Covers(net, r, v)) == Expected(net, r, d, v) as real
    {
      TotalPush([], Model(d), Covers(net, r, v));
      assert [] + [Model(d)] == [Model(d)];
    }
  }

  lemma {:induction false} RunOnce(net: Net, r: Ranking, d: nat, ks: seq<nat>)
    requires Forest(net, r) && d < |r.rank|
    ensures Once(net, r, d, Run(net, d, ks))
  {
    if |ks| == 0 {
      RequestOnce(net, r, d);
    } else {
      RunOnce(net, r, d, ks[..|ks| - 1]);
      DeliverOnce(net, r, d, Run(net, d, ks[..|ks| - 1]), ks[|ks| - 1]);
    }
  }

  // ----- the measure -----

  function Idle(applied: seq<nat>): nat {
    if |applied| == 0 then 0 else Idle(applied[..|applied| - 1]) + (if applied[|applied| - 1] == 0 then 1 else 0)
  }

  function Climb(r: Ranking, m: Msg): nat {
    if m.Model? && m.dst < |r.rank| && r.rank[m.dst] <= r.top then r.top - r.rank[m.dst] + 1 else 0
  }

  function Climbs(r: Ranking, ms: seq<Msg>): nat {
    if |ms| == 0 then 0 else Climbs(r, ms[..|ms| - 1]) + Climb(r, ms[|ms| - 1])
  }

  /** Daemons yet to apply the model, and levels yet to be climbed by the request. */
  function Measure(r: Ranking, st: State): nat {
    Idle(st.applied) + Climbs(r, st.flight)
  }

  lemma {:induction false} IdleUpdate(applied: seq<nat>, u: nat)
    requires u < |applied| && applied[u] == 0
    ensures Idle(applied[u := 1]) == Idle(applied) - 1
  {
    var n := |applied| - 1;
    if u < n {
      IdleUpdate(applied[..n], u);
      assert applied[u := 1][..n] == applied[..n][u := 1];
    } else {
      assert applied[u := 1][..n] == applied[..n];
    }
  }

  lemma {:induction false} ClimbsConcat(r: Ranking, a: seq<Msg>, b: seq<Msg>)
    ensures Climbs(r, a + b) == Climbs(r, a) + Climbs(r, b)
  {
    if |b| == 0 {
      assert a + b == a;
    } else {
      ClimbsConcat(r, a, b[..|b| - 1]);
      assert (a + b)[..|a + b| - 1] == a + b[..|b| - 1];
    }
  }

  lemma ClimbsWithout(r: Ranking, s: seq<Msg>, k: nat)
    requires k < |s|
    ensures Climbs(r, Without(s, k)) == Climbs(r, s) - Climb(r, s[k])
  {
    assert s == s[..k] + ([s[k]] + s[k + 1..]);
    ClimbsConcat(r, s[..k], [s[k]] + s[k + 1..]);
    ClimbsConcat(r, [s[k]], s[k + 1..]);
    ClimbsConcat(r, s[..k], s[k + 1..]);
    assert [s[k]][..0] == [];
  }

  lemma {:induction false} NoClimbs(r: Ranking, ss: seq<nat>)
    ensures Climbs(r, ToSlaves(ss)) == 0
  {
    if |ss| > 0 {
      NoClimbs(r, ss[..|ss| - 1]);
      assert ToSlaves(ss)[..|ss| - 1] == ToSlaves(ss[..|ss| - 1]);
    }
  }

  lemma {:induction false} CoversNonNegative(net: Net, r: Ranking, v: nat, ms: seq<Msg>)
    requires v < |net.masters| == |r.rank|
    ensures Total(ms, Covers(net, r, v)) >= 0.0
    ensures forall k :: 0 <= k < |ms| ==> Covers(net, r, v)(ms[k]) <= Total(ms, Covers(net, r, v))
  {
    if |ms| > 0 {
      var n := |ms| - 1;
      CoversNonNegative(net, r, v, ms[..n]);
      assert forall k :: 0 <= k < n ==> ms[..n][k] == ms[k];
    }
  }

  /** A daemon the model is about to be applied at has not applied it yet. */
  lemma NotYetApplied(net: Net, r: Ranking, d: nat, st: State, k: nat)
    requires Forest(net, r) && Once(net, r, d, st) && k < |st.flight|
    requires var m := st.flight[k]; m.SetTopology? || net.masters[m.dst] == []
    ensures st.applied[st.flight[k].dst] == 0
  {
    var u := st.flight[k].dst;
    CoversNonNegative(net, r, u, st.flight);
    assert Covers(net, r, u)(st.flight[k]) == 1.0;
    assert st.applied[u] as real + Total(st.flight, Covers(net, r, u)) == Expected(net, r, d, u) as real;
  }

  lemma ApplyDecreases(net: Net, r: Ranking, st: State, k: nat)
    requires k < |st.flight| && st.flight[k].dst < |st.applied| == |net.slaves| && st.applied[st.flight[k].dst] == 0
    ensures Measure(r, Apply(net, st.(flight := Without(st.flight, k)), st.flight[k].dst)) < Measure(r, st)
  {
    var u := st.flight[k].dst;
    IdleUpdate(st.applied, u);
    ClimbsWithout(r, st.flight, k);
    ClimbsConcat(r, Without(st.flight, k), ToSlaves(net.slaves[u]));
    NoClimbs(r, net.slaves[u]);
  }

  lemma ClimbDecreases(net: Net, r: Ranking, s: seq<Msg>, k: nat)
    requires Forest(net, r) && k < |s| && s[k].Model? && s[k].dst < |r.rank| && net.masters[s[k].dst] != []
    ensures Climbs(r, Without(s, k) + [Model(net.masters[s[k].dst][0])]) < Climbs(r, s)
  {
    var up := Model(net.masters[s[k].dst][0]);
    ClimbsWithout(r, s, k);
    ClimbsConcat(r, Without(s, k), [up]);
    assert [up][..0] == [];
    assert Climbs(r, []) == 0;
    assert Climbs(r, [up]) == Climb(r, up);
  }

  /** Every delivery brings the flood closer to its end. */
  lemma DeliverDecreases(net: Net, r: Ranking, d: nat, st: State, k: nat)
    requires Forest(net, r) && Once(net, r, d, st) && k < |st.flight|
    ensures Measure(r, Deliver(net, st, k)) < Measure(r, st)
  {
    var m := st.flight[k];
    DeliverShape(net, r, st, k);
    if m.SetTopology? || net.masters[m.dst] == [] {
      NotYetApplied(net, r, d, st, k);
      ApplyDecreases(net, r, st, k);
    } else {
      ClimbDecreases(net, r, st.flight, k);
    }
  }

  /**
   In every network built by fitting steps, and under every interleaving, a model requested at daemon d is
   applied at most once by any daemon, never outside d's tree, and when no command is left on its way exactly
   once by each daemon of d's tree.  Every delivery decreases a measure, so the flood ends.
   */
  lemma ModelFlood(n: nat, bs: seq<Build>, d: nat, ks: seq<nat>) returns (r: Ranking)
    requires d < n && AllFitting(n, bs)
    ensures Forest(Built(n, bs), r)
    ensures var net := Built(n, bs);
      var st := Run(net, d, ks);
      && (forall v :: 0 <= v < n ==> st.applied[v] <= Expected(net, r, d, v))
      && (st.flight == [] ==> forall v :: 0 <= v < n ==> st.applied[v] == Expected(net, r, d, v))
      && (forall k :: 0 <= k < |st.flight| ==> Measure(r, Deliver(net, st, k)) < Measure(r, st))
  {
    BuiltForest(n, bs);
    r :| Forest(Built(n, bs), r);
    var net := Built(n, bs);
    var st := Run(net, d, ks);
    RunOnce(net, r, d, ks);
    forall v | 0 <= v < n
      ensures st.applied[v] <= Expected(net, r, d, v)
    {
      CoversNonNegative(net, r, v, st.flight);
    }
    forall k | 0 <= k < |st.flight|
      ensures Measure(r, Deliver(net, st, k)) < Measure(r, st)
    {
      DeliverDecreases(net, r, d, st, k);
    }
  }
}
