/**
 The way of the statistics: a daemon reports its local ones to the root, and the root hands everything it
 knows to whoever asks.
 */
module InfoReports {
  import opened Vectors
  import opened Wire
  import opened InfoDump
  import opened InfoUpdate
  import Topologies
  import ModelReplay
  import Replicas

  // ----- what is in a local dump -----

  /** A record that does not exist yet shows as zeros. */
  function OrZeros(o: Option<Blob>, n: nat): Blob {
    if o.Some? then o.value else seq(n, _ => 0)
  }

  /** What a table knows about node k of a host. */
  function NodeKnown(h: InfoHost, k: nat): Option<Blob>
    requires HostShape(h) && k < h.nbNodes
  {
    if h.local then h.nodes[k] else if h.remote == [] then None else Some(h.remote[k])
  }

  /** The data are the host's name, its own record and the records of all its nodes. */
  ghost predicate Shows(d: HostData, h: InfoHost)
    requires HostShape(h)
  {
    && d.host == CString(h.name) && d.infos == OrZeros(h.infos, 64) && |d.nodes| == h.nbNodes
    && forall k :: 0 <= k < h.nbNodes ==> d.nodes[k] == OrZeros(NodeKnown(h, k), 72)
  }

  lemma RecordShows(h: InfoHost)
    requires HostShape(h)
    ensures Shows(HostDataOf(AllRecord(h)), h)
  {
  }

  /** A table in which every host has its nodes, or nothing about them yet. */
  ghost predicate Shaped(gs: seq<InfoGroup>) {
    forall i, j :: 0 <= i < |gs| && 0 <= j < |gs[i].hosts| ==> HostShape(gs[i].hosts[j])
  }

  ghost predicate ShownIn(ds: seq<HostData>, h: InfoHost)
    requires HostShape(h)
  {
    exists l :: 0 <= l < |ds| && Shows(ds[l], h)
  }

  ghost predicate OfLocal(hs: seq<InfoHost>, d: HostData) {
    exists j :: 0 <= j < |hs| && hs[j].local && HostShape(hs[j]) && Shows(d, hs[j])
  }

  /** The local records of a group are those of its local hosts, all of them and no others. */
  lemma {:induction false} LocalRecordsShow(hs: seq<InfoHost>)
    requires forall j :: 0 <= j < |hs| ==> HostShape(hs[j])
    ensures forall j :: 0 <= j < |hs| && hs[j].local ==> ShownIn(HostsData(LocalRecords(hs)), hs[j])
    ensures forall d :: d in HostsData(LocalRecords(hs)) ==> OfLocal(hs, d)
  {
    if |hs| > 0 {
      var n := |hs| - 1;
      var before, ds := HostsData(LocalRecords(hs[..n])), HostsData(LocalRecords(hs));
      LocalRecordsShow(hs[..n]);
      RecordShows(hs[n]);
      assert ds == before + (if hs[n].local then [HostDataOf(AllRecord(hs[n]))] else []);
      forall j | 0 <= j < |hs| && hs[j].local ensures ShownIn(ds, hs[j]) {
        if j < n {
          assert hs[..n][j] == hs[j];
          var l :| 0 <= l < |before| && Shows(before[l], hs[j]);
          assert ds[l] == before[l];
        } else {
          assert ds[|before|] == HostDataOf(AllRecord(hs[n]));
        }
      }
      forall d | d in ds ensures OfLocal(hs, d) {
        if d in before {
          var j :| 0 <= j < n && hs[..n][j].local && HostShape(hs[..n][j]) && Shows(d, hs[..n][j]);
          assert hs[j] == hs[..n][j];
        }
      }
    }
  }

  /** The root's entry for a host says about it, its own record and every node, what the sender's entry says. */
  ghost predicate Knows(gs: seq<InfoGroup>, group: seq<Byte>, h: InfoHost)
    requires HostShape(h)
  {
    var i := GroupNamed(gs, CString(group));
    i < |gs| && (var j := HostNamed(gs[i].hosts, CString(h.name));
      j < |gs[i].hosts| && SameInfos(gs[i].hosts[j], h))
  }

  ghost predicate SameInfos(r: InfoHost, h: InfoHost)
    requires HostShape(h)
  {
    && HostShape(r) && r.nbNodes == h.nbNodes && r.infos == Some(OrZeros(h.infos, 64))
    && forall k :: 0 <= k < h.nbNodes ==> NodeKnown(r, k) == Some(OrZeros(NodeKnown(h, k), 72))
  }

  lemma LearnedIsKnown(r: InfoHost, d: HostData, h: InfoHost)
    requires HostShape(h) && HostShape(r) && Shows(d, h) && Learned(r, d) && r.nbNodes == |d.nodes|
    ensures SameInfos(r, h)
  {
  }

  /** After a report every local host of the sender is known to the root. */
  lemma ReportIsKnown(sender: seq<InfoGroup>, before: seq<InfoGroup>, after: seq<InfoGroup>, i: nat, j: nat)
    requires Shaped(sender) && i < |sender| && j < |sender[i].hosts| && sender[i].hosts[j].local
    requires ExpectsAll(before, GroupsData(LocalDump(sender)))
    requires GroupsLearned(before, after, GroupsData(LocalDump(sender)))
    ensures Knows(after, sender[i].name, sender[i].hosts[j])
  {
    var ds, h := GroupsData(LocalDump(sender)), sender[i].hosts[j];
    LocalRecordsShow(sender[i].hosts);
    assert ds[i].hosts == HostsData(LocalRecords(sender[i].hosts)) && ds[i].name == CString(sender[i].name);
    assert ShownIn(ds[i].hosts, h);
    var l :| 0 <= l < |ds[i].hosts| && Shows(ds[i].hosts[l], h);
    var x := GroupNamed(before, ds[i].name);
    GroupNamedSame(before, after, ds[i].name);
    assert ExpectsGroup(before, ds[i]) && GroupLearned(before[x], after[x], ds[i]);
    assert Expects(before[x].hosts, ds[i].hosts[l]);
    HostNamedSame(before[x].hosts, after[x].hosts, ds[i].hosts[l].host);
    var y := HostNamed(before[x].hosts, ds[i].hosts[l].host);
    assert Learned(after[x].hosts[y], ds[i].hosts[l]);
    LearnedIsKnown(after[x].hosts[y], ds[i].hosts[l], h);
  }

  /**
   End to end: a daemon dumps its local infos in two passes, the root reads them, and for every local host of
   the daemon, and for no other, the root's records equal the daemon's (a missing record counts as zeros).
   */
  method Report(sender: seq<InfoGroup>, root: InfoTable) returns (ok: bool)
    requires AllSized(LocalDump(sender)) && ExpectsAll(root.groups, GroupsData(LocalDump(sender)))
    requires Shaped(sender)
    modifies root
    ensures ok && GroupsLearned(old(root.groups), root.groups, GroupsData(LocalDump(sender)))
    ensures forall i, j :: 0 <= i < |sender| && 0 <= j < |sender[i].hosts| && sender[i].hosts[j].local ==>
      Knows(root.groups, sender[i].name, sender[i].hosts[j])
  {
    var size, data := Dump(LocalDump(sender));
    DumpBack(LocalDump(sender));
    ok := root.UpdateInfos(data[..]);
    GroupsLearn(old(root.groups), GroupsData(LocalDump(sender)));
    forall i, j | 0 <= i < |sender| && 0 <= j < |sender[i].hosts| && sender[i].hosts[j].local
      ensures Knows(root.groups, sender[i].name, sender[i].hosts[j])
    {
      ReportIsKnown(sender, old(root.groups), root.groups, i, j);
    }
  }

  // ----- handing the statistics on -----

  function AllRecords(hs: seq<InfoHost>): (r: seq<HostRecord>)
    ensures |r| == |hs|
  {
    seq(|hs|, j requires 0 <= j < |hs| => AllRecord(hs[j]))
  }

  /** What dump_all_infos writes. */
  function AllDump(gs: seq<InfoGroup>): (r: seq<GroupRecord>)
    ensures |r| == |gs|
  {
    seq(|gs|, i requires 0 <= i < |gs| => GroupRecord(gs[i].name, gs[i].cls, AllRecords(gs[i].hosts)))
  }

  ghost predicate DataSized(d: HostData) {
    && |d.infos| == HOST_INFO && |d.nodes| < Pow256(LONG)
    && (forall k :: 0 <= k < |d.nodes| ==> |d.nodes[k]| == NODE_INFO)
    && 0 !in d.host
  }

  lemma {:induction false} CStringHasNoZero(s: seq<Byte>)
    ensures 0 !in CString(s) && |CString(s)| <= |s|
  {
    if |s| > 0 && s[0] != 0 { CStringHasNoZero(s[1..]); }
  }

  lemma RecordIsSized(h: HostRecord)
    requires HostSized(h)
    ensures DataSized(HostDataOf(h))
  {
    CStringHasNoZero(h.host);
  }

  lemma GroupIsSized(gs: seq<GroupRecord>, k: nat, j: nat)
    requires AllSized(gs) && k < |gs| && j < |gs[k].hosts|
    ensures DataSized(GroupsData(gs)[k].hosts[j])
  {
    assert GroupSized(gs[k]);
    RecordIsSized(gs[k].hosts[j]);
  }

  /** A host that has learned some data dumps as that data. */
  lemma LearnedDumps(h: InfoHost, d: HostData)
    requires Learned(h, d) && HostShape(h) && h.nbNodes == |d.nodes| && h.name == d.host && DataSized(d)
    ensures HostDataOf(AllRecord(h)) == d
  {
    CStringWhole(d.host);
    assert NodesData(AllRecord(h).nodes) == d.nodes;
  }

  /** The data of host d, as a client reads it from a dump of all the records gs. */
  ghost predicate Relayed(gs: seq<InfoGroup>, group: seq<Byte>, d: HostData) {
    var i := GroupNamed(gs, group);
    i < |gs| && (var j := HostNamed(gs[i].hosts, d.host);
      j < |gs[i].hosts| && GroupsData(AllDump(gs))[i].hosts[j] == d)
  }

  /** Everything the root has learned from a report is what it hands on. */
  lemma LearnedIsRelayed(before: seq<InfoGroup>, after: seq<InfoGroup>, ds: seq<GroupData>, k: nat, l: nat)
    requires GroupsLearned(before, after, ds) && ExpectsAll(before, ds)
    requires k < |ds| && l < |ds[k].hosts| && DataSized(ds[k].hosts[l])
    ensures Relayed(after, ds[k].name, ds[k].hosts[l])
  {
    var d := ds[k].hosts[l];
    var i := GroupNamed(before, ds[k].name);
    GroupNamedSame(before, after, ds[k].name);
    assert ExpectsGroup(before, ds[k]) && GroupLearned(before[i], after[i], ds[k]);
    assert Expects(before[i].hosts, d);
    HostNamedSame(before[i].hosts, after[i].hosts, d.host);
    var j := HostNamed(before[i].hosts, d.host);
    assert Learned(after[i].hosts[j], d);
    LearnedDumps(after[i].hosts[j], d);
  }

  // ----- sizes are kept -----

  lemma LearnedIsSized(h: InfoHost, r: InfoHost, d: HostData)
    requires HostSized(AllRecord(h)) && r.name == h.name && r.nbNodes == h.nbNodes == |d.nodes|
    requires Learned(r, d) && DataSized(d) && HostShape(r)
    ensures HostSized(AllRecord(r))
  {
    var a := AllRecord(r);
    assert |a.nodes| == |d.nodes|;
    forall k | 0 <= k < |a.nodes| ensures Sized(a.nodes[k], NODE_INFO) {}
  }

  ghost predicate AllDataSized(ds: seq<GroupData>) {
    forall k, l :: 0 <= k < |ds| && 0 <= l < |ds[k].hosts| ==> DataSized(ds[k].hosts[l])
  }

  lemma GroupStaysSized(before: InfoGroup, after: InfoGroup, d: GroupData)
    requires GroupSized(GroupRecord(before.name, before.cls, AllRecords(before.hosts)))
    requires after.name == before.name && after.cls == before.cls && GroupLearned(before, after, d)
    requires forall l :: 0 <= l < |d.hosts| ==> Expects(before.hosts, d.hosts[l]) && DataSized(d.hosts[l])
    ensures GroupSized(GroupRecord(after.name, after.cls, AllRecords(after.hosts)))
  {
    forall j | 0 <= j < |after.hosts| ensures HostSized(AllRecords(after.hosts)[j]) {
      assert HostSized(AllRecords(before.hosts)[j]);
      if Unnamed(before.hosts, d.hosts, j) {
        assert after.hosts[j] == before.hosts[j];
      } else {
        var l :| 0 <= l < |d.hosts| && HostNamed(before.hosts, d.hosts[l].host) == j;
        assert Expects(before.hosts, d.hosts[l]);
        LearnedIsSized(before.hosts[j], after.hosts[j], d.hosts[l]);
      }
    }
  }

  lemma StaysSized(before: seq<InfoGroup>, after: seq<InfoGroup>, ds: seq<GroupData>)
    requires AllSized(AllDump(before)) && GroupsLearned(before, after, ds) && ExpectsAll(before, ds) && AllDataSized(ds)
    ensures AllSized(AllDump(after))
  {
    forall i | 0 <= i < |after| ensures GroupSized(AllDump(after)[i]) {
      assert GroupSized(AllDump(before)[i]);
      if Untouched(before, ds, i) {
        assert after[i] == before[i];
      } else {
        var k :| 0 <= k < |ds| && GroupNamed(before, ds[k].name) == i;
        assert ExpectsGroup(before, ds[k]);
        GroupStaysSized(before[i], after[i], ds[k]);
      }
    }
  }

  /** The client has read the group and host under their names, with the host's records. */
  ghost predicate Reads(read: seq<GroupData>, gs: seq<InfoGroup>, group: seq<Byte>, h: InfoHost)
    requires HostShape(h)
  {
    var i := GroupNamed(gs, CString(group));
    i < |gs| && i < |read| && read[i].name == CString(group)
    && (var j := HostNamed(gs[i].hosts, CString(h.name)); j < |read[i].hosts| && Shows(read[i].hosts[j], h))
  }

  lemma KnownIsRead(gs: seq<InfoGroup>, group: seq<Byte>, h: InfoHost)
    requires HostShape(h) && Knows(gs, group, h)
    ensures Reads(GroupsData(AllDump(gs)), gs, group, h)
  {
    var i := GroupNamed(gs, CString(group));
    var r := gs[i].hosts[HostNamed(gs[i].hosts, CString(h.name))];
    RecordShows(r);
    CStringHasNoZero(group);
    CStringWhole(CString(group));
    CStringHasNoZero(h.name);
    CStringWhole(CString(h.name));
  }

  /**
   The whole way: a daemon reports to the root, a client asks the root for everything, and for each local host
   of the daemon the client reads exactly the daemon's records.
   */
  method ReportAndAsk(sender: seq<InfoGroup>, root: InfoTable) returns (read: seq<GroupData>)
    requires AllSized(LocalDump(sender)) && AllSized(AllDump(root.groups)) && Shaped(sender)
    requires ExpectsAll(root.groups, GroupsData(LocalDump(sender)))
    modifies root
    ensures read == GroupsData(AllDump(root.groups))
    ensures forall i, j :: 0 <= i < |sender| && 0 <= j < |sender[i].hosts| && sender[i].hosts[j].local ==>
      Reads(read, root.groups, sender[i].name, sender[i].hosts[j])
    ensures var ds := GroupsData(LocalDump(sender));
      forall k, l :: 0 <= k < |ds| && 0 <= l < |ds[k].hosts| ==> Relayed(root.groups, ds[k].name, ds[k].hosts[l])
  {
    ghost var before, ds := root.groups, GroupsData(LocalDump(sender));
    var ok := Report(sender, root);
    forall k, l | 0 <= k < |ds| && 0 <= l < |ds[k].hosts| ensures DataSized(ds[k].hosts[l]) {
      GroupIsSized(LocalDump(sender), k, l);
    }
    StaysSized(before, root.groups, ds);
    var size, data := Dump(AllDump(root.groups));
    DumpBack(AllDump(root.groups));
    read := ReadDump(data[..]).value;
    forall k, l | 0 <= k < |ds| && 0 <= l < |ds[k].hosts| ensures Relayed(root.groups, ds[k].name, ds[k].hosts[l]) {
      LearnedIsRelayed(before, root.groups, ds, k, l);
    }
    forall i, j | 0 <= i < |sender| && 0 <= j < |sender[i].hosts| && sender[i].hosts[j].local
      ensures Reads(read, root.groups, sender[i].name, sender[i].hosts[j])
    {
      KnownIsRead(root.groups, sender[i].name, sender[i].hosts[j]);
    }
  }

  // ----- why the root expects a report -----

  /** The records are those of a daemon's groups, with names written as bytes. */
  ghost predicate Mirrors(gs: seq<InfoGroup>, ts: seq<Topologies.Group>, bytes: string -> seq<Byte>) {
    |gs| == |ts| && forall i :: 0 <= i < |gs| ==> GroupMirrors(gs[i], ts[i], bytes)
  }

  ghost predicate GroupMirrors(g: InfoGroup, t: Topologies.Group, bytes: string -> seq<Byte>) {
    && g.name == bytes(t.name) && |g.hosts| == |t.hosts|
    && (forall j :: 0 <= j < |g.hosts| ==> HostMirrors(g.hosts[j], t.hosts[j], bytes))
  }

  ghost predicate HostMirrors(h: InfoHost, t: Topologies.GroupHost, bytes: string -> seq<Byte>) {
    h.name == bytes(t.host) && h.local == t.local && h.nbNodes == t.count && HostShape(h)
  }

  /** Names without zero bytes, different ones written differently. */
  ghost predicate Spells(bytes: string -> seq<Byte>) {
    && (forall a :: 0 !in bytes(a))
    && (forall a, b :: bytes(a) == bytes(b) ==> a == b)
  }

  /** No group name twice, and no host twice in a group. */
  ghost predicate NamesOnce(ts: seq<Topologies.Group>) {
    && (forall i, j :: 0 <= i < j < |ts| ==> ts[i].name != ts[j].name)
    && (forall i :: 0 <= i < |ts| ==> HostsOnce(ts[i].hosts))
  }

  ghost predicate HostsOnce(hs: seq<Topologies.GroupHost>) {
    forall j, k :: 0 <= j < k < |hs| ==> hs[j].host != hs[k].host
  }

  ghost predicate RecordOf(hs: seq<InfoHost>, r: HostRecord) {
    exists j :: 0 <= j < |hs| && r == AllRecord(hs[j])
  }

  ghost predicate RecordsOnce(rs: seq<HostRecord>) {
    forall l, m :: 0 <= l < m < |rs| ==> rs[l].host != rs[m].host
  }

  /** Every record of a local dump is that of some host, and none is dumped twice. */
  lemma {:induction false} LocalRecordsOf(hs: seq<InfoHost>)
    requires forall j, k :: 0 <= j < k < |hs| ==> hs[j].name != hs[k].name
    ensures forall r :: r in LocalRecords(hs) ==> RecordOf(hs, r)
    ensures RecordsOnce(LocalRecords(hs))
  {
    if |hs| > 0 {
      var n := |hs| - 1;
      var before := LocalRecords(hs[..n]);
      LocalRecordsOf(hs[..n]);
      forall r | r in before ensures RecordOf(hs, r) && r.host != hs[n].name {
        var j :| 0 <= j < n && r == AllRecord(hs[..n][j]);
        assert r == AllRecord(hs[j]);
      }
      assert RecordOf(hs, AllRecord(hs[n]));
    }
  }

  /** A host is found under its own name when names are not repeated. */
  lemma FoundByName(hs: seq<InfoHost>, j: nat)
    requires j < |hs| && forall k, l :: 0 <= k < l < |hs| ==> hs[k].name != hs[l].name
    ensures HostNamed(hs, hs[j].name) == j
  {
  }

  lemma SameHostsExpected(
    sender: InfoGroup, root: InfoGroup, t1: Topologies.Group, t2: Topologies.Group, bytes: string -> seq<Byte>, j: nat)
    requires Spells(bytes) && GroupMirrors(sender, t1, bytes) && GroupMirrors(root, t2, bytes) && j < |sender.hosts|
    requires ModelReplay.ViewHosts(t1.hosts) == ModelReplay.ViewHosts(t2.hosts)
    ensures |root.hosts| == |sender.hosts|
    ensures var h, r := sender.hosts[j], root.hosts[j];
      SameHost(h, r) && h.name == bytes(t1.hosts[j].host)
  {
    assert |ModelReplay.ViewHosts(t1.hosts)| == |ModelReplay.ViewHosts(t2.hosts)|;
    assert ModelReplay.ViewHosts(t1.hosts)[j] == ModelReplay.ViewHosts(t2.hosts)[j];
    assert HostMirrors(sender.hosts[j], t1.hosts[j], bytes) && HostMirrors(root.hosts[j], t2.hosts[j], bytes);
  }

  ghost predicate SameHost(h: InfoHost, r: InfoHost) {
    0 !in h.name && h.name == r.name && h.nbNodes == r.nbNodes && HostShape(h) && HostShape(r)
  }

  /** A root with the same host names and counts expects a group's local records. */
  lemma RecordsExpected(hs: seq<InfoHost>, root: seq<InfoHost>)
    requires |hs| == |root| && forall j, k :: 0 <= j < k < |hs| ==> hs[j].name != hs[k].name
    requires forall j :: 0 <= j < |hs| ==> SameHost(hs[j], root[j])
    ensures var ds := HostsData(LocalRecords(hs));
      && (forall l, m :: 0 <= l < m < |ds| ==> ds[l].host != ds[m].host)
      && (forall l :: 0 <= l < |ds| ==> Expects(root, ds[l]))
  {
    var rs := LocalRecords(hs);
    LocalRecordsOf(hs);
    forall l | 0 <= l < |rs|
      ensures CString(rs[l].host) == rs[l].host && Expects(root, HostDataOf(rs[l]))
    {
      assert RecordOf(hs, rs[l]);
      var j :| 0 <= j < |hs| && rs[l] == AllRecord(hs[j]);
      CStringWhole(hs[j].name);
      FoundByName(root, j);
    }
  }

  lemma GroupExpects(
    sender: InfoGroup, root: InfoGroup, t1: Topologies.Group, t2: Topologies.Group, bytes: string -> seq<Byte>)
    requires Spells(bytes) && GroupMirrors(sender, t1, bytes) && GroupMirrors(root, t2, bytes) && HostsOnce(t1.hosts)
    requires ModelReplay.ViewHosts(t1.hosts) == ModelReplay.ViewHosts(t2.hosts)
    ensures var ds := HostsData(LocalRecords(sender.hosts));
      && (forall l, m :: 0 <= l < m < |ds| ==> ds[l].host != ds[m].host)
      && (forall l :: 0 <= l < |ds| ==> Expects(root.hosts, ds[l]))
  {
    assert |ModelReplay.ViewHosts(t1.hosts)| == |ModelReplay.ViewHosts(t2.hosts)|;
    forall j | 0 <= j < |sender.hosts|
      ensures var h, r := sender.hosts[j], root.hosts[j];
        SameHost(h, r) && h.name == bytes(t1.hosts[j].host)
    {
      SameHostsExpected(sender, root, t1, t2, bytes, j);
    }
    RecordsExpected(sender.hosts, root.hosts);
  }

  lemma FoundGroup(gs: seq<InfoGroup>, i: nat)
    requires i < |gs| && forall k, l :: 0 <= k < l < |gs| ==> gs[k].name != gs[l].name
    ensures GroupNamed(gs, gs[i].name) == i
  {
  }

  /**
   Two daemons that have replayed one model text in agreement expect each other's reports: the hypothesis of
   Report and ReportAndAsk follows from the replays when no name is used twice.
   */
  lemma ReplaysExpectReports(
    me1: string, spreader1: bool, me2: string, spreader2: bool, all: seq<ModelReplay.Stmt>,
    sender: seq<InfoGroup>, root: seq<InfoGroup>, bytes: string -> seq<Byte>)
    requires ModelReplay.Replay(me1, spreader1, all).Ok? && ModelReplay.Replay(me2, spreader2, all).Ok?
    requires spreader1 != spreader2 ==> Replicas.Timely(all)
    requires Spells(bytes) && NamesOnce(ModelReplay.Replay(me1, spreader1, all).d.groups)
    requires Mirrors(sender, ModelReplay.Replay(me1, spreader1, all).d.groups, bytes)
    requires Mirrors(root, ModelReplay.Replay(me2, spreader2, all).d.groups, bytes)
    ensures ExpectsAll(root, GroupsData(LocalDump(sender)))
  {
    var ts1, ts2 := ModelReplay.Replay(me1, spreader1, all).d.groups, ModelReplay.Replay(me2, spreader2, all).d.groups;
    Replicas.ReplaysAgreeIff(me1, spreader1, me2, spreader2, all);
    var ds := GroupsData(LocalDump(sender));
    forall k | 0 <= k < |ds|
      ensures ts1[k].name == ts2[k].name && ds[k].name == root[k].name == bytes(ts1[k].name)
    {
      assert ModelReplay.Views(ts1)[k] == ModelReplay.Views(ts2)[k];
      assert GroupMirrors(sender[k], ts1[k], bytes) && GroupMirrors(root[k], ts2[k], bytes);
      CStringWhole(sender[k].name);
    }
    forall k | 0 <= k < |ds| ensures ExpectsGroup(root, ds[k]) {
      assert ModelReplay.Views(ts1)[k] == ModelReplay.Views(ts2)[k];
      assert GroupMirrors(sender[k], ts1[k], bytes) && GroupMirrors(root[k], ts2[k], bytes);
      FoundGroup(root, k);
      GroupExpects(sender[k], root[k], ts1[k], ts2[k], bytes);
      assert ds[k].hosts == HostsData(LocalRecords(sender[k].hosts));
    }
  }

  // ----- names used twice -----

  /** An entry that is not the first of its name is never touched. */
  lemma {:induction false} ShadowedStays(hs: seq<InfoHost>, ds: seq<HostData>, j: nat)
    requires j < |hs| && HostNamed(hs, hs[j].name) != j && UpdateHosts(hs, ds).Some?
    ensures var r := UpdateHosts(hs, ds).value;
      r[j] == hs[j] && forall k :: 0 <= k < |hs| ==> r[k].name == hs[k].name
  {
    if |ds| > 0 {
      var n := |ds| - 1;
      ShadowedStays(hs, ds[..n], j);
      var before := UpdateHosts(hs, ds[..n]).value;
      HostNamedSame(before, hs, ds[n].host);
      assert HostNamed(hs, ds[n].host) != j;
    }
  }

  lemma {:induction false} FirstLearns(hs: seq<InfoHost>, j: nat) returns (ds: seq<HostData>)
    requires j < |hs| && HostNamed(hs, hs[j].name) == j
    ensures UpdateHosts(hs, ds).Some? && UpdateHosts(hs, ds).value[j] != hs[j]
  {
    var ones: Blob := seq(HOST_INFO, _ => 1);
    assert ones[0] != Zeros(HOST_INFO)[0];
    var d := HostData(hs[j].name, if hs[j].infos == Some(Zeros(HOST_INFO)) then ones else Zeros(HOST_INFO), []);
    var h := UpdateHost(hs[j], d).value;
    ds := [d];
    assert ds[..0] == [] && UpdateHosts(hs, []) == Some(hs);
    assert UpdateHosts(hs, ds) == Some(hs[j := h]);
    assert h.infos != hs[j].infos;
  }

  /** The reader can learn anything about an entry if and only if the entry is the first of its name. */
  lemma {:induction false} CanLearnIff(hs: seq<InfoHost>, j: nat)
    requires j < |hs|
    ensures (exists ds :: UpdateHosts(hs, ds).Some? && UpdateHosts(hs, ds).value[j] != hs[j])
      <==> HostNamed(hs, hs[j].name) == j
  {
    if HostNamed(hs, hs[j].name) == j {
      var ds := FirstLearns(hs, j);
    } else {
      forall ds | UpdateHosts(hs, ds).Some? ensures UpdateHosts(hs, ds).value[j] == hs[j] {
        ShadowedStays(hs, ds, j);
      }
    }
  }
}
