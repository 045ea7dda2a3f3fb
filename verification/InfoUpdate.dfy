/** Reading a dump back: the records of the sender end up in the matching records of the reader. */
module InfoUpdate {
  import opened Vectors
  import opened Wire
  import opened InfoDump

  // ----- parsing -----

  function ReadNum(s: seq<Byte>): (r: Got<nat>)
    ensures r.Got? ==> |r.rest| < |s|
  {
    if |s| < LONG then Closed else Got(Value(s[..LONG]), s[LONG..])
  }

  /** A C string ends at its first zero byte. */
  function CString(s: seq<Byte>): seq<Byte> {
    if |s| == 0 || s[0] == 0 then [] else [s[0]] + CString(s[1..])
  }

  function ReadString(s: seq<Byte>): Got<seq<Byte>> {
    var l := ReadNum(s);
    if l.Closed? || |l.rest| < l.value then Closed
    else Got(CString(l.rest[..l.value]), l.rest[l.value..])
  }

  function ReadBlob(s: seq<Byte>, n: nat): Got<Blob> {
    if |s| < n then Closed else Got(s[..n], s[n..])
  }

  function ReadNodes(s: seq<Byte>, n: nat): (r: Got<seq<Blob>>)
    ensures r.Got? ==> |r.value| == n
  {
    if n == 0 then Got([], s) else
    var before := ReadNodes(s, n - 1);
    if before.Closed? then Closed else
    var b := ReadBlob(before.rest, NODE_INFO);
    if b.Closed? then Closed else Got(before.value + [b.value], b.rest)
  }

  function ReadHost(s: seq<Byte>): Got<HostData> {
    var name := ReadString(s);
    if name.Closed? then Closed else
    var n := ReadNum(name.rest);
    if n.Closed? then Closed else
    var infos := ReadBlob(n.rest, HOST_INFO);
    if infos.Closed? then Closed else
    var nodes := ReadNodes(infos.rest, n.value);
    if nodes.Closed? then Closed else Got(HostData(name.value, infos.value, nodes.value), nodes.rest)
  }

  function ReadHosts(s: seq<Byte>, n: nat): Got<seq<HostData>> {
    if n == 0 then Got([], s) else
    var before := ReadHosts(s, n - 1);
    if before.Closed? then Closed else
    var h := ReadHost(before.rest);
    if h.Closed? then Closed else Got(before.value + [h.value], h.rest)
  }

  function ReadGroup(s: seq<Byte>): Got<GroupData> {
    var name := ReadString(s);
    if name.Closed? then Closed else
    var cls := ReadString(name.rest);
    if cls.Closed? then Closed else
    var n := ReadNum(cls.rest);
    if n.Closed? then Closed else
    var hosts := ReadHosts(n.rest, n.value);
    if hosts.Closed? then Closed else Got(GroupData(name.value, cls.value, hosts.value), hosts.rest)
  }

  function ReadGroups(s: seq<Byte>, n: nat): (r: Got<seq<GroupData>>)
    ensures r.Got? ==> |r.value| == n
  {
    if n == 0 then Got([], s) else
    var before := ReadGroups(s, n - 1);
    if before.Closed? then Closed else
    var g := ReadGroup(before.rest);
    if g.Closed? then Closed else Got(before.value + [g.value], g.rest)
  }

  function ReadDump(s: seq<Byte>): Got<seq<GroupData>> {
    var n := ReadNum(s);
    if n.Closed? then Closed else ReadGroups(n.rest, n.value)
  }

  // ----- what a dump is read as -----

  function NodesData(ns: seq<Option<Blob>>): (r: seq<Blob>)
    ensures |r| == |ns|
  {
    seq(|ns|, k requires 0 <= k < |ns| => BlobOf(ns[k], NODE_INFO))
  }

  function HostDataOf(h: HostRecord): HostData {
    HostData(CString(h.host), BlobOf(h.infos, HOST_INFO), NodesData(h.nodes))
  }

  function HostsData(hs: seq<HostRecord>): (r: seq<HostData>)
    ensures |r| == |hs|
  {
    seq(|hs|, j requires 0 <= j < |hs| => HostDataOf(hs[j]))
  }

  function GroupDataOf(g: GroupRecord): GroupData {
    GroupData(CString(g.name), CString(g.cls), HostsData(g.hosts))
  }

  function GroupsData(gs: seq<GroupRecord>): (r: seq<GroupData>)
    ensures |r| == |gs|
  {
    seq(|gs|, i requires 0 <= i < |gs| => GroupDataOf(gs[i]))
  }

  /** A name survives being written and read if and only if it has no zero byte. */
  lemma {:induction false} CStringWhole(s: seq<Byte>)
    ensures CString(s) == s <==> 0 !in s
  {
    if |s| > 0 {
      assert s == [s[0]] + s[1..];
      if s[0] != 0 { CStringWhole(s[1..]); }
    }
  }

  lemma NumBack(n: nat, rest: seq<Byte>)
    requires n < Pow256(LONG)
    ensures ReadNum(NumBytes(n) + rest) == Got(n, rest)
  {
    BytesRoundTrip(n, LONG);
    var s := NumBytes(n) + rest;
    assert s[..LONG] == NumBytes(n) && s[LONG..] == rest;
  }

  lemma {:induction false} StringBack(x: seq<Byte>, rest: seq<Byte>)
    requires |x| < Pow256(LONG)
    ensures ReadString(StringBytes(x) + rest) == Got(CString(x), rest)
  {
    var s := NumBytes(|x|) + (x + rest);
    NumBack(|x|, x + rest);
    StringAfterNum(s, x, rest);
    assert StringBytes(x) + rest == s;
  }

  lemma {:induction false} StringAfterNum(s: seq<Byte>, x: seq<Byte>, rest: seq<Byte>)
    requires ReadNum(s) == Got(|x|, x + rest)
    ensures ReadString(s) == Got(CString(x), rest)
  {
    assert (x + rest)[..|x|] == x && (x + rest)[|x|..] == rest;
  }

  lemma BlobBack(o: Option<Blob>, n: nat, rest: seq<Byte>)
    requires Sized(o, n)
    ensures ReadBlob(BlobOf(o, n) + rest, n) == Got(BlobOf(o, n), rest)
  {
    var b := BlobOf(o, n);
    assert (b + rest)[..n] == b && (b + rest)[n..] == rest;
  }

  lemma {:induction false} NodesBack(ns: seq<Option<Blob>>, rest: seq<Byte>)
    requires forall k :: 0 <= k < |ns| ==> Sized(ns[k], NODE_INFO)
    ensures ReadNodes(NodesBytes(ns) + rest, |ns|) == Got(NodesData(ns), rest)
  {
    if |ns| == 0 {
      assert NodesBytes(ns) + rest == rest;
    } else {
      var n := |ns| - 1;
      var last := BlobOf(ns[n], NODE_INFO);
      NodesBack(ns[..n], last + rest);
      BlobBack(ns[n], NODE_INFO, rest);
      NodesBytesLast(ns, rest);
      NodesDataLast(ns);
    }
  }

  lemma NodesBytesLast(ns: seq<Option<Blob>>, rest: seq<Byte>)
    requires |ns| > 0
    ensures NodesBytes(ns) + rest == NodesBytes(ns[..|ns| - 1]) + (BlobOf(ns[|ns| - 1], NODE_INFO) + rest)
  {
  }

  lemma NodesDataLast(ns: seq<Option<Blob>>)
    requires |ns| > 0
    ensures NodesData(ns) == NodesData(ns[..|ns| - 1]) + [BlobOf(ns[|ns| - 1], NODE_INFO)]
  {
    assert forall k :: 0 <= k < |ns| - 1 ==> ns[..|ns| - 1][k] == ns[k];
  }

  lemma HostBack(h: HostRecord, rest: seq<Byte>)
    requires HostSized(h)
    ensures ReadHost(HostBytes(h) + rest) == Got(HostDataOf(h), rest)
  {
    var r3 := NodesBytes(h.nodes) + rest;
    var r2 := BlobOf(h.infos, HOST_INFO) + r3;
    var r1 := NumBytes(|h.nodes|) + r2;
    assert HostBytes(h) + rest == StringBytes(h.host) + r1;
    StringBack(h.host, r1);
    NumBack(|h.nodes|, r2);
    BlobBack(h.infos, HOST_INFO, r3);
    NodesBack(h.nodes, rest);
  }

  lemma {:induction false} HostsBack(hs: seq<HostRecord>, rest: seq<Byte>)
    requires forall j :: 0 <= j < |hs| ==> HostSized(hs[j])
    ensures ReadHosts(HostsBytes(hs) + rest, |hs|) == Got(HostsData(hs), rest)
  {
    if |hs| == 0 {
      assert HostsBytes(hs) + rest == rest;
    } else {
      var n := |hs| - 1;
      HostsBack(hs[..n], HostBytes(hs[n]) + rest);
      HostBack(hs[n], rest);
      HostsBytesLast(hs, rest);
      HostsDataLast(hs);
    }
  }

  lemma HostsBytesLast(hs: seq<HostRecord>, rest: seq<Byte>)
    requires |hs| > 0
    ensures HostsBytes(hs) + rest == HostsBytes(hs[..|hs| - 1]) + (HostBytes(hs[|hs| - 1]) + rest)
  {
  }

  lemma HostsDataLast(hs: seq<HostRecord>)
    requires |hs| > 0
    ensures HostsData(hs) == HostsData(hs[..|hs| - 1]) + [HostDataOf(hs[|hs| - 1])]
  {
    var n := |hs| - 1;
    var r := HostsData(hs[..n]) + [HostDataOf(hs[n])];
    forall j | 0 <= j < |hs| ensures HostsData(hs)[j] == r[j] {
      assert j < n ==> hs[..n][j] == hs[j];
    }
  }

  lemma GroupBack(g: GroupRecord, rest: seq<Byte>)
    requires GroupSized(g)
    ensures ReadGroup(GroupBytes(g) + rest) == Got(GroupDataOf(g), rest)
  {
    var r3 := HostsBytes(g.hosts) + rest;
    var r2 := NumBytes(|g.hosts|) + r3;
    var r1 := StringBytes(g.cls) + r2;
    assert GroupBytes(g) + rest == StringBytes(g.name) + r1;
    StringBack(g.name, r1);
    StringBack(g.cls, r2);
    NumBack(|g.hosts|, r3);
    HostsBack(g.hosts, rest);
  }

  lemma ReadNextGroup(s: seq<Byte>, n: nat, before: seq<GroupData>, middle: seq<Byte>, g: GroupData, rest: seq<Byte>)
    requires ReadGroups(s, n) == Got(before, middle) && ReadGroup(middle) == Got(g, rest)
    ensures ReadGroups(s, n + 1) == Got(before + [g], rest)
  {
  }

  lemma GroupsBytesLast(gs: seq<GroupRecord>, rest: seq<Byte>)
    requires |gs| > 0
    ensures GroupsBytes(gs) + rest == GroupsBytes(gs[..|gs| - 1]) + (GroupBytes(gs[|gs| - 1]) + rest)
  {
  }

  lemma {:induction false} GroupsBack(gs: seq<GroupRecord>, rest: seq<Byte>)
    requires forall i :: 0 <= i < |gs| ==> GroupSized(gs[i])
    ensures ReadGroups(GroupsBytes(gs) + rest, |gs|) == Got(GroupsData(gs), rest)
  {
    if |gs| == 0 {
      assert GroupsBytes(gs) + rest == rest;
    } else {
      var n := |gs| - 1;
      var middle := GroupBytes(gs[n]) + rest;
      GroupsBytesLast(gs, rest);
      GroupsBack(gs[..n], middle);
      GroupBack(gs[n], rest);
      ReadNextGroup(GroupsBytes(gs) + rest, n, GroupsData(gs[..n]), middle, GroupDataOf(gs[n]), rest);
      GroupsDataLast(gs);
    }
  }

  lemma GroupsDataLast(gs: seq<GroupRecord>)
    requires |gs| > 0
    ensures GroupsData(gs) == GroupsData(gs[..|gs| - 1]) + [GroupDataOf(gs[|gs| - 1])]
  {
    var n := |gs| - 1;
    var r := GroupsData(gs[..n]) + [GroupDataOf(gs[n])];
    forall i | 0 <= i < |gs| ensures GroupsData(gs)[i] == r[i] {
      assert i < n ==> gs[..n][i] == gs[i];
    }
  }

  /** A dump is read back as the records it was made from, missing ones as zeros, with nothing left over. */
  lemma DumpBack(gs: seq<GroupRecord>)
    requires AllSized(gs)
    ensures ReadDump(DumpBytes(gs)) == Got(GroupsData(gs), [])
  {
    NumBack(|gs|, GroupsBytes(gs));
    assert GroupsBytes(gs) + [] == GroupsBytes(gs);
    GroupsBack(gs, []);
  }

  // ----- the reader's records -----

  /** One host of a group in the reader's topology. */
  datatype InfoHost = InfoHost(
    name: seq<Byte>, local: bool, nbNodes: nat, infos: Option<Blob>, nodes: seq<Option<Blob>>, remote: seq<Blob>)

  datatype InfoGroup = InfoGroup(name: seq<Byte>, cls: seq<Byte>, hosts: seq<InfoHost>)

  /** A local host has its nodes; a remote one has no node records until the first update. */
  predicate HostShape(h: InfoHost) {
    if h.local then |h.nodes| == h.nbNodes else h.remote == [] || |h.remote| == h.nbNodes
  }

  /** The record written for a host by dump_all_infos. */
  function AllRecord(h: InfoHost): HostRecord {
    HostRecord(h.name, h.infos,
      if h.local then h.nodes
      else if h.remote != [] then seq(|h.remote|, k requires 0 <= k < |h.remote| => Some(h.remote[k]))
      else seq(h.nbNodes, _ => None))
  }

  function LocalRecords(hs: seq<InfoHost>): seq<HostRecord> {
    if |hs| == 0 then []
    else LocalRecords(hs[..|hs| - 1]) + (if hs[|hs| - 1].local then [AllRecord(hs[|hs| - 1])] else [])
  }

  /** What dump_local_infos writes. */
  function LocalDump(gs: seq<InfoGroup>): (r: seq<GroupRecord>)
    ensures |r| == |gs|
  {
    seq(|gs|, i requires 0 <= i < |gs| => GroupRecord(gs[i].name, gs[i].cls, LocalRecords(gs[i].hosts)))
  }

  function GroupNamed(gs: seq<InfoGroup>, name: seq<Byte>): (i: nat)
    ensures i <= |gs|
    ensures i < |gs| ==> gs[i].name == name
    ensures forall k :: 0 <= k < i ==> gs[k].name != name
  {
    if |gs| == 0 || gs[0].name == name then 0 else 1 + GroupNamed(gs[1..], name)
  }

  function HostNamed(hs: seq<InfoHost>, name: seq<Byte>): (i: nat)
    ensures i <= |hs|
    ensures i < |hs| ==> hs[i].name == name
    ensures forall k :: 0 <= k < i ==> hs[k].name != name
  {
    if |hs| == 0 || hs[0].name == name then 0 else 1 + HostNamed(hs[1..], name)
  }

  /** None stands for an access outside the records the reader has. */
  function UpdateHost(h: InfoHost, d: HostData): Option<InfoHost> {
    if h.local then
      if |d.nodes| > |h.nodes| then None
      else Some(h.(infos := Some(d.infos),
        nodes := seq(|h.nodes|, k requires 0 <= k < |h.nodes| =>
          if k < |d.nodes| then Some(d.nodes[k]) else h.nodes[k])))
    else
      var remote := if h.remote == [] && |d.nodes| > 0 then seq(h.nbNodes, _ => Zeros(NODE_INFO)) else h.remote;
      if |d.nodes| > |remote| then None
      else Some(h.(infos := Some(d.infos), remote := d.nodes + remote[|d.nodes|..]))
  }

  function UpdateHosts(hs: seq<InfoHost>, ds: seq<HostData>): (r: Option<seq<InfoHost>>)
    ensures r.Some? ==> |r.value| == |hs|
  {
    if |ds| == 0 then Some(hs) else
    var before := UpdateHosts(hs, ds[..|ds| - 1]);
    var d := ds[|ds| - 1];
    if before.None? then None else
    var j := HostNamed(before.value, d.host);
    if j == |hs| then None else
    var h := UpdateHost(before.value[j], d);
    if h.None? then None else Some(before.value[j := h.value])
  }

  /** An unknown group only matters when it has hosts. */
  function UpdateGroup(gs: seq<InfoGroup>, d: GroupData): (r: Option<seq<InfoGroup>>)
    ensures r.Some? ==> |r.value| == |gs|
  {
    var i := GroupNamed(gs, d.name);
    if |d.hosts| == 0 then Some(gs)
    else if i == |gs| then None
    else var hs := UpdateHosts(gs[i].hosts, d.hosts);
      if hs.None? then None else Some(gs[i := gs[i].(hosts := hs.value)])
  }

  function UpdateGroups(gs: seq<InfoGroup>, ds: seq<GroupData>): (r: Option<seq<InfoGroup>>)
    ensures r.Some? ==> |r.value| == |gs|
  {
    if |ds| == 0 then Some(gs) else
    var before := UpdateGroups(gs, ds[..|ds| - 1]);
    if before.None? then None else UpdateGroup(before.value, ds[|ds| - 1])
  }

  // ----- the reader learns what the sender knows -----

  /** The reader has the host a record is about, with as many nodes. */
  ghost predicate Expects(hs: seq<InfoHost>, d: HostData) {
    var j := HostNamed(hs, d.host);
    j < |hs| && HostShape(hs[j]) && hs[j].nbNodes == |d.nodes|
  }

  ghost predicate ExpectsGroup(gs: seq<InfoGroup>, d: GroupData) {
    var i := GroupNamed(gs, d.name);
    && i < |gs|
    && (forall k, l :: 0 <= k < l < |d.hosts| ==> d.hosts[k].host != d.hosts[l].host)
    && (forall k :: 0 <= k < |d.hosts| ==> Expects(gs[i].hosts, d.hosts[k]))
  }

  ghost predicate ExpectsAll(gs: seq<InfoGroup>, ds: seq<GroupData>) {
    && (forall k, l :: 0 <= k < l < |ds| ==> ds[k].name != ds[l].name)
    && (forall k :: 0 <= k < |ds| ==> ExpectsGroup(gs, ds[k]))
  }

  /** The reader's records of a host are exactly the data. */
  predicate Learned(h: InfoHost, d: HostData) {
    && h.infos == Some(d.infos)
    && (if h.local
        then |h.nodes| == |d.nodes| && forall k :: 0 <= k < |h.nodes| ==> h.nodes[k] == Some(d.nodes[k])
        else h.remote == d.nodes)
  }

  ghost predicate SameHosts(a: seq<InfoHost>, b: seq<InfoHost>) {
    |a| == |b| && forall j :: 0 <= j < |a| ==>
      && a[j].name == b[j].name && a[j].local == b[j].local && a[j].nbNodes == b[j].nbNodes
      && (HostShape(a[j]) ==> HostShape(b[j]))
  }

  lemma {:induction false} HostNamedSame(a: seq<InfoHost>, b: seq<InfoHost>, name: seq<Byte>)
    requires |a| == |b| && forall j :: 0 <= j < |a| ==> a[j].name == b[j].name
    ensures HostNamed(a, name) == HostNamed(b, name)
  {
  }

  /** Each named host has learned its data and no other host has changed. */
  ghost predicate HostsLearned(hs: seq<InfoHost>, r: seq<InfoHost>, ds: seq<HostData>) {
    && SameHosts(hs, r)
    && (forall k :: 0 <= k < |ds| ==> var j := HostNamed(hs, ds[k].host); j < |hs| && Learned(r[j], ds[k]))
    && (forall j :: 0 <= j < |hs| && Unnamed(hs, ds, j) ==> r[j] == hs[j])
  }

  ghost predicate Unnamed(hs: seq<InfoHost>, ds: seq<HostData>, j: nat) {
    forall k :: 0 <= k < |ds| ==> HostNamed(hs, ds[k].host) != j
  }

  lemma {:induction false} OneHostLearns(hs: seq<InfoHost>, before: seq<InfoHost>, ds: seq<HostData>, d: HostData)
    requires HostsLearned(hs, before, ds) && Expects(hs, d) && Unnamed(hs, ds, HostNamed(hs, d.host))
    ensures var j := HostNamed(before, d.host);
      && j < |before| && UpdateHost(before[j], d).Some?
      && HostsLearned(hs, before[j := UpdateHost(before[j], d).value], ds + [d])
  {
    HostNamedSame(hs, before, d.host);
    var j := HostNamed(hs, d.host);
    assert before[j] == hs[j];
    HostLearns(hs[j], d);
    var r := before[j := UpdateHost(before[j], d).value];
    assert SameHosts(hs, r);
    LearnedMore(hs, before, ds, d, j, r[j]);
    forall x | 0 <= x < |hs| && Unnamed(hs, ds + [d], x) ensures r[x] == hs[x] {
      UnnamedBefore(hs, ds, d, x);
    }
  }

  lemma {:induction false} LearnedMore(
    hs: seq<InfoHost>, before: seq<InfoHost>, ds: seq<HostData>, d: HostData, j: nat, h: InfoHost)
    requires HostsLearned(hs, before, ds) && Unnamed(hs, ds, j) && j == HostNamed(hs, d.host) < |hs| && Learned(h, d)
    ensures forall k :: 0 <= k < |ds + [d]| ==>
      var x := HostNamed(hs, (ds + [d])[k].host); x < |hs| && Learned(before[j := h][x], (ds + [d])[k])
  {
    forall k | 0 <= k < |ds| + 1
      ensures var x := HostNamed(hs, (ds + [d])[k].host); x < |hs| && Learned(before[j := h][x], (ds + [d])[k])
    {
      if k < |ds| { assert HostNamed(hs, ds[k].host) != j; }
    }
  }

  lemma {:induction false} UnnamedBefore(hs: seq<InfoHost>, ds: seq<HostData>, d: HostData, x: nat)
    requires Unnamed(hs, ds + [d], x)
    ensures Unnamed(hs, ds, x) && HostNamed(hs, d.host) != x
  {
    assert (ds + [d])[|ds|] == d;
    assert forall k :: 0 <= k < |ds| ==> (ds + [d])[k] == ds[k];
  }

  /** After the updates of distinct hosts, each named host has learned its data and no other host has changed. */
  lemma {:induction false} HostsLearn(hs: seq<InfoHost>, ds: seq<HostData>)
    requires forall k, l :: 0 <= k < l < |ds| ==> ds[k].host != ds[l].host
    requires forall k :: 0 <= k < |ds| ==> Expects(hs, ds[k])
    ensures var r := UpdateHosts(hs, ds); r.Some? && HostsLearned(hs, r.value, ds)
  {
    if |ds| > 0 {
      var n := |ds| - 1;
      var d := ds[n];
      assert ds == ds[..n] + [d];
      assert Expects(hs, d);
      HostsLearn(hs, ds[..n]);
      forall k | 0 <= k < n ensures HostNamed(hs, ds[..n][k].host) != HostNamed(hs, d.host) {
        assert Expects(hs, ds[k]);
      }
      OneHostLearns(hs, UpdateHosts(hs, ds[..n]).value, ds[..n], d);
    }
  }

  lemma HostLearns(h: InfoHost, d: HostData)
    requires HostShape(h) && h.nbNodes == |d.nodes|
    ensures var r := UpdateHost(h, d);
      && r.Some? && Learned(r.value, d)
      && r.value.name == h.name && r.value.local == h.local && r.value.nbNodes == h.nbNodes && HostShape(r.value)
  {
  }

  ghost predicate SameGroups(a: seq<InfoGroup>, b: seq<InfoGroup>) {
    |a| == |b| && forall i :: 0 <= i < |a| ==> a[i].name == b[i].name && a[i].cls == b[i].cls
  }

  lemma {:induction false} GroupNamedSame(a: seq<InfoGroup>, b: seq<InfoGroup>, name: seq<Byte>)
    requires SameGroups(a, b)
    ensures GroupNamed(a, name) == GroupNamed(b, name)
  {
  }

  ghost predicate GroupLearned(before: InfoGroup, after: InfoGroup, d: GroupData) {
    HostsLearned(before.hosts, after.hosts, d.hosts)
  }

  ghost predicate GroupsLearned(gs: seq<InfoGroup>, r: seq<InfoGroup>, ds: seq<GroupData>) {
    && SameGroups(gs, r)
    && (forall k :: 0 <= k < |ds| ==> var i := GroupNamed(gs, ds[k].name); i < |gs| && GroupLearned(gs[i], r[i], ds[k]))
    && (forall i :: 0 <= i < |gs| && Untouched(gs, ds, i) ==> r[i] == gs[i])
  }

  ghost predicate Untouched(gs: seq<InfoGroup>, ds: seq<GroupData>, i: nat) {
    forall k :: 0 <= k < |ds| ==> GroupNamed(gs, ds[k].name) != i
  }

  lemma OneGroupLearns(gs: seq<InfoGroup>, before: seq<InfoGroup>, ds: seq<GroupData>, d: GroupData)
    requires GroupsLearned(gs, before, ds) && ExpectsGroup(gs, d) && Untouched(gs, ds, GroupNamed(gs, d.name))
    ensures var r := UpdateGroup(before, d); r.Some? && GroupsLearned(gs, r.value, ds + [d])
  {
    GroupNamedSame(gs, before, d.name);
    var i := GroupNamed(gs, d.name);
    assert before[i] == gs[i];
    HostsLearn(gs[i].hosts, d.hosts);
    var r := UpdateGroup(before, d).value;
    assert GroupLearned(gs[i], r[i], d);
    forall k | 0 <= k < |ds| + 1
      ensures var x := GroupNamed(gs, (ds + [d])[k].name); x < |gs| && GroupLearned(gs[x], r[x], (ds + [d])[k])
    {
      if k < |ds| { assert GroupNamed(gs, ds[k].name) != i; }
    }
    forall x | 0 <= x < |gs| && Untouched(gs, ds + [d], x) ensures r[x] == gs[x] {
      assert (ds + [d])[|ds|] == d;
      assert forall k :: 0 <= k < |ds| ==> (ds + [d])[k] == ds[k];
      assert Untouched(gs, ds, x);
    }
  }

  /** After reading a dump, every host it is about has learned its records, and nothing else has changed. */
  lemma {:induction false} GroupsLearn(gs: seq<InfoGroup>, ds: seq<GroupData>)
    requires ExpectsAll(gs, ds)
    ensures var r := UpdateGroups(gs, ds); r.Some? && GroupsLearned(gs, r.value, ds)
  {
    if |ds| > 0 {
      var n := |ds| - 1;
      var d := ds[n];
      assert ds == ds[..n] + [d];
      assert ExpectsGroup(gs, d);
      GroupsLearn(gs, ds[..n]);
      forall k | 0 <= k < n ensures GroupNamed(gs, ds[..n][k].name) != GroupNamed(gs, d.name) {
        assert ExpectsGroup(gs, ds[k]);
      }
      OneGroupLearns(gs, UpdateGroups(gs, ds[..n]).value, ds[..n], d);
    }
  }

  // ----- when an update fails -----

  /** How many node records an entry has room for. */
  function Room(h: InfoHost): nat {
    if h.local then |h.nodes| else if h.remote == [] then h.nbNodes else |h.remote|
  }

  /** The reader has the host, with room for the records. */
  predicate Fits(hs: seq<InfoHost>, d: HostData) {
    var j := HostNamed(hs, d.host);
    j < |hs| && |d.nodes| <= Room(hs[j])
  }

  lemma UpdateHostIff(h: InfoHost, d: HostData)
    ensures UpdateHost(h, d).Some? <==> |d.nodes| <= Room(h)
    ensures var r := UpdateHost(h, d); r.Some? ==> r.value.name == h.name && Room(r.value) == Room(h)
  {
  }

  lemma {:induction false} RoomsKept(hs: seq<InfoHost>, ds: seq<HostData>)
    requires UpdateHosts(hs, ds).Some?
    ensures var r := UpdateHosts(hs, ds).value;
      forall j :: 0 <= j < |hs| ==> r[j].name == hs[j].name && Room(r[j]) == Room(hs[j])
  {
    if |ds| > 0 {
      var n := |ds| - 1;
      RoomsKept(hs, ds[..n]);
      var before := UpdateHosts(hs, ds[..n]).value;
      UpdateHostIff(before[HostNamed(before, ds[n].host)], ds[n]);
    }
  }

  /** Node k of a record after an update: what was sent, else what was known, else zeros or nothing. */
  lemma UpdateHostNodes(h: InfoHost, d: HostData, k: nat)
    requires HostShape(h) && |d.nodes| <= h.nbNodes && k < h.nbNodes
    ensures var r := UpdateHost(h, d);
      && r.Some? && r.value.infos == Some(d.infos) && HostShape(r.value)
      && (h.local ==> r.value.nodes[k] == if k < |d.nodes| then Some(d.nodes[k]) else h.nodes[k])
      && (!h.local && h.remote != [] ==> r.value.remote[k] == if k < |d.nodes| then d.nodes[k] else h.remote[k])
      && (!h.local && h.remote == [] && |d.nodes| > 0 ==>
            r.value.remote[k] == if k < |d.nodes| then d.nodes[k] else seq(72, _ => 0))
      && (!h.local && h.remote == [] && |d.nodes| == 0 ==> r.value.remote == [])
  {
  }

  predicate AllFit(hs: seq<InfoHost>, ds: seq<HostData>) {
    |ds| == 0 || (AllFit(hs, ds[..|ds| - 1]) && Fits(hs, ds[|ds| - 1]))
  }

  /** The hosts of a group can be updated if and only if the reader has each of them with room for its nodes. */
  lemma {:induction false} UpdateHostsIff(hs: seq<InfoHost>, ds: seq<HostData>)
    ensures UpdateHosts(hs, ds).Some? <==> AllFit(hs, ds)
  {
    if |ds| > 0 {
      var n := |ds| - 1;
      UpdateHostsIff(hs, ds[..n]);
      if UpdateHosts(hs, ds[..n]).Some? {
        var before := UpdateHosts(hs, ds[..n]).value;
        RoomsKept(hs, ds[..n]);
        HostNamedSame(before, hs, ds[n].host);
        var j := HostNamed(before, ds[n].host);
        if j < |hs| { UpdateHostIff(before[j], ds[n]); }
      }
    }
  }

  /** A group can be updated if and only if it brings no hosts, or is known and all its hosts fit. */
  lemma UpdateGroupIff(gs: seq<InfoGroup>, d: GroupData)
    ensures var i := GroupNamed(gs, d.name);
      UpdateGroup(gs, d).Some? <==> d.hosts == [] || (i < |gs| && AllFit(gs[i].hosts, d.hosts))
  {
    var i := GroupNamed(gs, d.name);
    if i < |gs| { UpdateHostsIff(gs[i].hosts, d.hosts); }
  }

  // ----- the reading loop -----

  /** The reader's topology and its read pointer. */
  class InfoTable {
    var groups: seq<InfoGroup>

    constructor (groups: seq<InfoGroup>)
      ensures this.groups == groups
    {
      this.groups := groups;
    }

    /** update_infos.  False stands for the crash on records the reader does not have. */
    method UpdateInfos(data: seq<Byte>) returns (ok: bool)
      requires ReadDump(data).Got?
      modifies this
      ensures var r := UpdateGroups(old(groups), ReadDump(data).value);
        ok == r.Some? && (ok ==> groups == r.value)
    {
      ghost var all := ReadDump(data).value;
      var head := ReadNum(data);
      var n, rest := head.value, head.rest;
      ghost var body := rest;
      for i := 0 to n
        invariant |all| == n
        invariant ReadGroups(body, i) == Got(all[..i], rest)
        invariant UpdateGroups(old(groups), all[..i]) == Some(groups)
      {
        PrefixRead(body, i + 1, n);
        FewerGroups(body, i);
        var g := ReadGroup(rest);
        assert all[..i + 1][..i] == all[..i];
        ok := UpdateOneGroup(g.value);
        if !ok { AbortedStays(old(groups), all, i + 1); return; }
        rest := g.rest;
      }
      assert all[..n] == all;
      ok := true;
    }

    /** The body of the outer loop: find the group, then update its hosts one by one. */
    method UpdateOneGroup(d: GroupData) returns (ok: bool)
      modifies this
      ensures var r := UpdateGroup(old(groups), d);
        ok == r.Some? && (ok ==> groups == r.value)
    {
      var i := GroupNamed(groups, d.name);
      if |d.hosts| == 0 { return true; }
      if i == |groups| { return false; }
      var hosts := groups[i].hosts;
      for j := 0 to |d.hosts|
        invariant UpdateHosts(groups[i].hosts, d.hosts[..j]) == Some(hosts) && groups == old(groups)
      {
        assert d.hosts[..j + 1][..j] == d.hosts[..j];
        var k := HostNamed(hosts, d.hosts[j].host);
        if k == |hosts| { HostAborted(groups[i].hosts, d.hosts, j + 1); return false; }
        var h := UpdateHost(hosts[k], d.hosts[j]);
        if h.None? { HostAborted(groups[i].hosts, d.hosts, j + 1); return false; }
        hosts := hosts[k := h.value];
      }
      assert d.hosts[..|d.hosts|] == d.hosts;
      groups := groups[i := groups[i].(hosts := hosts)];
      ok := true;
    }
  }

  /** Reading n groups reads any smaller number first. */
  lemma {:induction false} PrefixRead(s: seq<Byte>, i: nat, n: nat)
    requires i <= n && ReadGroups(s, n).Got?
    ensures ReadGroups(s, i).Got? && ReadGroups(s, i).value == ReadGroups(s, n).value[..i]
  {
    var all := ReadGroups(s, n).value;
    if i < n {
      FewerGroups(s, n - 1);
      ghost var fewer := ReadGroups(s, n - 1).value;
      assert fewer == all[..n - 1];
      PrefixRead(s, i, n - 1);
      SlicePrefix(all, i, n - 1);
    } else {
      assert all[..n] == all;
    }
  }

  lemma SlicePrefix<T>(v: seq<T>, i: nat, n: nat)
    requires i <= n <= |v|
    ensures v[..n][..i] == v[..i]
  {
  }

  lemma FewerGroups(s: seq<Byte>, n: nat)
    requires ReadGroups(s, n + 1).Got?
    ensures ReadGroups(s, n).Got? && ReadGroups(s, n + 1).value[..n] == ReadGroups(s, n).value
    ensures ReadGroup(ReadGroups(s, n).rest) == Got(ReadGroups(s, n + 1).value[n], ReadGroups(s, n + 1).rest)
  {
  }

  lemma {:induction false} AbortedStays(gs: seq<InfoGroup>, ds: seq<GroupData>, i: nat)
    requires i <= |ds| && UpdateGroups(gs, ds[..i]).None?
    ensures UpdateGroups(gs, ds).None?
    decreases |ds|
  {
    if i < |ds| {
      assert ds[..|ds| - 1][..i] == ds[..i];
      AbortedStays(gs, ds[..|ds| - 1], i);
    } else {
      assert ds[..i] == ds;
    }
  }

  lemma {:induction false} HostAborted(hs: seq<InfoHost>, ds: seq<HostData>, i: nat)
    requires i <= |ds| && UpdateHosts(hs, ds[..i]).None?
    ensures UpdateHosts(hs, ds).None?
    decreases |ds|
  {
    if i < |ds| {
      assert ds[..|ds| - 1][..i] == ds[..i];
      HostAborted(hs, ds[..|ds| - 1], i);
    } else {
      assert ds[..i] == ds;
    }
  }
}
