/**
 The statistics of nodes and hosts as a byte dump.  The writer runs twice over the records, first to
 measure and then to write; the reader copies what it finds into the matching records of its topology.
 */
module InfoDump {
  import opened Vectors
  import opened Wire

  type Blob = seq<Byte>

  /** The sizes of the two record types, in bytes. */
  const NODE_INFO: nat := 72
  const HOST_INFO: nat := 64

  /** What is dumped: a record that does not exist yet is written as zeros. */
  datatype HostRecord = HostRecord(host: seq<Byte>, infos: Option<Blob>, nodes: seq<Option<Blob>>)

  datatype GroupRecord = GroupRecord(name: seq<Byte>, cls: seq<Byte>, hosts: seq<HostRecord>)

  /** What is read. */
  datatype HostData = HostData(host: seq<Byte>, infos: Blob, nodes: seq<Blob>)

  datatype GroupData = GroupData(name: seq<Byte>, cls: seq<Byte>, hosts: seq<HostData>)

  predicate Sized(o: Option<Blob>, n: nat) {
    o.Some? ==> |o.value| == n
  }

  ghost predicate HostSized(h: HostRecord) {
    && Sized(h.infos, HOST_INFO) && |h.host| < Pow256(LONG) && |h.nodes| < Pow256(LONG)
    && forall k :: 0 <= k < |h.nodes| ==> Sized(h.nodes[k], NODE_INFO)
  }

  ghost predicate GroupSized(g: GroupRecord) {
    && |g.name| < Pow256(LONG) && |g.cls| < Pow256(LONG) && |g.hosts| < Pow256(LONG)
    && forall j :: 0 <= j < |g.hosts| ==> HostSized(g.hosts[j])
  }

  ghost predicate AllSized(gs: seq<GroupRecord>) {
    |gs| < Pow256(LONG) && forall i :: 0 <= i < |gs| ==> GroupSized(gs[i])
  }

  // ----- the bytes of a dump -----

  function Zeros(n: nat): (z: Blob)
    ensures |z| == n
  {
    seq(n, _ => 0)
  }

  function BlobOf(o: Option<Blob>, n: nat): Blob {
    if o.Some? then o.value else Zeros(n)
  }

  function NumBytes(n: nat): seq<Byte> {
    LowBytes(n, LONG)
  }

  function StringBytes(s: seq<Byte>): seq<Byte> {
    NumBytes(|s|) + s
  }

  function NodesBytes(ns: seq<Option<Blob>>): seq<Byte> {
    if |ns| == 0 then [] else NodesBytes(ns[..|ns| - 1]) + BlobOf(ns[|ns| - 1], NODE_INFO)
  }

  function HostBytes(h: HostRecord): seq<Byte> {
    StringBytes(h.host) + NumBytes(|h.nodes|) + BlobOf(h.infos, HOST_INFO) + NodesBytes(h.nodes)
  }

  function HostsBytes(hs: seq<HostRecord>): seq<Byte> {
    if |hs| == 0 then [] else HostsBytes(hs[..|hs| - 1]) + HostBytes(hs[|hs| - 1])
  }

  function GroupBytes(g: GroupRecord): seq<Byte> {
    StringBytes(g.name) + StringBytes(g.cls) + NumBytes(|g.hosts|) + HostsBytes(g.hosts)
  }

  function GroupsBytes(gs: seq<GroupRecord>): seq<Byte> {
    if |gs| == 0 then [] else GroupsBytes(gs[..|gs| - 1]) + GroupBytes(gs[|gs| - 1])
  }

  function DumpBytes(gs: seq<GroupRecord>): seq<Byte> {
    NumBytes(|gs|) + GroupsBytes(gs)
  }

  // ----- the layout -----

  /** The records of a group follow its name, its class and the number of its hosts. */
  lemma GroupLayout(g: GroupRecord)
    ensures GroupBytes(g) ==
      LowBytes(|g.name|, 8) + g.name + (LowBytes(|g.cls|, 8) + g.cls) + LowBytes(|g.hosts|, 8) + HostsBytes(g.hosts)
  {
  }

  /** A host is its name, its number of nodes, its record and the records of its nodes, a missing one as zeros. */
  lemma HostLayout(h: HostRecord)
    requires HostSized(h)
    ensures HostBytes(h) ==
      LowBytes(|h.host|, 8) + h.host + LowBytes(|h.nodes|, 8)
        + (if h.infos.Some? then h.infos.value else seq(64, _ => 0)) + NodesBytes(h.nodes)
    ensures |HostBytes(h)| == 8 + |h.host| + 8 + 64 + 72 * |h.nodes|
  {
    if |h.nodes| > 0 { NodeLayout(h.nodes, 0); }
  }

  /** Record k of the nodes is at 72 times k, a missing one as zeros. */
  lemma {:induction false} NodeLayout(ns: seq<Option<Blob>>, k: nat)
    requires k < |ns| && forall i :: 0 <= i < |ns| ==> Sized(ns[i], 72)
    ensures |NodesBytes(ns)| == 72 * |ns|
    ensures NodesBytes(ns)[72 * k..72 * k + 72] == if ns[k].Some? then ns[k].value else seq(72, _ => 0)
  {
    var n := |ns| - 1;
    var last := BlobOf(ns[n], 72);
    if k < n {
      NodeLayout(ns[..n], k);
      assert (NodesBytes(ns[..n]) + last)[72 * k..72 * k + 72] == NodesBytes(ns[..n])[72 * k..72 * k + 72];
    } else {
      if n > 0 { NodeLayout(ns[..n], 0); }
      assert (NodesBytes(ns[..n]) + last)[72 * n..72 * n + 72] == last;
    }
  }

  // ----- the two passes -----

  /** The write pointer.  While measuring it only advances; while writing it also fills the buffer. */
  class PtrStream {
    var p: nat
    const buf: array<Byte>
    const writing: bool

    constructor (buf: array<Byte>, writing: bool)
      ensures this.buf == buf && this.writing == writing && p == 0
    {
      this.buf, this.writing, p := buf, writing, 0;
    }

    /** n more bytes fit, which only matters while writing. */
    ghost predicate Room(n: nat)
      reads this
    {
      writing ==> p + n <= buf.Length
    }

    /** What a step that stands for the bytes s does. */
    twostate predicate Advanced(s: seq<Byte>)
      reads this, buf
    {
      && p == old(p) + |s|
      && (writing ==> p <= buf.Length && old(p) <= buf.Length && buf[..p] == old(buf[..p]) + s)
      && (!writing ==> buf[..] == old(buf[..]))
    }

    method Put(s: seq<Byte>)
      requires Room(|s|)
      modifies this, buf
      ensures Advanced(s)
    {
      if writing {
        for i := 0 to |s|
          invariant p == old(p)
          invariant buf[..p] == old(buf[..p])
          invariant forall k :: 0 <= k < i ==> buf[p + k] == s[k]
        {
          buf[p + i] := s[i];
        }
        assert buf[..p + |s|] == buf[..p] + s;
      }
      p := p + |s|;
    }

    method PutString(s: seq<Byte>)
      requires Room(|StringBytes(s)|)
      modifies this, buf
      ensures Advanced(StringBytes(s))
    {
      Put(NumBytes(|s|));
      Put(s);
    }

    method PutNodes(ns: seq<Option<Blob>>)
      requires Room(|NodesBytes(ns)|)
      modifies this, buf
      ensures Advanced(NodesBytes(ns))
    {
      for k := 0 to |ns|
        invariant Advanced(NodesBytes(ns[..k]))
      {
        assert ns[..k + 1][..k] == ns[..k];
        NodesPrefix(ns, k + 1);
        Put(BlobOf(ns[k], NODE_INFO));
      }
      assert ns[..|ns|] == ns;
    }

    method PutHost(h: HostRecord)
      requires Room(|HostBytes(h)|)
      modifies this, buf
      ensures Advanced(HostBytes(h))
    {
      PutString(h.host);
      Put(NumBytes(|h.nodes|));
      Put(BlobOf(h.infos, HOST_INFO));
      PutNodes(h.nodes);
    }

    /** One more host after the bytes done. */
    method PutNextHost(h: HostRecord, ghost first: seq<Byte>, ghost done: seq<Byte>) returns (ghost next: seq<Byte>)
      requires Room(|HostBytes(h)|)
      requires writing ==> p <= buf.Length && buf[..p] == first + done
      modifies this, buf
      ensures next == HostBytes(h) && p == old(p) + |next|
      ensures if writing then p <= buf.Length && buf[..p] == first + (done + next) else buf[..] == old(buf[..])
    {
      next := HostBytes(h);
      PutHost(h);
      assert first + (done + next) == (first + done) + next;
    }

    method PutHosts(hs: seq<HostRecord>)
      requires Room(|HostsBytes(hs)|)
      modifies this, buf
      ensures Advanced(HostsBytes(hs))
    {
      ghost var first, done := if writing then buf[..p] else [], [];
      for j := 0 to |hs|
        invariant done == HostsBytes(hs[..j]) && p == old(p) + |done|
        invariant if writing then p <= buf.Length && buf[..p] == first + done else buf[..] == old(buf[..])
      {
        HostsNext(hs, j);
        ghost var next := PutNextHost(hs[j], first, done);
        done := done + next;
      }
      assert hs[..|hs|] == hs;
    }

    method PutGroup(g: GroupRecord)
      requires Room(|GroupBytes(g)|)
      modifies this, buf
      ensures Advanced(GroupBytes(g))
    {
      PutString(g.name);
      PutString(g.cls);
      Put(NumBytes(|g.hosts|));
      PutHosts(g.hosts);
    }

    /** One more group after the bytes done. */
    method PutNextGroup(g: GroupRecord, ghost first: seq<Byte>, ghost done: seq<Byte>) returns (ghost next: seq<Byte>)
      requires Room(|GroupBytes(g)|)
      requires writing ==> p <= buf.Length && buf[..p] == first + done
      modifies this, buf
      ensures next == GroupBytes(g) && p == old(p) + |next|
      ensures if writing then p <= buf.Length && buf[..p] == first + (done + next) else buf[..] == old(buf[..])
    {
      next := GroupBytes(g);
      PutGroup(g);
      assert first + (done + next) == (first + done) + next;
    }

    method PutGroups(gs: seq<GroupRecord>)
      requires Room(|GroupsBytes(gs)|)
      modifies this, buf
      ensures Advanced(GroupsBytes(gs))
    {
      ghost var first, done := if writing then buf[..p] else [], [];
      for i := 0 to |gs|
        invariant done == GroupsBytes(gs[..i]) && p == old(p) + |done|
        invariant if writing then p <= buf.Length && buf[..p] == first + done else buf[..] == old(buf[..])
      {
        GroupsNext(gs, i);
        ghost var next := PutNextGroup(gs[i], first, done);
        done := done + next;
      }
      assert gs[..|gs|] == gs;
    }

    method PutAll(gs: seq<GroupRecord>)
      requires Room(|DumpBytes(gs)|)
      modifies this, buf
      ensures Advanced(DumpBytes(gs))
    {
      Put(NumBytes(|gs|));
      PutGroups(gs);
    }
  }

  lemma {:induction false} NodesPrefix(ns: seq<Option<Blob>>, k: nat)
    requires k <= |ns|
    ensures |NodesBytes(ns[..k])| <= |NodesBytes(ns)|
  {
    if k < |ns| {
      NodesPrefix(ns[..|ns| - 1], k);
      assert ns[..|ns| - 1][..k] == ns[..k];
    } else {
      assert ns[..k] == ns;
    }
  }

  lemma {:induction false} HostsPrefix(hs: seq<HostRecord>, j: nat)
    requires j <= |hs|
    ensures |HostsBytes(hs[..j])| <= |HostsBytes(hs)|
  {
    if j < |hs| {
      HostsPrefix(hs[..|hs| - 1], j);
      assert hs[..|hs| - 1][..j] == hs[..j];
    } else {
      assert hs[..j] == hs;
    }
  }

  lemma {:induction false} GroupsPrefix(gs: seq<GroupRecord>, i: nat)
    requires i <= |gs|
    ensures |GroupsBytes(gs[..i])| <= |GroupsBytes(gs)|
  {
    if i < |gs| {
      GroupsPrefix(gs[..|gs| - 1], i);
      assert gs[..|gs| - 1][..i] == gs[..i];
    } else {
      assert gs[..i] == gs;
    }
  }

  lemma HostsNext(hs: seq<HostRecord>, j: nat)
    requires j < |hs|
    ensures HostsBytes(hs[..j + 1]) == HostsBytes(hs[..j]) + HostBytes(hs[j])
    ensures |HostsBytes(hs[..j])| + |HostBytes(hs[j])| <= |HostsBytes(hs)|
  {
    assert hs[..j + 1][..j] == hs[..j];
    HostsPrefix(hs, j + 1);
  }

  lemma GroupsNext(gs: seq<GroupRecord>, i: nat)
    requires i < |gs|
    ensures GroupsBytes(gs[..i + 1]) == GroupsBytes(gs[..i]) + GroupBytes(gs[i])
    ensures |GroupsBytes(gs[..i])| + |GroupBytes(gs[i])| <= |GroupsBytes(gs)|
  {
    assert gs[..i + 1][..i] == gs[..i];
    GroupsPrefix(gs, i + 1);
  }

  /** Measure, allocate, write: the size measured is the number of bytes written, and they are the dump. */
  method Dump(gs: seq<GroupRecord>) returns (size: nat, data: array<Byte>)
    ensures fresh(data) && size == data.Length && data[..] == DumpBytes(gs)
  {
    var none := new Byte[0];
    var measure := new PtrStream(none, false);
    measure.PutAll(gs);
    size := measure.p;
    data := new Byte[size];
    var writer := new PtrStream(data, true);
    writer.PutAll(gs);
    assert data[..] == data[..writer.p];
  }
}
