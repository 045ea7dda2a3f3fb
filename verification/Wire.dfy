/**
 The framing of messages on a byte stream.  A reader gets the bytes in chunks of any size, and still reads
 back the messages that were written, as long as a message has fewer than 65536 elements.
 */
module Wire {
  import opened Vectors

  type Byte = b: int | 0 <= b < 256

  /** A data element: a null pointer or a buffer, with its size. */
  datatype Elt = Elt(data: Option<seq<Byte>>, size: nat)

  datatype Msg = Msg(src: int, dst: int, channel: int, elts: seq<Elt>)

  // ----- integers -----

  function Pow256(n: nat): (r: nat)
    ensures r > 0
  {
    if n == 0 then 1 else 256 * Pow256(n - 1)
  }

  /** The n low bytes of v, least significant first. */
  function LowBytes(v: nat, n: nat): (s: seq<Byte>)
    ensures |s| == n
  {
    if n == 0 then [] else [v % 256] + LowBytes(v / 256, n - 1)
  }

  function Value(s: seq<Byte>): nat {
    if |s| == 0 then 0 else s[0] + 256 * Value(s[1..])
  }

  lemma {:induction false} BytesRoundTrip(v: nat, n: nat)
    requires v < Pow256(n)
    ensures Value(LowBytes(v, n)) == v
  {
    if n > 0 {
      BytesRoundTrip(v / 256, n - 1);
      assert LowBytes(v, n)[1..] == LowBytes(v / 256, n - 1);
    }
  }

  lemma Powers()
    ensures Pow256(2) == 0x1_0000 && Pow256(4) == 0x1_0000_0000 && Pow256(8) == 0x1_0000_0000_0000_0000
  {
    assert Pow256(1) == 256;
    assert Pow256(2) == 0x1_0000;
    assert Pow256(3) == 0x100_0000;
    assert Pow256(4) == 0x1_0000_0000;
    assert Pow256(5) == 0x100_0000_0000;
    assert Pow256(6) == 0x1_0000_0000_0000;
    assert Pow256(7) == 0x100_0000_0000_0000;
  }

  /** Two's complement in n bytes. */
  function Unsigned(v: int, n: nat): nat
    requires -(Pow256(n) as int) <= v
  {
    if v < 0 then v + Pow256(n) else v
  }

  function Signed(u: nat, n: nat): int {
    if 2 * u >= Pow256(n) then u - Pow256(n) else u
  }

  predicate Fits(v: int, n: nat) {
    -(Pow256(n) as int) <= 2 * v < Pow256(n)
  }

  function IntBytes(v: int, n: nat): (s: seq<Byte>)
    requires Fits(v, n)
    ensures |s| == n
  {
    LowBytes(Unsigned(v, n), n)
  }

  lemma IntRoundTrip(v: int, n: nat)
    requires Fits(v, n)
    ensures Signed(Value(IntBytes(v, n)), n) == v
  {
    BytesRoundTrip(Unsigned(v, n), n);
  }

  // ----- writing -----

  const LONG: nat := 8
  const INT: nat := 4
  const SHORT: nat := 2
  const HEADER: nat := 22
  const COUNTS: nat := 0x1_0000

  ghost predicate Sendable(m: Msg) {
    && Fits(m.src, LONG) && Fits(m.dst, LONG) && Fits(m.channel, INT)
    && forall i :: 0 <= i < |m.elts| ==> SendableElt(m.elts[i])
  }

  ghost predicate SendableElt(e: Elt) {
    e.size < Pow256(LONG) && (e.data.Some? ==> |e.data.value| == e.size)
  }

  function WriteElt(e: Elt): seq<Byte> {
    if e.size == 0 || e.data.None? then LowBytes(0, LONG) else LowBytes(e.size, LONG) + e.data.value
  }

  function WriteElts(es: seq<Elt>): seq<Byte> {
    if |es| == 0 then [] else WriteElt(es[0]) + WriteElts(es[1..])
  }

  /** The element count as it is written: cast to 16 bits. */
  function CountField(m: Msg): (n: nat)
    ensures n < COUNTS && n <= |m.elts|
    ensures n == |m.elts| <==> |m.elts| < COUNTS
  {
    |m.elts| % COUNTS
  }

  /** The header; all the elements follow it, whatever the count field says. */
  function Header(m: Msg): (s: seq<Byte>)
    requires Sendable(m)
    ensures |s| == HEADER
  {
    IntBytes(m.src, LONG) + IntBytes(m.dst, LONG) + IntBytes(m.channel, INT) + LowBytes(CountField(m), SHORT)
  }

  function Write(m: Msg): seq<Byte>
    requires Sendable(m)
  {
    Header(m) + WriteElts(m.elts)
  }

  function WriteAll(ms: seq<Msg>): seq<Byte>
    requires forall i :: 0 <= i < |ms| ==> Sendable(ms[i])
  {
    if |ms| == 0 then [] else Write(ms[0]) + WriteAll(ms[1..])
  }

  // ----- the layout -----

  /** Byte k of an integer is its k-th digit to base 256, the lowest first. */
  lemma {:induction false} ByteAt(v: nat, n: nat, k: nat)
    requires k < n
    ensures LowBytes(v, n)[k] == v / Pow256(k) % 256
  {
    if k > 0 {
      ByteAt(v / 256, n - 1, k - 1);
      DivTwice(v, 256, Pow256(k - 1));
    }
  }

  lemma DivTwice(v: nat, a: nat, b: nat)
    requires a > 0 && b > 0
    ensures a * b > 0 && v / a / b == v / (a * b)
  {
    var w := v / a;
    Nested(v, a, b, w, v % a, w / b, w % b);
    QuotientIs(v, w / b, a * b, w % b * a + v % a);
  }

  lemma Nested(v: nat, a: nat, b: nat, w: nat, s: nat, q: nat, r: nat)
    requires v == w * a + s && w == q * b + r && s < a && r < b
    ensures v == q * (a * b) + (r * a + s) && r * a + s < a * b
  {
    Regroup(q, b, r, a);
    MulMono(r + 1, b, a);
  }

  lemma Regroup(q: nat, b: nat, r: nat, a: nat)
    ensures (q * b + r) * a == q * (a * b) + r * a
    ensures (r + 1) * a == r * a + a
  {
    assert q * b * a == q * (a * b);
  }

  /** A message starts with source, destination, channel and number of elements, in 8, 8, 4 and 2 bytes. */
  lemma HeaderLayout(m: Msg)
    requires Sendable(m)
    ensures var s := Write(m);
      && |s| >= 22
      && s[..8] == LowBytes(Unsigned(m.src, 8), 8) && s[8..16] == LowBytes(Unsigned(m.dst, 8), 8)
      && s[16..20] == LowBytes(Unsigned(m.channel, 4), 4) && s[20..22] == LowBytes(|m.elts| % 65536, 2)
      && s[22..] == WriteElts(m.elts)
  {
    FourParts(IntBytes(m.src, LONG), IntBytes(m.dst, LONG), IntBytes(m.channel, INT), LowBytes(CountField(m), SHORT));
    var h := Header(m);
    SliceOfPrefix(h, WriteElts(m.elts), 0, 8);
    SliceOfPrefix(h, WriteElts(m.elts), 8, 16);
    SliceOfPrefix(h, WriteElts(m.elts), 16, 20);
    SliceOfPrefix(h, WriteElts(m.elts), 20, 22);
  }

  /** Element k follows the elements before it: its size in 8 bytes, then its bytes, none if it is null. */
  lemma {:induction false} EltLayout(es: seq<Elt>, k: nat)
    requires k < |es|
    ensures var bytes := if es[k].data.Some? && es[k].size > 0 then es[k].data.value else [];
      var size := if es[k].data.Some? then es[k].size else 0;
      WriteElts(es) == WriteElts(es[..k]) + (LowBytes(size, 8) + bytes) + WriteElts(es[k + 1..])
  {
    if k > 0 {
      EltLayout(es[1..], k - 1);
      assert es[..k][1..] == es[1..][..k - 1];
      assert es[1..][k..] == es[k + 1..];
    }
  }

  // ----- reading -----

  /** A value read from a stream with what is left of it, or the end of the stream. */
  datatype Got<T> = Got(value: T, rest: seq<Byte>) | Closed

  function ReadElt(s: seq<Byte>): (r: Got<Elt>)
    ensures r.Got? ==> |r.rest| < |s|
  {
    if |s| < LONG then Closed else
    var size := Value(s[..LONG]);
    if size == 0 then Got(Elt(None, 0), s[LONG..])
    else if |s| < LONG + size then Closed
    else Got(Elt(Some(s[LONG..LONG + size]), size), s[LONG + size..])
  }

  function ReadElts(s: seq<Byte>, n: nat): (r: Got<seq<Elt>>)
    ensures r.Got? ==> |r.rest| <= |s| && |r.value| == n
  {
    if n == 0 then Got([], s) else
    var e := ReadElt(s);
    if e.Closed? then Closed else
    var es := ReadElts(e.rest, n - 1);
    if es.Closed? then Closed else Got([e.value] + es.value, es.rest)
  }

  function Read(s: seq<Byte>): (r: Got<Msg>)
    ensures r.Got? ==> |r.rest| < |s|
  {
    if |s| < HEADER then Closed else
    var es := ReadElts(s[HEADER..], Value(s[20..22]));
    if es.Closed? then Closed
    else
      var src, dst := Signed(Value(s[..8]), LONG), Signed(Value(s[8..16]), LONG);
      Got(Msg(src, dst, Signed(Value(s[16..20]), INT), es.value), es.rest)
  }

  /** All the messages of a stream, up to its end. */
  function ReadAll(s: seq<Byte>): seq<Msg>
    decreases |s|
  {
    var m := Read(s);
    if m.Closed? then [] else [m.value] + ReadAll(m.rest)
  }

  // ----- round trips -----

  /** A null or empty element arrives as an empty one. */
  function Arrived(e: Elt): Elt {
    if e.size == 0 || e.data.None? then Elt(None, 0) else e
  }

  function ArrivedAll(es: seq<Elt>): (r: seq<Elt>)
    ensures |r| == |es|
  {
    seq(|es|, i requires 0 <= i < |es| => Arrived(es[i]))
  }

  lemma EltRoundTrip(e: Elt, rest: seq<Byte>)
    requires SendableElt(e)
    ensures ReadElt(WriteElt(e) + rest) == Got(Arrived(e), rest)
  {
    var s := WriteElt(e) + rest;
    Powers();
    if e.size == 0 || e.data.None? {
      BytesRoundTrip(0, LONG);
      assert s[..LONG] == LowBytes(0, LONG) && s[LONG..] == rest;
    } else {
      BytesRoundTrip(e.size, LONG);
      assert s[..LONG] == LowBytes(e.size, LONG);
      assert s[LONG..LONG + e.size] == e.data.value && s[LONG + e.size..] == rest;
    }
  }

  lemma WriteEltsFirst(es: seq<Elt>, rest: seq<Byte>)
    requires |es| > 0
    ensures WriteElts(es) + rest == WriteElt(es[0]) + (WriteElts(es[1..]) + rest)
  {
  }

  lemma ArrivedFirst(es: seq<Elt>, n: nat)
    requires 0 < n <= |es|
    ensures ArrivedAll(es[..n]) == [Arrived(es[0])] + ArrivedAll(es[1..][..n - 1])
    ensures es[1..][n - 1..] == es[n..]
  {
  }

  /** Reading n elements from all that were written yields the first n and leaves the others unread. */
  lemma {:induction false} EltsRoundTrip(es: seq<Elt>, n: nat, rest: seq<Byte>)
    requires n <= |es| && forall i :: 0 <= i < |es| ==> SendableElt(es[i])
    ensures ReadElts(WriteElts(es) + rest, n) == Got(ArrivedAll(es[..n]), WriteElts(es[n..]) + rest)
  {
    if n == 0 {
      assert es[0..] == es;
      assert ArrivedAll(es[..0]) == [];
    } else {
      WriteEltsFirst(es, rest);
      EltRoundTrip(es[0], WriteElts(es[1..]) + rest);
      EltsRoundTrip(es[1..], n - 1, rest);
      ArrivedFirst(es, n);
    }
  }

  lemma HeaderRoundTrip(m: Msg)
    requires Sendable(m)
    ensures var s := Header(m);
      && Signed(Value(s[..8]), LONG) == m.src && Signed(Value(s[8..16]), LONG) == m.dst
      && Signed(Value(s[16..20]), INT) == m.channel && Value(s[20..22]) == CountField(m)
  {
    var s := Header(m);
    Powers();
    IntRoundTrip(m.src, LONG);
    IntRoundTrip(m.dst, LONG);
    IntRoundTrip(m.channel, INT);
    BytesRoundTrip(CountField(m), SHORT);
    FourParts(IntBytes(m.src, LONG), IntBytes(m.dst, LONG), IntBytes(m.channel, INT), LowBytes(CountField(m), SHORT));
  }

  lemma FourParts(a: seq<Byte>, b: seq<Byte>, c: seq<Byte>, d: seq<Byte>)
    requires |a| == 8 && |b| == 8 && |c| == 4 && |d| == 2
    ensures var s := a + b + c + d; |s| == 22 && s[..8] == a && s[8..16] == b && s[16..20] == c && s[20..22] == d
  {
  }

  lemma SliceOfPrefix(a: seq<Byte>, b: seq<Byte>, i: nat, j: nat)
    requires i <= j <= |a|
    ensures (a + b)[i..j] == a[i..j]
  {
  }

  /** What a reader makes of a written message: as many elements as the count field says; the rest stays unread. */
  lemma ReadWritten(m: Msg, rest: seq<Byte>)
    requires Sendable(m)
    ensures var n := CountField(m);
      Read(Write(m) + rest) == Got(Msg(m.src, m.dst, m.channel, ArrivedAll(m.elts[..n])), WriteElts(m.elts[n..]) + rest)
  {
    var h, body := Header(m), WriteElts(m.elts) + rest;
    assert Write(m) + rest == h + body;
    HeaderRoundTrip(m);
    SliceOfPrefix(h, body, 0, 8);
    SliceOfPrefix(h, body, 8, 16);
    SliceOfPrefix(h, body, 16, 20);
    SliceOfPrefix(h, body, 20, 22);
    assert (h + body)[HEADER..] == body;
    EltsRoundTrip(m.elts, CountField(m), rest);
  }

  function ArrivedMsg(m: Msg): Msg {
    m.(elts := ArrivedAll(m.elts))
  }

  /** A message is read back, with nothing left over, if and only if it has fewer than 65536 elements. */
  lemma MessageRoundTrip(m: Msg, rest: seq<Byte>)
    requires Sendable(m)
    ensures Read(Write(m) + rest) == Got(ArrivedMsg(m), rest) <==> |m.elts| < COUNTS
  {
    ReadWritten(m, rest);
    if |m.elts| < COUNTS {
      assert m.elts[..|m.elts|] == m.elts && m.elts[|m.elts|..] == [];
      assert [] + rest == rest;
    }
  }

  function ArrivedMsgs(ms: seq<Msg>): (r: seq<Msg>)
    ensures |r| == |ms|
  {
    seq(|ms|, i requires 0 <= i < |ms| => ArrivedMsg(ms[i]))
  }

  /** Reading a concatenation of written messages yields the same sequence of messages. */
  lemma {:induction false} StreamRoundTrip(ms: seq<Msg>)
    requires forall i :: 0 <= i < |ms| ==> Sendable(ms[i]) && |ms[i].elts| < COUNTS
    ensures ReadAll(WriteAll(ms)) == ArrivedMsgs(ms)
  {
    if |ms| > 0 {
      MessageRoundTrip(ms[0], WriteAll(ms[1..]));
      ReadAllFirst(WriteAll(ms), ArrivedMsg(ms[0]), WriteAll(ms[1..]));
      StreamRoundTrip(ms[1..]);
      assert ArrivedMsgs(ms) == [ArrivedMsg(ms[0])] + ArrivedMsgs(ms[1..]);
    }
  }

  lemma {:induction false} ReadAllFirst(s: seq<Byte>, m: Msg, rest: seq<Byte>)
    requires Read(s) == Got(m, rest)
    ensures ReadAll(s) == [m] + ReadAll(rest)
  {
  }

  // ----- a stream that ends early -----

  /** Part of an element is no element. */
  lemma CutElt(e: Elt, n: nat)
    requires SendableElt(e) && n < |WriteElt(e)|
    ensures ReadElt(WriteElt(e)[..n]) == Closed
  {
    var s := WriteElt(e);
    if n >= LONG {
      BytesRoundTrip(e.size, LONG);
      assert s[..n][..LONG] == s[..LONG];
      if e.size > 0 && e.data.Some? { assert s[..LONG] == LowBytes(e.size, LONG); }
    }
  }

  lemma {:induction false} CutElts(es: seq<Elt>, n: nat)
    requires (forall i :: 0 <= i < |es| ==> SendableElt(es[i])) && n < |WriteElts(es)|
    ensures ReadElts(WriteElts(es)[..n], |es|) == Closed
  {
    var first, rest := WriteElt(es[0]), WriteElts(es[1..]);
    if n < |first| {
      CutElt(es[0], n);
      assert WriteElts(es)[..n] == first[..n];
    } else {
      EltRoundTrip(es[0], rest[..n - |first|]);
      CutElts(es[1..], n - |first|);
      assert WriteElts(es)[..n] == first + rest[..n - |first|];
    }
  }

  /** Part of a message is no message. */
  lemma CutMessage(m: Msg, n: nat)
    requires Sendable(m) && |m.elts| < COUNTS && n < |Write(m)|
    ensures Read(Write(m)[..n]) == Closed
  {
    if n >= HEADER {
      var s := Write(m)[..n];
      HeaderRoundTrip(m);
      SliceOfPrefix(Header(m), WriteElts(m.elts)[..n - HEADER], 20, 22);
      assert s == Header(m) + WriteElts(m.elts)[..n - HEADER];
      assert s[HEADER..] == WriteElts(m.elts)[..n - HEADER];
      CutElts(m.elts, n - HEADER);
    }
  }

  lemma {:induction false} WriteAllFirst(ms: seq<Msg>, tail: seq<Byte>)
    requires |ms| > 0 && forall i :: 0 <= i < |ms| ==> Sendable(ms[i])
    ensures WriteAll(ms) + tail == Write(ms[0]) + (WriteAll(ms[1..]) + tail)
  {
  }

  /** A stream that breaks off inside a message yields exactly the messages before it. */
  lemma {:induction false} CutStream(ms: seq<Msg>, m: Msg, n: nat)
    requires forall i :: 0 <= i < |ms| ==> Sendable(ms[i]) && |ms[i].elts| < COUNTS
    requires Sendable(m) && |m.elts| < COUNTS && n < |Write(m)|
    ensures ReadAll(WriteAll(ms) + Write(m)[..n]) == ArrivedMsgs(ms)
  {
    var tail := Write(m)[..n];
    if |ms| == 0 {
      CutMessage(m, n);
      assert WriteAll(ms) + tail == tail;
    } else {
      var rest := WriteAll(ms[1..]) + tail;
      WriteAllFirst(ms, tail);
      MessageRoundTrip(ms[0], rest);
      ReadAllFirst(WriteAll(ms) + tail, ArrivedMsg(ms[0]), rest);
      CutStream(ms[1..], m, n);
      assert ArrivedMsgs(ms) == [ArrivedMsg(ms[0])] + ArrivedMsgs(ms[1..]);
    }
  }

  // ----- the socket -----

  /** The reading end of a connection: the bytes the peer sends before it closes. */
  class Socket {
    var stream: seq<Byte>

    constructor (stream: seq<Byte>)
      ensures this.stream == stream
    {
      this.stream := stream;
    }

    /** recv: any non-empty chunk of at most max bytes, or nothing at the end of the stream. */
    method Recv(max: nat) returns (chunk: seq<Byte>)
      requires max > 0
      modifies this
      ensures chunk + stream == old(stream) && |chunk| <= max
      ensures chunk == [] <==> old(stream) == []
    {
      if |stream| == 0 { return []; }
      var n: nat :| 1 <= n <= max && n <= |stream|;
      chunk := stream[..n];
      stream := stream[n..];
    }

    /** read_exactly: None stands for the SocketClosedException. */
    method ReadExactly(size: nat) returns (r: Option<seq<Byte>>)
      modifies this
      ensures size <= |old(stream)| ==> r == Some(old(stream)[..size]) && stream == old(stream)[size..]
      ensures size > |old(stream)| ==> r == None && stream == []
    {
      var buf: seq<Byte> := [];
      while |buf| < size
        invariant |buf| <= size && buf + stream == old(stream)
        decreases size - |buf|
      {
        var chunk := Recv(size - |buf|);
        if chunk == [] { return None; }
        buf := buf + chunk;
      }
      r := Some(buf);
    }

    method ReadEltFrom() returns (r: Option<Elt>)
      modifies this
      ensures var e := ReadElt(old(stream));
        if e.Got? then r == Some(e.value) && stream == e.rest else r == None
    {
      ghost var s := stream;
      var head := ReadExactly(LONG);
      if head.None? { return None; }
      var size := Value(head.value);
      if size == 0 { return Some(Elt(None, 0)); }
      var data := ReadExactly(size);
      if data.None? { return None; }
      assert s[LONG..][..size] == s[LONG..LONG + size] && s[LONG..][size..] == s[LONG + size..];
      r := Some(Elt(Some(data.value), size));
    }

    /** The loop of Message::read over n elements. */
    method ReadEltsFrom(n: nat) returns (r: Option<seq<Elt>>)
      modifies this
      ensures var es := ReadElts(old(stream), n);
        if es.Got? then r == Some(es.value) && stream == es.rest else r == None
    {
      var elts: seq<Elt> := [];
      assert forall es: seq<Elt> :: [] + es == es;
      for i := 0 to n
        invariant |elts| == i
        invariant var all, left := ReadElts(old(stream), n), ReadElts(stream, n - i);
          if left.Got? then all == Got(elts + left.value, left.rest) else all == Closed
      {
        ghost var left := ReadElts(stream, n - i);
        var e := ReadEltFrom();
        if e.None? { return None; }
        if left.Got? { assert elts + left.value == (elts + [e.value]) + left.value[1..]; }
        elts := elts + [e.value];
      }
      ghost var end := ReadElts(stream, 0);
      assert end == Got([], stream) && elts + [] == elts;
      r := Some(elts);
    }

    /** Message::read */
    method ReadMessage() returns (r: Option<Msg>)
      modifies this
      ensures var m := Read(old(stream));
        if m.Got? then r == Some(m.value) && stream == m.rest else r == None
    {
      ghost var s := stream;
      var src := ReadExactly(LONG);
      if src.None? { return None; }
      var dst := ReadExactly(LONG);
      if dst.None? { return None; }
      assert s[8..][..8] == s[8..16] && s[8..][8..] == s[16..];
      var channel := ReadExactly(INT);
      if channel.None? { return None; }
      assert s[16..][..4] == s[16..20] && s[16..][4..] == s[20..];
      var count := ReadExactly(SHORT);
      if count.None? { return None; }
      assert s[20..][..2] == s[20..22] && s[20..][2..] == s[HEADER..];
      var elts := ReadEltsFrom(Value(count.value));
      if elts.None? { return None; }
      var from, to := Signed(Value(src.value), LONG), Signed(Value(dst.value), LONG);
      r := Some(Msg(from, to, Signed(Value(channel.value), INT), elts.value));
    }

    /** The loop of a connection thread: read until the peer closes. */
    method ReadUntilClosed() returns (ms: seq<Msg>)
      modifies this
      ensures ms == ReadAll(old(stream))
    {
      ms := [];
      while true
        invariant ms + ReadAll(stream) == ReadAll(old(stream))
        decreases |stream|
      {
        var m := ReadMessage();
        if m.None? { return; }
        ms := ms + [m.value];
      }
    }
  }

  /** End to end, for every chunking of the stream: what is read is what was written. */
  method Transmit(ms: seq<Msg>) returns (received: seq<Msg>)
    requires forall i :: 0 <= i < |ms| ==> Sendable(ms[i]) && |ms[i].elts| < COUNTS
    ensures received == ArrivedMsgs(ms)
  {
    var socket := new Socket(WriteAll(ms));
    received := socket.ReadUntilClosed();
    StreamRoundTrip(ms);
  }
}
