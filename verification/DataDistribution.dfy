/**
 The data provider: it cuts its matrix into as many parts as it has neighbours and retries every turn the
 parts whose sending failed, until all have been taken.
 */
module DataDistribution {
  import opened Vectors

  /** The rows of part i out of n; None is the null matrix. */
  function Part(X: Mat, i: nat, n: nat): Option<Mat>
    requires i < n
  {
    var h := |X| / n;
    if h == 0 then (if i >= |X| then None else Some([X[i]]))
    else
      PartWithin(|X|, h, i, n);
      var start := i * h;
      Some(X[start..if i == n - 1 then |X| else start + h])
  }

  lemma PartWithin(rows: nat, h: nat, i: nat, n: nat)
    requires i < n && h == rows / n
    ensures i * h <= (i + 1) * h == i * h + h <= rows
  {
    assert n * h <= rows;
    MulMono(i + 1, n, h);
  }

  /** One message taken by the transport. */
  datatype Delivery = Delivery(index: nat, part: Mat)

  /** The provider's state: acks is None before the first turn; log is what has been taken, in order. */
  datatype Provider = Provider(acks: Option<seq<bool>>, nback: nat, finished: bool, log: seq<Delivery>)

  function Init(): Provider {
    Provider(None, 0, false, [])
  }

  /** One pass of the loop over neighbour i; ok tells whether the transport takes the message. */
  function Offer(p: Provider, X: Mat, n: nat, i: nat, ok: bool): (r: Provider)
    requires i < n && p.acks.Some? && |p.acks.value| == n
    ensures r.acks.Some? && |r.acks.value| == n
  {
    if p.acks.value[i] then p else
    var part := Part(X, i, n);
    if part.None? then p.(acks := Some(p.acks.value[i := true]), nback := p.nback + 1)
    else if ok
    then p.(acks := Some(p.acks.value[i := true]), nback := p.nback + 1, log := p.log + [Delivery(i, part.value)])
    else p
  }

  function Offers(p: Provider, X: Mat, n: nat, oks: seq<bool>, i: nat): (r: Provider)
    requires i <= n == |oks| && p.acks.Some? && |p.acks.value| == n
    ensures r.acks.Some? && |r.acks.value| == n
  {
    if i == 0 then p else Offer(Offers(p, X, n, oks, i - 1), X, n, i - 1, oks[i - 1])
  }

  function Unacked(n: nat): (r: seq<bool>)
    ensures |r| == n
  {
    seq(n, _ => false)
  }

  /** One turn with n neighbours, n > 0. */
  function Turn(p: Provider, X: Mat, n: nat, oks: seq<bool>): Provider
    requires |oks| == n && (p.acks.Some? ==> |p.acks.value| == n)
  {
    if n == 0 then p
    else if p.nback >= n then p.(finished := true)
    else Offers(Ready(p, n), X, n, oks, n)
  }

  /** The scheduler stops calling a finished node. */
  function Turns(X: Mat, n: nat, rounds: seq<seq<bool>>): (p: Provider)
    requires forall t :: 0 <= t < |rounds| ==> |rounds[t]| == n
    ensures p.acks.Some? ==> |p.acks.value| == n
  {
    if |rounds| == 0 then Init() else
    var before := Turns(X, n, rounds[..|rounds| - 1]);
    if before.finished then before else Turn(before, X, n, rounds[|rounds| - 1])
  }

  // ----- the invariant -----

  function Trues(s: seq<bool>): nat {
    if |s| == 0 then 0 else Trues(s[..|s| - 1]) + (if s[|s| - 1] then 1 else 0)
  }

  lemma {:induction false} TruesUpdate(s: seq<bool>, i: nat)
    requires i < |s| && !s[i]
    ensures Trues(s[i := true]) == Trues(s) + 1
  {
    var n := |s| - 1;
    if i < n {
      TruesUpdate(s[..n], i);
      assert s[i := true][..n] == s[..n][i := true];
    } else {
      assert s[i := true][..n] == s[..n];
    }
  }

  lemma {:induction false} TruesBound(s: seq<bool>)
    ensures Trues(s) <= |s|
    ensures Trues(s) == |s| ==> forall i :: 0 <= i < |s| ==> s[i]
    ensures (forall i :: 0 <= i < |s| ==> !s[i]) ==> Trues(s) == 0
  {
    if |s| > 0 { TruesBound(s[..|s| - 1]); }
  }

  ghost predicate Logged(p: Provider, i: nat) {
    exists k :: 0 <= k < |p.log| && p.log[k].index == i
  }

  /** Acked non-empty parts, and only they, have been delivered, each once and with its own rows. */
  ghost predicate Accounted(p: Provider, X: Mat, n: nat) {
    && p.acks.Some? && |p.acks.value| == n
    && p.nback == Trues(p.acks.value)
    && (forall k :: 0 <= k < |p.log| ==> p.log[k].index < n && Part(X, p.log[k].index, n) == Some(p.log[k].part))
    && (forall k, l :: 0 <= k < l < |p.log| ==> p.log[k].index != p.log[l].index)
    && (forall i :: 0 <= i < n ==> (Logged(p, i) <==> p.acks.value[i] && Part(X, i, n).Some?))
  }

  lemma LoggedPush(p: Provider, r: Provider, d: Delivery, j: nat)
    requires r.log == p.log + [d]
    ensures Logged(r, j) <==> Logged(p, j) || j == d.index
  {
    if Logged(p, j) {
      var k :| 0 <= k < |p.log| && p.log[k].index == j;
      assert r.log[k].index == j;
    }
    assert r.log[|p.log|] == d;
  }

  lemma OfferAccounted(p: Provider, X: Mat, n: nat, i: nat, ok: bool)
    requires i < n && Accounted(p, X, n)
    ensures Accounted(Offer(p, X, n, i, ok), X, n)
  {
    if !p.acks.value[i] {
      var r := Offer(p, X, n, i, ok);
      var part := Part(X, i, n);
      TruesUpdate(p.acks.value, i);
      assert !Logged(p, i);
      if part.Some? && ok {
        forall j | 0 <= j < n ensures Logged(r, j) <==> Logged(p, j) || j == i {
          LoggedPush(p, r, Delivery(i, part.value), j);
        }
      } else {
        assert forall j :: 0 <= j < n ==> (Logged(r, j) <==> Logged(p, j));
      }
    }
  }

  lemma OffersNext(p: Provider, X: Mat, n: nat, oks: seq<bool>, i: nat)
    requires i < n == |oks| && p.acks.Some? && |p.acks.value| == n
    ensures Offers(p, X, n, oks, i + 1) == Offer(Offers(p, X, n, oks, i), X, n, i, oks[i])
  {
  }

  lemma {:induction false} OffersAccounted(p: Provider, X: Mat, n: nat, oks: seq<bool>, i: nat)
    requires i <= n == |oks| && Accounted(p, X, n)
    ensures Accounted(Offers(p, X, n, oks, i), X, n)
  {
    if i > 0 {
      OffersAccounted(p, X, n, oks, i - 1);
      OffersNext(p, X, n, oks, i - 1);
      OfferAccounted(Offers(p, X, n, oks, i - 1), X, n, i - 1, oks[i - 1]);
    }
  }

  /** The state from which a turn makes its offers. */
  function Ready(p: Provider, n: nat): (r: Provider)
    requires p.acks.Some? ==> |p.acks.value| == n
    ensures r.acks.Some? && |r.acks.value| == n
  {
    if p.acks.None? then p.(acks := Some(Unacked(n)), nback := 0) else p
  }

  lemma FirstReady(X: Mat, n: nat)
    ensures Accounted(Ready(Init(), n), X, n)
  {
    TruesBound(Unacked(n));
  }

  lemma TurnAccounted(p: Provider, X: Mat, n: nat, oks: seq<bool>)
    requires n > 0 && |oks| == n && !p.finished && (p == Init() || Accounted(p, X, n))
    ensures var r := Turn(p, X, n, oks); Accounted(r, X, n) && (r.finished ==> r.nback == n)
  {
    FirstReady(X, n);
    TruesBound(Ready(p, n).acks.value);
    OffersAccounted(Ready(p, n), X, n, oks, n);
    OffersUnfinished(Ready(p, n), X, n, oks, n);
  }

  /**
   For any pattern of failures: before the first turn nothing has been sent; from then on nback is the
   number of acks and every part has been delivered at most once; a finished node has had all acks.
   */
  lemma {:induction false} EveryRunAccounted(X: Mat, n: nat, rounds: seq<seq<bool>>)
    requires n > 0 && forall t :: 0 <= t < |rounds| ==> |rounds[t]| == n
    ensures var p := Turns(X, n, rounds);
      && (if |rounds| == 0 then p == Init() else Accounted(p, X, n))
      && (p.finished ==> p.nback == n)
  {
    if |rounds| > 0 {
      EveryRunAccounted(X, n, rounds[..|rounds| - 1]);
      var p := Turns(X, n, rounds[..|rounds| - 1]);
      if !p.finished { TurnAccounted(p, X, n, rounds[|rounds| - 1]); }
    }
  }

  lemma {:induction false} OffersUnfinished(p: Provider, X: Mat, n: nat, oks: seq<bool>, i: nat)
    requires i <= n == |oks| && p.acks.Some? && |p.acks.value| == n
    ensures Offers(p, X, n, oks, i).finished == p.finished
  {
    if i > 0 { OffersUnfinished(p, X, n, oks, i - 1); }
  }

  // ----- when the provider finishes -----

  /** Part i is empty or the transport has taken it in some turn. */
  predicate Taken(X: Mat, n: nat, rounds: seq<seq<bool>>, i: nat)
    requires i < n && forall t :: 0 <= t < |rounds| ==> |rounds[t]| == n
  {
    |rounds| > 0
    && (Part(X, i, n).None? || rounds[|rounds| - 1][i] || Taken(X, n, rounds[..|rounds| - 1], i))
  }

  lemma {:induction false} OffersAck(p: Provider, X: Mat, n: nat, oks: seq<bool>, i: nat)
    requires i <= n == |oks| && p.acks.Some? && |p.acks.value| == n
    ensures forall j :: 0 <= j < n ==>
      (Offers(p, X, n, oks, i).acks.value[j] <==> p.acks.value[j] || (j < i && (Part(X, j, n).None? || oks[j])))
  {
    if i > 0 { OffersAck(p, X, n, oks, i - 1); }
  }

  /** The acks are exactly the parts that are empty or have been taken. */
  lemma {:induction false} AckedIsTaken(X: Mat, n: nat, rounds: seq<seq<bool>>)
    requires n > 0 && |rounds| > 0 && forall t :: 0 <= t < |rounds| ==> |rounds[t]| == n
    ensures var p := Turns(X, n, rounds);
      p.acks.Some? && forall i :: 0 <= i < n ==> (p.acks.value[i] <==> Taken(X, n, rounds, i))
  {
    var m := |rounds| - 1;
    var p := Turns(X, n, rounds[..m]);
    EveryRunAccounted(X, n, rounds[..m]);
    if m > 0 {
      AckedIsTaken(X, n, rounds[..m]);
      TruesBound(p.acks.value);
    }
    if !p.finished && p.nback < n { OffersAck(Ready(p, n), X, n, rounds[m], n); }
  }

  lemma {:induction false} AllTrue(s: seq<bool>)
    ensures Trues(s) >= |s| <==> forall i :: 0 <= i < |s| ==> s[i]
  {
    TruesBound(s);
    if |s| > 0 { AllTrue(s[..|s| - 1]); }
  }

  /** A turn finds the provider finished, or finishes it, exactly when earlier turns have got every part taken. */
  lemma FinishesIff(X: Mat, n: nat, rounds: seq<seq<bool>>, last: seq<bool>)
    requires n > 0 && |last| == n && forall t :: 0 <= t < |rounds| ==> |rounds[t]| == n
    ensures Turns(X, n, rounds + [last]).finished <==> forall i :: 0 <= i < n ==> Taken(X, n, rounds, i)
  {
    TurnsNext(X, n, rounds, last);
    EveryRunAccounted(X, n, rounds);
    var p := Turns(X, n, rounds);
    if |rounds| == 0 {
      TurnFinishes(Init(), X, n, last);
      assert !Taken(X, n, rounds, 0);
    } else {
      if !p.finished { TurnFinishes(p, X, n, last); }
      AllAcked(p, X, n);
      AckedIsTaken(X, n, rounds);
      if p.nback >= n {
        forall i | 0 <= i < n ensures Taken(X, n, rounds, i) {
          assert p.acks.value[i];
        }
      } else {
        var i :| 0 <= i < n && !p.acks.value[i];
        assert !Taken(X, n, rounds, i);
      }
    }
  }

  lemma AllAcked(p: Provider, X: Mat, n: nat)
    requires Accounted(p, X, n)
    ensures p.nback >= n <==> forall i :: 0 <= i < n ==> p.acks.value[i]
  {
    AllTrue(p.acks.value);
  }

  lemma TurnsNext(X: Mat, n: nat, rounds: seq<seq<bool>>, last: seq<bool>)
    requires |last| == n && forall t :: 0 <= t < |rounds| ==> |rounds[t]| == n
    ensures var p := Turns(X, n, rounds);
      Turns(X, n, rounds + [last]) == if p.finished then p else Turn(p, X, n, last)
  {
    var all := rounds + [last];
    assert all[..|all| - 1] == rounds && all[|all| - 1] == last;
  }

  lemma TurnFinishes(p: Provider, X: Mat, n: nat, oks: seq<bool>)
    requires n > 0 && |oks| == n && (p.acks.Some? ==> |p.acks.value| == n) && !p.finished
    ensures Turn(p, X, n, oks).finished <==> p.nback >= n
  {
    OffersUnfinished(Ready(p, n), X, n, oks, n);
  }

  /** Progress: after any history, a turn in which the transport takes every message lets the next one finish. */
  lemma CleanTurnsFinish(X: Mat, n: nat, rounds: seq<seq<bool>>, oks: seq<bool>, more: seq<bool>)
    requires n > 0 && (forall t :: 0 <= t < |rounds| ==> |rounds[t]| == n) && |oks| == n == |more|
    requires forall i :: 0 <= i < n ==> oks[i]
    ensures Turns(X, n, rounds + [oks] + [more]).finished
  {
    var so := rounds + [oks];
    forall i | 0 <= i < n ensures Taken(X, n, so, i) {
      assert so[|so| - 1][i];
    }
    FinishesIff(X, n, so, more);
  }

  // ----- the parts together are the matrix -----

  /** The first i parts, empty ones contributing nothing. */
  function Cut(X: Mat, n: nat, i: nat): Mat
    requires i <= n
  {
    if i == 0 then [] else
    Cut(X, n, i - 1) + (var p := Part(X, i - 1, n); if p.Some? then p.value else [])
  }

  /** With at least n rows, the first i parts are the first i * h rows, and the last part takes the rest. */
  lemma {:induction false} CutMany(X: Mat, n: nat, h: nat, i: nat)
    requires 0 < i <= n && h == |X| / n && h > 0
    ensures if i == n then Cut(X, n, i) == X else i * h <= |X| && Cut(X, n, i) == X[..i * h]
  {
    PartWithin(|X|, h, i - 1, n);
    var start := (i - 1) * h;
    var end := if i == n then |X| else start + h;
    assert Part(X, i - 1, n) == Some(X[start..end]);
    if i > 1 { CutMany(X, n, h, i - 1); } else { assert start == 0; }
    assert Cut(X, n, i - 1) == X[..start];
    Glue(X, start, end);
  }

  lemma Glue(X: Mat, start: nat, end: nat)
    requires start <= end <= |X|
    ensures X[..start] + X[start..end] == X[..end]
    ensures X[..|X|] == X
  {
  }

  /** With fewer than n rows, each part is one row until they are used up. */
  lemma {:induction false} CutFew(X: Mat, n: nat, i: nat)
    requires i <= n && n > 0 && |X| / n == 0
    ensures Cut(X, n, i) == X[..if i < |X| then i else |X|]
  {
    if i > 0 { CutFew(X, n, i - 1); }
  }

  /** Cutting a matrix into n parts loses no row, repeats none and keeps their order, also when n exceeds the rows. */
  lemma PartsCover(X: Mat, n: nat)
    requires n > 0
    ensures Cut(X, n, n) == X
  {
    if |X| / n == 0 {
      CutFew(X, n, n);
      FewRows(|X|, n);
      assert X[..|X|] == X;
    } else {
      CutMany(X, n, |X| / n, n);
    }
  }

  lemma FewRows(rows: nat, n: nat)
    requires n > 0 && rows / n == 0
    ensures rows < n
  {
  }

  /** The part delivered under index i, if any. */
  ghost function DeliveredPart(log: seq<Delivery>, i: nat): Mat {
    if exists k :: 0 <= k < |log| && log[k].index == i
    then var k :| 0 <= k < |log| && log[k].index == i; log[k].part
    else []
  }

  /** The deliveries put back together in index order. */
  ghost function Assembled(log: seq<Delivery>, i: nat): Mat {
    if i == 0 then [] else Assembled(log, i - 1) + DeliveredPart(log, i - 1)
  }

  lemma {:induction false} AssembledIsCut(p: Provider, X: Mat, n: nat, i: nat)
    requires i <= n && Accounted(p, X, n) && p.nback == n
    ensures Assembled(p.log, i) == Cut(X, n, i)
  {
    if i > 0 {
      AssembledIsCut(p, X, n, i - 1);
      DeliveredIsPart(p, X, n, i - 1);
    }
  }

  lemma DeliveredIsPart(p: Provider, X: Mat, n: nat, i: nat)
    requires i < n && Accounted(p, X, n) && p.nback == n
    ensures var part := Part(X, i, n); DeliveredPart(p.log, i) == if part.Some? then part.value else []
  {
    TruesBound(p.acks.value);
    assert Logged(p, i) <==> Part(X, i, n).Some?;
  }

  /** When the provider has finished, the delivered parts in index order are exactly the rows of X. */
  lemma FinishedMeansDelivered(X: Mat, n: nat, rounds: seq<seq<bool>>)
    requires n > 0 && (forall t :: 0 <= t < |rounds| ==> |rounds[t]| == n) && Turns(X, n, rounds).finished
    ensures var log := Turns(X, n, rounds).log;
      && Assembled(log, n) == X
      && forall k, l :: 0 <= k < l < |log| ==> log[k].index != log[l].index
  {
    EveryRunAccounted(X, n, rounds);
    AssembledIsCut(Turns(X, n, rounds), X, n, n);
    PartsCover(X, n);
  }

  // ----- the parts are disjoint views of one buffer -----

  /** Part i is the rows from PartFrom up to PartTo, and the null matrix when there are none. */
  function PartFrom(rows: nat, i: nat, n: nat): nat
    requires i < n
  {
    var h := rows / n;
    if h > 0 then i * h else if i < rows then i else rows
  }

  function PartTo(rows: nat, i: nat, n: nat): nat
    requires i < n
  {
    var h := rows / n;
    if h == 0 then (if i < rows then i + 1 else rows)
    else if i == n - 1 then rows else i * h + h
  }

  lemma PartRange(rows: nat, i: nat, n: nat)
    requires i < n
    ensures PartFrom(rows, i, n) <= PartTo(rows, i, n) <= rows
    ensures rows / n > 0 ==> PartFrom(rows, i, n) < PartTo(rows, i, n)
  {
    PartWithin(rows, rows / n, i, n);
  }

  lemma PartIsRange(X: Mat, i: nat, n: nat)
    requires i < n
    ensures PartFrom(|X|, i, n) <= PartTo(|X|, i, n) <= |X|
    ensures Part(X, i, n) ==
      if PartFrom(|X|, i, n) == PartTo(|X|, i, n) then None else Some(X[PartFrom(|X|, i, n)..PartTo(|X|, i, n)])
  {
    PartRange(|X|, i, n);
    if |X| / n == 0 {
      OneRow(X, i);
    }
  }

  lemma OneRow(X: Mat, i: nat)
    ensures i < |X| ==> X[i..i + 1] == [X[i]]
  {
  }

  /**
   With at least n rows every part has |X| / n of them, and the last one takes the rest as well; with fewer,
   each row is a part of its own and the other parts are empty.
   */
  lemma {:induction false} PartSizes(X: Mat, i: nat, n: nat)
    requires i < n
    ensures var p, h := Part(X, i, n), |X| / n;
      && (h > 0 ==> p.Some? && |p.value| == if i < n - 1 then h else h + |X| % n)
      && (h == 0 ==> if i < |X| then p == Some([X[i]]) else p == None)
  {
    var h := |X| / n;
    if h > 0 {
      PartWithin(|X|, h, i, n);
      LastPart(|X|, n);
      assert Part(X, i, n) == Some(X[i * h..if i == n - 1 then |X| else i * h + h]);
    }
  }

  lemma LastPart(rows: nat, n: nat)
    requires n > 0
    ensures rows - (n - 1) * (rows / n) == rows / n + rows % n
  {
    var h := rows / n;
    assert rows == n * h + rows % n;
    assert n * h == (n - 1) * h + h;
  }

  /** Different parts share no row. */
  lemma PartsDisjoint(rows: nat, i: nat, j: nat, n: nat)
    requires i < j < n
    ensures PartTo(rows, i, n) <= PartFrom(rows, j, n)
  {
    var h := rows / n;
    PartWithin(rows, h, i, n);
    MulMono(i + 1, j, h);
  }

  /** A part depends on its own rows only. */
  lemma SameRowsSamePart(X: Mat, Y: Mat, i: nat, n: nat)
    requires i < n && |X| == |Y|
    requires forall k :: PartFrom(|X|, i, n) <= k < PartTo(|X|, i, n) && k < |X| ==> X[k] == Y[k]
    ensures Part(X, i, n) == Part(Y, i, n)
  {
    PartIsRange(X, i, n);
    PartIsRange(Y, i, n);
    var a, b := PartFrom(|X|, i, n), PartTo(|X|, i, n);
    assert X[a..b] == Y[a..b];
  }

  // ----- the node -----

  /**
   The provider's rows are one buffer.  A receiver on the same thread is handed a view into it, not a copy,
   and may overwrite its part later on; rows remembers the matrix as it was generated.
   */
  class NodeData {
    const X: array<Vec>
    ghost const rows: Mat
    var ack: array?<bool>
    var nback: nat
    var finished: bool
    var log: seq<Delivery>

    constructor (X: Mat)
      ensures rows == X && View() == Init() && fresh(this.X)
      ensures forall n :: Intact(n)
    {
      rows := X;
      this.X := new Vec[|X|](k requires 0 <= k < |X| => X[k]);
      ack, nback, finished, log := null, 0, false, [];
    }

    ghost function View(): Provider
      reads this, ack
    {
      Provider(if ack == null then None else Some(ack[..]), nback, finished, log)
    }

    predicate Acked(i: nat)
      reads this, ack
    {
      ack != null && i < ack.Length && ack[i]
    }

    /** The rows of every part still to be sent are as they were generated. */
    ghost predicate Intact(n: nat)
      reads this, ack, X
    {
      X.Length == |rows| && forall i :: 0 <= i < n && !Acked(i) ==> PartIntact(i, n)
    }

    ghost predicate PartIntact(i: nat, n: nat)
      requires i < n
      reads X
    {
      X.Length == |rows| &&
      forall k :: PartFrom(|rows|, i, n) <= k < PartTo(|rows|, i, n) && k < |rows| ==> X[k] == rows[k]
    }

    /** Matrix::part on the buffer */
    method TakePart(i: nat, n: nat) returns (p: Option<Mat>)
      requires i < n
      ensures p == Part(X[..], i, n)
    {
      var h := X.Length / n;
      if h == 0 {
        if i >= X.Length { return None; }
        return Some([X[i]]);
      }
      PartWithin(X.Length, h, i, n);
      p := Some(Slice(i * h, if i == n - 1 then X.Length else i * h + h));
    }

    /** A view into the buffer, as the values it shows now. */
    function Slice(start: nat, end: nat): (s: Mat)
      requires start <= end <= X.Length
      reads X
      ensures s == X[..][start..end]
    {
      X[start..end]
    }

    /** process, with nbOuts neighbours; oks[i] tells whether the transport would take a message to neighbour i. */
    method Process(nbOuts: nat, oks: seq<bool>)
      requires |oks| == nbOuts && (ack != null ==> ack.Length == nbOuts) && Intact(nbOuts)
      modifies this, ack
      ensures View() == Turn(old(View()), rows, nbOuts, oks) && Intact(nbOuts)
      ensures ack == old(ack) || fresh(ack)
      ensures ack != null ==> ack.Length == nbOuts
    {
      if nbOuts == 0 { return; }
      if nback >= nbOuts {
        finished := true;
        return;
      }
      if ack == null {
        ack := new bool[nbOuts](_ => false);
        nback := 0;
      }
      assert ack[..] == if old(ack) == null then Unacked(nbOuts) else old(ack[..]);
      ghost var start := View();
      var a := ack;
      for i := 0 to nbOuts
        invariant ack == a && Intact(nbOuts) && View() == Offers(start, rows, nbOuts, oks, i)
      {
        OfferOne(i, nbOuts, oks[i]);
      }
    }

    /** The body of the loop for one neighbour. */
    method OfferOne(i: nat, nbOuts: nat, ok: bool)
      requires ack != null && ack.Length == nbOuts && i < nbOuts && Intact(nbOuts)
      modifies this`nback, this`log, ack
      ensures ack == old(ack) && Intact(nbOuts) && View() == Offer(old(View()), rows, nbOuts, i, ok)
    {
      if ack[i] { return; }
      var p := TakePart(i, nbOuts);
      assert PartIntact(i, nbOuts);
      SameRowsSamePart(X[..], rows, i, nbOuts);
      if p.None? || ok {
        if p.Some? { log := log + [Delivery(i, p.value)]; }
        nback := nback + 1;
        ack[i] := true;
      }
    }

    /** The receiver of part i overwrites the rows it was handed. */
    method Overwrite(i: nat, n: nat, x: seq<Vec>)
      requires i < n && Acked(i) && Intact(n) && |x| == PartTo(|rows|, i, n) - PartFrom(|rows|, i, n)
      modifies X
      ensures Intact(n)
      ensures PartFrom(|rows|, i, n) <= PartTo(|rows|, i, n) <= X.Length
      ensures X[..] == old(X[..PartFrom(|rows|, i, n)]) + x + old(X[PartTo(|rows|, i, n)..])
    {
      PartRange(|rows|, i, n);
      var start := PartFrom(X.Length, i, n);
      for k := 0 to |x|
        invariant forall m :: 0 <= m < X.Length ==> X[m] == if start <= m < start + k then x[m - start] else old(X[m])
      {
        X[start + k] := x[k];
      }
      forall j | 0 <= j < n && !Acked(j) ensures PartIntact(j, n) {
        assert old(PartIntact(j, n));
        if j < i { PartsDisjoint(|rows|, j, i, n); } else { PartsDisjoint(|rows|, i, j, n); }
      }
    }
  }

  /** A receiver's overwriting of part part with rows. */
  datatype Write = Write(part: nat, rows: seq<Vec>)

  /**
   Whatever the receivers of parts write into them between the turns, the provider goes through the turns of
   its original matrix: what it delivers, and when it finishes, does not depend on the writes.
   */
  method ProvideShared(X: Mat, n: nat, rounds: seq<seq<bool>>, writes: seq<seq<Write>>) returns (node: NodeData)
    requires |writes| == |rounds| && forall t :: 0 <= t < |rounds| ==> |rounds[t]| == n
    ensures node.rows == X && node.View() == Turns(X, n, rounds)
  {
    node := new NodeData(X);
    assert rounds[..0] == [];
    for t := 0 to |rounds|
      invariant fresh(node) && fresh(node.X) && (node.ack != null ==> fresh(node.ack) && node.ack.Length == n)
      invariant node.rows == X && node.Intact(n) && node.View() == Turns(X, n, rounds[..t])
    {
      assert rounds[..t + 1][..t] == rounds[..t];
      if !node.finished { node.Process(n, rounds[t]); }
      ApplyWrites(node, n, writes[t]);
    }
    assert rounds[..|rounds|] == rounds;
  }

  method ApplyWrites(node: NodeData, n: nat, ws: seq<Write>)
    requires node.Intact(n)
    modifies node.X
    ensures node.Intact(n) && node.View() == old(node.View())
  {
    for k := 0 to |ws|
      invariant node.Intact(n) && node.View() == old(node.View())
    {
      var w := ws[k];
      if w.part < n && node.Acked(w.part) {
        var room := PartTo(node.X.Length, w.part, n) - PartFrom(node.X.Length, w.part, n);
        if |w.rows| == room { node.Overwrite(w.part, n, w.rows); }
      }
    }
  }
}
