/**
 In-place buffer arithmetic: the element loops behind the matrix operators.
 Both operands may be the same buffer.
 */
module Buffers {
  import opened Vectors

  /** a += b */
  method AddInto(a: array<real>, b: array<real>)
    requires a.Length == b.Length
    modifies a
    ensures a[..] == Add(old(a[..]), old(b[..]))
  {
    for i := 0 to a.Length
      invariant forall j :: 0 <= j < i ==> a[j] == old(a[j]) + old(b[j])
      invariant forall j :: i <= j < a.Length ==> a[j] == old(a[j])
      invariant b != a ==> b[..] == old(b[..])
    {
      a[i] := a[i] + b[i];
    }
  }

  /** a -= b */
  method SubFrom(a: array<real>, b: array<real>)
    requires a.Length == b.Length
    modifies a
    ensures a[..] == Sub(old(a[..]), old(b[..]))
  {
    for i := 0 to a.Length
      invariant forall j :: 0 <= j < i ==> a[j] == old(a[j]) - old(b[j])
      invariant forall j :: i <= j < a.Length ==> a[j] == old(a[j])
      invariant b != a ==> b[..] == old(b[..])
    {
      a[i] := a[i] - b[i];
    }
  }

  /** a *= f */
  method ScaleBy(a: array<real>, f: real)
    modifies a
    ensures a[..] == Scale(old(a[..]), f)
  {
    for i := 0 to a.Length
      invariant forall j :: 0 <= j < i ==> a[j] == old(a[j]) * f
      invariant forall j :: i <= j < a.Length ==> a[j] == old(a[j])
    {
      a[i] := a[i] * f;
    }
    assert forall j :: 0 <= j < a.Length ==> a[..][j] == Scale(old(a[..]), f)[j];
  }

  /** a = 0 */
  method Clear(a: array<real>)
    modifies a
    ensures a[..] == Zero(a.Length)
  {
    for i := 0 to a.Length
      invariant forall j :: 0 <= j < i ==> a[j] == 0.0
    {
      a[i] := 0.0;
    }
  }

  /** a = b, for buffers of the same size */
  method CopyInto(a: array<real>, b: array<real>)
    requires a.Length == b.Length
    modifies a
    ensures a[..] == old(b[..])
  {
    for i := 0 to a.Length
      invariant forall j :: 0 <= j < i ==> a[j] == old(b[j])
      invariant b[..] == old(b[..])
    {
      a[i] := b[i];
    }
  }

  // ----- the same operators on a buffer of rows -----

  method AddRows(a: array<Vec>, b: array<Vec>, D: nat)
    requires a.Length == b.Length
    requires Shape(a[..], a.Length, D) && Shape(b[..], a.Length, D)
    modifies a
    ensures a[..] == AddM(old(a[..]), old(b[..]), D)
  {
    for i := 0 to a.Length
      invariant forall j :: 0 <= j < i ==> a[j] == Add(old(a[..])[j], old(b[..])[j])
      invariant forall j :: i <= j < a.Length ==> a[j] == old(a[..])[j]
      invariant b != a ==> b[..] == old(b[..])
    {
      a[i] := Add(a[i], b[i]);
    }
  }

  method SubRows(a: array<Vec>, b: array<Vec>, D: nat)
    requires a.Length == b.Length
    requires Shape(a[..], a.Length, D) && Shape(b[..], a.Length, D)
    modifies a
    ensures a[..] == SubM(old(a[..]), old(b[..]), D)
  {
    for i := 0 to a.Length
      invariant forall j :: 0 <= j < i ==> a[j] == Sub(old(a[..])[j], old(b[..])[j])
      invariant forall j :: i <= j < a.Length ==> a[j] == old(a[..])[j]
      invariant b != a ==> b[..] == old(b[..])
    {
      a[i] := Sub(a[i], b[i]);
    }
  }

  method ScaleRows(a: array<Vec>, f: real)
    modifies a
    ensures a[..] == ScaleM(old(a[..]), f)
  {
    for i := 0 to a.Length
      invariant forall j :: 0 <= j < i ==> a[j] == Scale(old(a[..])[j], f)
      invariant forall j :: i <= j < a.Length ==> a[j] == old(a[..])[j]
    {
      a[i] := Scale(a[i], f);
    }
  }

  method ClearRows(a: array<Vec>, D: nat)
    modifies a
    ensures a[..] == ZeroM(a.Length, D)
  {
    for i := 0 to a.Length
      invariant forall j :: 0 <= j < i ==> a[j] == Zero(D)
    {
      a[i] := Zero(D);
    }
  }

  /** A fresh buffer filled with one value. */
  method NewFloats(n: nat, x: real) returns (a: array<real>)
    ensures fresh(a) && a.Length == n && forall i :: 0 <= i < n ==> a[i] == x
  {
    a := new real[n](_ => x);
  }

  /** A fresh matrix of zeros. */
  method NewRows(n: nat, D: nat) returns (a: array<Vec>)
    ensures fresh(a) && a.Length == n && forall i :: 0 <= i < n ==> a[i] == Zero(D)
  {
    a := new Vec[n](_ => Zero(D));
  }
}
