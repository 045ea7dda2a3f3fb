/** Vectors of reals, finite sums, and the option type shared by every other module. */
module Vectors {

  datatype Option<+T> = None | Some(value: T)

  type Vec = seq<real>

  function Add(a: Vec, b: Vec): (r: Vec)
    requires |a| == |b|
    ensures |r| == |a|
  {
    seq(|a|, i requires 0 <= i < |a| => a[i] + b[i])
  }

  function Sub(a: Vec, b: Vec): (r: Vec)
    requires |a| == |b|
    ensures |r| == |a|
  {
    seq(|a|, i requires 0 <= i < |a| => a[i] - b[i])
  }

  function Scale(a: Vec, f: real): (r: Vec)
    ensures |r| == |a|
  {
    seq(|a|, i requires 0 <= i < |a| => a[i] * f)
  }

  function Zero(n: nat): (r: Vec)
    ensures |r| == n
  {
    seq(n, _ => 0.0)
  }

  function Square(x: real): (r: real)
    ensures r >= 0.0
  {
    x * x
  }

  lemma Distribute(c: real, x: real, y: real)
    ensures c * (x + y) == c * x + c * y
  {
  }

  lemma MulMono(a: nat, b: nat, h: nat)
    requires a <= b
    ensures a * h <= b * h
  {
  }

  lemma QuotientIs(t: nat, q: nat, p: nat, m: nat)
    requires p > 0 && t == q * p + m && m < p
    ensures t / p == q
  {
    var d, r := t / p, t % p;
    assert t == d * p + r;
    if q > d { Differ(q, d, p); }
    if d > q { Differ(d, q, p); }
  }

  lemma Differ(a: nat, b: nat, p: nat)
    requires a > b
    ensures a * p >= b * p + p
  {
    MulMono(b + 1, a, p);
    assert (b + 1) * p == b * p + p;
  }

  // ----- matrices, as sequences of rows -----

  type Mat = seq<Vec>

  ghost predicate Shape(m: Mat, K: nat, D: nat) {
    |m| == K && forall k :: 0 <= k < K ==> |m[k]| == D
  }

  function AddM(a: Mat, b: Mat, ghost D: nat): (r: Mat)
    requires Shape(a, |a|, D) && Shape(b, |a|, D)
    ensures Shape(r, |a|, D)
  {
    seq(|a|, k requires 0 <= k < |a| => Add(a[k], b[k]))
  }

  function SubM(a: Mat, b: Mat, ghost D: nat): (r: Mat)
    requires Shape(a, |a|, D) && Shape(b, |a|, D)
    ensures Shape(r, |a|, D)
  {
    seq(|a|, k requires 0 <= k < |a| => Sub(a[k], b[k]))
  }

  function ScaleM(a: Mat, f: real): (r: Mat)
    ensures |r| == |a| && forall k :: 0 <= k < |a| ==> |r[k]| == |a[k]|
  {
    seq(|a|, k requires 0 <= k < |a| => Scale(a[k], f))
  }

  function ZeroM(K: nat, D: nat): (r: Mat)
    ensures Shape(r, K, D)
  {
    seq(K, _ => Zero(D))
  }

  // ----- finite sums -----

  /** The sum of f over a sequence. */
  function Total<T>(s: seq<T>, f: T -> real): real {
    if |s| == 0 then 0.0 else Total(s[..|s| - 1], f) + f(s[|s| - 1])
  }

  function Id(): real -> real {
    (x: real) => x
  }

  /** Component j of a vector, zero outside it. */
  function At(j: nat): Vec -> real {
    (v: Vec) => if j < |v| then v[j] else 0.0
  }

  lemma TotalPush<T>(s: seq<T>, x: T, f: T -> real)
    ensures Total(s + [x], f) == Total(s, f) + f(x)
  {
    assert (s + [x])[..|s|] == s;
  }

  lemma {:induction false} TotalConcat<T>(s: seq<T>, t: seq<T>, f: T -> real)
    ensures Total(s + t, f) == Total(s, f) + Total(t, f)
  {
    if |t| == 0 {
      assert s + t == s;
    } else {
      TotalConcat(s, t[..|t| - 1], f);
      assert s + t == (s + t[..|t| - 1]) + [t[|t| - 1]];
      TotalPush(s + t[..|t| - 1], t[|t| - 1], f);
    }
  }

  lemma {:induction false} TotalUpdate<T>(s: seq<T>, i: nat, x: T, f: T -> real)
    requires i < |s|
    ensures Total(s[i := x], f) == Total(s, f) - f(s[i]) + f(x)
  {
    var n := |s| - 1;
    if i < n {
      TotalUpdate(s[..n], i, x, f);
      assert s[i := x][..n] == s[..n][i := x];
    } else {
      assert s[i := x][..n] == s[..n];
    }
  }

  /** The sequence with position i taken out. */
  function Without<T>(s: seq<T>, i: nat): seq<T>
    requires i < |s|
  {
    s[..i] + s[i + 1..]
  }

  /** The list without the first occurrence of x. */
  function Removed<T(==)>(s: seq<T>, x: T): (r: seq<T>)
    ensures x !in s ==> r == s
  {
    if |s| == 0 then [] else if s[0] == x then s[1..] else [s[0]] + Removed(s[1..], x)
  }

  lemma {:induction false} RemovedAt<T>(s: seq<T>, x: T, i: nat)
    requires i < |s| && s[i] == x && x !in s[..i]
    ensures Removed(s, x) == s[..i] + s[i + 1..]
  {
    if i > 0 {
      assert s[0] in s[..i] && s[1..][..i - 1] == s[..i][1..];
      RemovedAt(s[1..], x, i - 1);
    }
  }

  lemma {:induction false} WithoutLast<T>(s: seq<T>, i: nat)
    requires i < |s| - 1
    ensures Without(s, i) == Without(s[..|s| - 1], i) + [s[|s| - 1]]
  {
    assert s[i + 1..] == s[..|s| - 1][i + 1..] + [s[|s| - 1]];
  }

  lemma {:induction false} TotalWithout<T>(s: seq<T>, i: nat, f: T -> real)
    requires i < |s|
    ensures Total(Without(s, i), f) == Total(s, f) - f(s[i])
  {
    var n := |s| - 1;
    if i < n {
      TotalWithout(s[..n], i, f);
      WithoutLast(s, i);
      TotalPush(Without(s[..n], i), s[n], f);
    } else {
      assert Without(s, i) == s[..n];
    }
  }

  lemma {:induction false} TotalSame<T, U>(s: seq<T>, t: seq<U>, f: T -> real, g: U -> real)
    requires |s| == |t|
    requires forall i :: 0 <= i < |s| ==> f(s[i]) == g(t[i])
    ensures Total(s, f) == Total(t, g)
  {
    if |s| > 0 {
      TotalSame(s[..|s| - 1], t[..|s| - 1], f, g);
    }
  }

  lemma {:induction false} TotalMono<T, U>(s: seq<T>, t: seq<U>, f: T -> real, g: U -> real)
    requires |s| == |t|
    requires forall i :: 0 <= i < |s| ==> f(s[i]) <= g(t[i])
    ensures Total(s, f) <= Total(t, g)
  {
    if |s| > 0 {
      TotalMono(s[..|s| - 1], t[..|s| - 1], f, g);
    }
  }

  lemma {:induction false} TotalVanishes<T>(s: seq<T>, f: T -> real)
    requires forall i :: 0 <= i < |s| ==> f(s[i]) == 0.0
    ensures Total(s, f) == 0.0
  {
    if |s| > 0 {
      TotalVanishes(s[..|s| - 1], f);
    }
  }

  // ----- sums of vectors and matrices are linear -----

  lemma {:induction false} TotalAdd(a: Vec, b: Vec)
    requires |a| == |b|
    ensures Total(Add(a, b), Id()) == Total(a, Id()) + Total(b, Id())
  {
    if |a| > 0 {
      var n := |a| - 1;
      TotalAdd(a[..n], b[..n]);
      assert Add(a, b)[..n] == Add(a[..n], b[..n]);
    }
  }

  lemma {:induction false} TotalSub(a: Vec, b: Vec)
    requires |a| == |b|
    ensures Total(Sub(a, b), Id()) == Total(a, Id()) - Total(b, Id())
  {
    if |a| > 0 {
      var n := |a| - 1;
      TotalSub(a[..n], b[..n]);
      assert Sub(a, b)[..n] == Sub(a[..n], b[..n]);
    }
  }

  lemma ScalePrefix(a: Vec, f: real, n: nat)
    requires n <= |a|
    ensures Scale(a, f)[..n] == Scale(a[..n], f)
  {
    assert forall i :: 0 <= i < n ==> Scale(a, f)[..n][i] == Scale(a[..n], f)[i];
  }

  lemma {:induction false} TotalScale(a: Vec, f: real)
    ensures Total(Scale(a, f), Id()) == Total(a, Id()) * f
  {
    if |a| > 0 {
      var n := |a| - 1;
      TotalScale(a[..n], f);
      ScalePrefix(a, f, n);
    }
  }

  /** The vector of column sums. */
  function RowSum(m: Mat, D: nat): (r: Vec)
    ensures |r| == D
  {
    seq(D, d requires 0 <= d < D => Total(m, At(d)))
  }

  /** Column d of a matrix. */
  function Column(m: Mat, d: nat, ghost D: nat): (r: Vec)
    requires Shape(m, |m|, D) && d < D
    ensures |r| == |m|
  {
    seq(|m|, k requires 0 <= k < |m| => m[k][d])
  }

  lemma ColumnTotal(m: Mat, d: nat, D: nat)
    requires Shape(m, |m|, D) && d < D
    ensures Total(m, At(d)) == Total(Column(m, d, D), Id())
  {
    TotalSame(m, Column(m, d, D), At(d), Id());
  }

  lemma RowSumAdd(a: Mat, b: Mat, D: nat)
    requires Shape(a, |a|, D) && Shape(b, |a|, D)
    ensures RowSum(AddM(a, b, D), D) == Add(RowSum(a, D), RowSum(b, D))
  {
    forall d | 0 <= d < D ensures Total(AddM(a, b, D), At(d)) == Total(a, At(d)) + Total(b, At(d)) {
      ColumnTotal(a, d, D);
      ColumnTotal(b, d, D);
      ColumnTotal(AddM(a, b, D), d, D);
      TotalAdd(Column(a, d, D), Column(b, d, D));
      assert Column(AddM(a, b, D), d, D) == Add(Column(a, d, D), Column(b, d, D));
    }
  }

  lemma RowSumSub(a: Mat, b: Mat, D: nat)
    requires Shape(a, |a|, D) && Shape(b, |a|, D)
    ensures RowSum(SubM(a, b, D), D) == Sub(RowSum(a, D), RowSum(b, D))
  {
    forall d | 0 <= d < D ensures Total(SubM(a, b, D), At(d)) == Total(a, At(d)) - Total(b, At(d)) {
      ColumnTotal(a, d, D);
      ColumnTotal(b, d, D);
      ColumnTotal(SubM(a, b, D), d, D);
      TotalSub(Column(a, d, D), Column(b, d, D));
      assert Column(SubM(a, b, D), d, D) == Sub(Column(a, d, D), Column(b, d, D));
    }
  }

  lemma ColumnScale(a: Mat, f: real, d: nat, D: nat)
    requires Shape(a, |a|, D) && d < D
    ensures Column(ScaleM(a, f), d, D) == Scale(Column(a, d, D), f)
  {
    assert forall k :: 0 <= k < |a| ==> Column(ScaleM(a, f), d, D)[k] == Scale(Column(a, d, D), f)[k];
  }

  lemma RowSumScale(a: Mat, f: real, D: nat)
    requires Shape(a, |a|, D)
    ensures RowSum(ScaleM(a, f), D) == Scale(RowSum(a, D), f)
  {
    forall d | 0 <= d < D ensures RowSum(ScaleM(a, f), D)[d] == Scale(RowSum(a, D), f)[d] {
      ColumnTotal(a, d, D);
      ColumnTotal(ScaleM(a, f), d, D);
      ColumnScale(a, f, d, D);
      TotalScale(Column(a, d, D), f);
    }
  }

  /** Removing a matrix and adding another with the same column sums changes no column sum. */
  lemma RowSumReplace(s: Mat, a: Mat, b: Mat, D: nat)
    requires Shape(s, |s|, D) && Shape(a, |s|, D) && Shape(b, |s|, D) && RowSum(a, D) == RowSum(b, D)
    ensures RowSum(AddM(SubM(s, a, D), b, D), D) == RowSum(s, D)
  {
    RowSumSub(s, a, D);
    RowSumAdd(SubM(s, a, D), b, D);
    assert Add(Sub(RowSum(s, D), RowSum(a, D)), RowSum(b, D)) == RowSum(s, D);
  }
}
