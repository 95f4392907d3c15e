/** Exact stand-ins for the numpy operations the algorithms use: sums,
    dot products along an axis, max/argmax, means, and Python-style indexing.
    Dafny's `real` replaces IEEE floats. */
module Numeric {
  import opened Wrappers

  /** `np.sum` of a vector, folded from the left. */
  function Sum(s: seq<real>): real
  {
    if |s| == 0 then 0.0 else Sum(s[..|s| - 1]) + s[|s| - 1]
  }

  /** Element-wise product summed: `np.sum(p * q)`. */
  function Dot(p: seq<real>, q: seq<real>): real
    requires |p| == |q|
  {
    Sum(seq(|p|, i requires 0 <= i < |p| => p[i] * q[i]))
  }

  /** `np.zeros(n)`. */
  function Zeros(n: nat): (z: seq<real>)
    ensures |z| == n && forall i :: 0 <= i < n ==> z[i] == 0.0
  {
    seq(n, _ => 0.0)
  }

  /** `np.mean` of a non-empty list. */
  function Mean(s: seq<real>): real
    requires |s| > 0
  {
    Sum(s) / (|s| as real)
  }

  function MaxReal(x: real, y: real): real
  {
    if x >= y then x else y
  }

  /** `np.argmax`: the FIRST index holding the maximum, so ties go to the
      lowest index. */
  function ArgMax(q: seq<real>): (k: nat)
    requires |q| > 0
    ensures k < |q|
    ensures forall j :: 0 <= j < |q| ==> q[j] <= q[k]
    ensures forall j :: 0 <= j < k ==> q[j] < q[k]
  {
    if |q| == 1 then 0
    else
      var k := ArgMax(q[..|q| - 1]);
      assert forall j :: 0 <= j < |q| - 1 ==> q[..|q| - 1][j] == q[j];
      if q[|q| - 1] > q[k] then |q| - 1 else k
  }

  /** An index whose entry is maximal and strictly above every earlier entry
      is the argmax. */
  lemma ArgMaxIsFirstMaximiser(q: seq<real>, k: nat)
    requires k < |q|
    requires forall j :: 0 <= j < |q| ==> q[j] <= q[k]
    requires forall j :: 0 <= j < k ==> q[j] < q[k]
    ensures ArgMax(q) == k
  {
  }

  /** `np.max`: the largest entry. */
  function Max(q: seq<real>): (r: real)
    requires |q| > 0
    ensures forall j :: 0 <= j < |q| ==> q[j] <= r
    ensures exists j :: 0 <= j < |q| && q[j] == r
  {
    q[ArgMax(q)]
  }

  /** Python indexing of a length-`n` list with an `int`: negative indices
      count from the end, anything else out of range raises IndexError. */
  function PyIndex(n: nat, i: int): (r: Option<nat>)
    ensures r.Some? <==> -(n as int) <= i < n
    ensures r.Some? ==> r.value < n && (r.value == i || r.value == i + n)
  {
    if 0 <= i < n then Some(i) else if -(n as int) <= i < 0 then Some(i + n) else None
  }

  /** `list.index(x)`: the first position holding `x`; ValueError when absent. */
  function IndexOf<T(==)>(xs: seq<T>, x: T): (r: Option<nat>)
    ensures r.None? <==> x !in xs
    ensures r.Some? ==> r.value < |xs| && xs[r.value] == x
                        && forall j :: 0 <= j < r.value ==> xs[j] != x
  {
    if |xs| == 0 then None
    else if xs[0] == x then Some(0)
    else
      match IndexOf(xs[1..], x)
      case None => None
      case Some(k) => Some(k + 1)
  }

  /** A draw of `random.random()`: a real in [0, 1). */
  type Unit = u: real | 0.0 <= u < 1.0 witness 0.0

  /** A fraction of a positive number stays below it. */
  lemma ScaleBelow(u: real, n: real)
    requires 0.0 <= u < 1.0 && n > 0.0
    ensures 0.0 <= u * n < n
  {
    assert n - u * n == (1.0 - u) * n;
  }

  /** `random.randint(lo, hi)` driven by an explicit uniform draw `u`. */
  function RandInt(lo: int, hi: int, u: Unit): (r: int)
    requires lo <= hi
    ensures lo <= r <= hi
  {
    var n := (hi - lo + 1) as real;
    var x := u * n;
    ScaleBelow(u, n);
    lo + x.Floor
  }

  // ---------------------------------------------------------------------
  // Facts about Sum
  // ---------------------------------------------------------------------

  lemma {:induction false} SumAppend(s: seq<real>, t: seq<real>)
    ensures Sum(s + t) == Sum(s) + Sum(t)
    decreases |t|
  {
    if |t| == 0 {
      assert s + t == s;
    } else {
      var u := s + t;
      assert u[..|u| - 1] == s + t[..|t| - 1];
      SumAppend(s, t[..|t| - 1]);
    }
  }

  /** The cumulative sum grows by one entry at a time. */
  lemma SumPrefixStep(s: seq<real>, k: nat)
    requires k < |s|
    ensures Sum(s[..k + 1]) == Sum(s[..k]) + s[k]
  {
    assert s[..k + 1][..k] == s[..k];
  }

  lemma {:induction false} SumFirst(s: seq<real>)
    requires |s| > 0
    ensures Sum(s) == s[0] + Sum(s[1..])
    decreases |s|
  {
    if |s| > 1 {
      var p := s[..|s| - 1];
      SumFirst(p);
      assert p[1..] == s[1..][..|s[1..]| - 1];
    } else {
      assert s[1..] == [];
      assert s[..0] == [];
    }
  }

  lemma {:induction false} SumAllZero(s: seq<real>)
    requires forall i :: 0 <= i < |s| ==> s[i] == 0.0
    ensures Sum(s) == 0.0
    decreases |s|
  {
    if |s| > 0 {
      SumAllZero(s[..|s| - 1]);
    }
  }

  lemma {:induction false} SumNonNeg(s: seq<real>)
    requires forall i :: 0 <= i < |s| ==> s[i] >= 0.0
    ensures Sum(s) >= 0.0
    decreases |s|
  {
    if |s| > 0 {
      SumNonNeg(s[..|s| - 1]);
    }
  }

  /** A non-negative vector that sums to 0 is all zeros. */
  lemma {:induction false} SumNonNegZero(s: seq<real>)
    requires forall i :: 0 <= i < |s| ==> s[i] >= 0.0
    requires Sum(s) == 0.0
    ensures forall i :: 0 <= i < |s| ==> s[i] == 0.0
    decreases |s|
  {
    if |s| > 0 {
      var p := s[..|s| - 1];
      SumNonNeg(p);
      SumNonNegZero(p);
      assert forall i :: 0 <= i < |p| ==> s[i] == p[i];
    }
  }

  /** A vector that is zero except at `j` sums to its entry at `j`. */
  lemma {:induction false} SumPoint(s: seq<real>, j: nat)
    requires j < |s|
    requires forall t :: 0 <= t < |s| && t != j ==> s[t] == 0.0
    ensures Sum(s) == s[j]
    decreases |s|
  {
    var p := s[..|s| - 1];
    if j == |s| - 1 {
      SumAllZero(p);
    } else {
      SumPoint(p, j);
    }
  }

  /** A vector that is zero except at `j` and `k` sums to those two entries. */
  lemma {:induction false} SumTwoPoints(s: seq<real>, j: nat, k: nat)
    requires j < |s| && k < |s| && j != k
    requires forall t :: 0 <= t < |s| && t != j && t != k ==> s[t] == 0.0
    ensures Sum(s) == s[j] + s[k]
    decreases |s|
  {
    var p := s[..|s| - 1];
    if j == |s| - 1 {
      SumPoint(p, k);
    } else if k == |s| - 1 {
      SumPoint(p, j);
    } else {
      SumTwoPoints(p, j, k);
    }
  }

  /** A constant vector sums to its length times the constant. */
  lemma {:induction false} SumConst(s: seq<real>, c: real)
    requires forall i :: 0 <= i < |s| ==> s[i] == c
    ensures Sum(s) == (|s| as real) * c
    decreases |s|
  {
    if |s| > 0 {
      SumConst(s[..|s| - 1], c);
    }
  }

  // ---------------------------------------------------------------------
  // Facts about Dot
  // ---------------------------------------------------------------------

  /** A dot product splits off its last term. */
  lemma DotLast(p: seq<real>, q: seq<real>)
    requires |p| == |q| && |p| > 0
    ensures Dot(p, q) == Dot(p[..|p| - 1], q[..|q| - 1]) + p[|p| - 1] * q[|q| - 1]
  {
    var n := |p| - 1;
    var t := seq(|p|, i requires 0 <= i < |p| => p[i] * q[i]);
    var u := seq(n, i requires 0 <= i < n => p[..n][i] * q[..n][i]);
    forall i | 0 <= i < n
      ensures t[..n][i] == u[i]
    {
    }
    assert t[..n] == u;
  }

  /** A weighted sum with non-negative weights is at most the total weight
      times any bound on the values. */
  lemma {:induction false} WeightedSumBelow(p: seq<real>, q: seq<real>, M: real)
    requires |p| == |q|
    requires forall i :: 0 <= i < |p| ==> p[i] >= 0.0 && q[i] <= M
    ensures Dot(p, q) <= Sum(p) * M
    decreases |p|
  {
    if |p| > 0 {
      var n := |p| - 1;
      DotLast(p, q);
      WeightedSumBelow(p[..n], q[..n], M);
      MulBelow(p[n], q[n], M);
    }
  }

  lemma MulBelow(x: real, y: real, M: real)
    requires x >= 0.0 && y <= M
    ensures x * y <= x * M
  {
    assert x * M - x * y == x * (M - y);
  }

  /** A zero weight vector gives a zero dot product, whatever the other side. */
  lemma DotZeroLeft(p: seq<real>, q: seq<real>)
    requires |p| == |q|
    requires forall i :: 0 <= i < |p| ==> p[i] == 0.0
    ensures Dot(p, q) == 0.0
  {
    SumAllZero(seq(|p|, i requires 0 <= i < |p| => p[i] * q[i]));
  }

  /** A zero vector on the right also gives a zero dot product. */
  lemma DotZeroRight(p: seq<real>, q: seq<real>)
    requires |p| == |q|
    requires forall i :: 0 <= i < |q| ==> q[i] == 0.0
    ensures Dot(p, q) == 0.0
  {
    SumAllZero(seq(|p|, i requires 0 <= i < |p| => p[i] * q[i]));
  }

  /** A one-hot weight vector picks out one entry. */
  lemma DotOneHot(p: seq<real>, q: seq<real>, k: nat)
    requires |p| == |q| && k < |p|
    requires p[k] == 1.0 && forall i :: 0 <= i < |p| && i != k ==> p[i] == 0.0
    ensures Dot(p, q) == q[k]
  {
    SumPoint(seq(|p|, i requires 0 <= i < |p| => p[i] * q[i]), k);
  }

  /** A weight vector that is zero except at `j` and `k` picks out two
      weighted entries. */
  lemma DotTwoPoints(p: seq<real>, q: seq<real>, j: nat, k: nat)
    requires |p| == |q| && j < |p| && k < |p| && j != k
    requires forall i :: 0 <= i < |p| && i != j && i != k ==> p[i] == 0.0
    ensures Dot(p, q) == p[j] * q[j] + p[k] * q[k]
  {
    SumTwoPoints(seq(|p|, i requires 0 <= i < |p| => p[i] * q[i]), j, k);
  }

  // ---------------------------------------------------------------------
  // Integer division facts for row/column numbering
  // ---------------------------------------------------------------------

  lemma MulAtLeast(k: int, d: int)
    requires k >= 1 && d > 0
    ensures k * d >= d
  {
  }

  lemma MulMono(a: int, b: int, d: int)
    requires a <= b && d >= 0
    ensures a * d <= b * d
  {
    assert b * d - a * d == (b - a) * d;
  }

  lemma MultipleInWindow(k: int, d: int)
    requires d > 0 && -d < k * d < d
    ensures k == 0
  {
    if k >= 1 {
      MulAtLeast(k, d);
    } else if k <= -1 {
      MulAtLeast(-k, d);
    }
  }

  /** Quotient and remainder are unique. */
  lemma DivModUnique(x: int, d: int, q: int, c: int)
    requires d > 0 && 0 <= c < d && x == q * d + c
    ensures x / d == q && x % d == c
  {
    var q' := x / d;
    var c' := x % d;
    assert (q' - q) * d == c - c';
    MultipleInWindow(q' - q, d);
  }

  lemma DivBelow(s: nat, n: nat, d: nat)
    requires d > 0 && s < n * d
    ensures s / d < n
  {
    var q := s / d;
    assert q * d <= s;
    if q >= n {
      MulAtLeast(q - n + 1, d);
    }
  }
}
