/** Polynomials over a GaloisField (polynomials.py): a polynomial is the
    list of its coefficients, highest degree first, so the constant term
    is the last entry; every coefficient must be a field element, at most
    cap. */
module Polynomial {
  import opened Bits
  import opened Results
  import opened Galois
  import opened FieldLaws

  /** The ValueError raised when a coefficient exceeds cap. */
  datatype PolyError = CoefficientOutOfRange

  /** Every coefficient of p is at most cap. */
  predicate InRange(p: seq<nat>, cap: int)
  {
    forall i :: 0 <= i < |p| ==> p[i] <= cap
  }

  /** The coefficient of x^d in p (0 beyond its length). */
  function Coeff(p: seq<nat>, d: nat): (r: nat)
  {
    if d < |p| then p[|p| - 1 - d] else 0
  }

  function Max(a: nat, b: nat): (r: nat)
  {
    if a < b then b else a
  }

  /** p right-aligned in a list of length m: zeros in front of it. */
  function Padded(p: seq<nat>, m: nat): (r: seq<nat>)
    requires |p| <= m
    ensures |r| == m
    ensures forall d :: 0 <= d < m ==> r[m - 1 - d] == Coeff(p, d)
  {
    seq(m - |p|, _ => 0) + p
  }

  /** The sum of two polynomials: entries aligned at the constant term
      and added (exclusive or). */
  function Sum(p: seq<nat>, q: seq<nat>): (r: seq<nat>)
  {
    var m := Max(|p|, |q|);
    seq(m, k requires 0 <= k < m => Xor(Padded(p, m)[k], Padded(q, m)[k]))
  }

  /** The term p[i] * q[k - i] of entry k of a product, or 0 when there
      is no q[k - i]. */
  function Term(f: GaloisField, p: seq<nat>, q: seq<nat>, k: int, i: nat): (r: nat)
    requires f.Valid() && InRange(p, f.Cap()) && InRange(q, f.Cap()) && i < |p|
  {
    if 0 <= k - i < |q| then f.Mul(p[i], q[k - i]) else 0
  }

  /** Entry k of a product, summed over the first m entries of p. */
  function Conv(f: GaloisField, p: seq<nat>, q: seq<nat>, k: int, m: nat): (r: nat)
    requires f.Valid() && InRange(p, f.Cap()) && InRange(q, f.Cap()) && m <= |p|
  {
    if m == 0 then 0 else Xor(Conv(f, p, q, k, m - 1), Term(f, p, q, k, m - 1))
  }

  /** Adding row i of the products to entry k. */
  lemma ConvStep(f: GaloisField, p: seq<nat>, q: seq<nat>, k: int, i: nat)
    requires f.Valid() && InRange(p, f.Cap()) && InRange(q, f.Cap()) && i < |p|
    ensures Conv(f, p, q, k, i + 1) ==
      if i <= k < i + |q| then Xor(Conv(f, p, q, k, i), f.Mul(p[i], q[k - i])) else Conv(f, p, q, k, i)
  {
    if !(i <= k < i + |q|) {
      XorZero(Conv(f, p, q, k, i));
    }
  }

  /** ConvStep at k == i + j - 1, naming the factor of q as q[j - 1]. */
  lemma ConvStepAt(f: GaloisField, p: seq<nat>, q: seq<nat>, k: int, i: nat, j: nat)
    requires f.Valid() && InRange(p, f.Cap()) && InRange(q, f.Cap()) && i < |p|
    requires 0 < j <= |q| && k == i + j - 1
    ensures Conv(f, p, q, k, i + 1) == Xor(Conv(f, p, q, k, i), f.Mul(p[i], q[j - 1]))
  {
    assert k - i == j - 1;
    assert q[k - i] == q[j - 1];
    ConvStep(f, p, q, k, i);
  }

  /** The entries s after `mul` has added p[i] * q[0 .. j - 1] at
      indices i .. i + j - 1. */
  function RowSum(f: GaloisField, p: seq<nat>, q: seq<nat>, i: nat, j: nat, s: seq<nat>): (r: seq<nat>)
    requires f.Valid() && InRange(p, f.Cap()) && InRange(q, f.Cap())
    requires i < |p| && j <= |q| && |s| == ProductLength(p, q)
    ensures |r| == |s|
  {
    if j == 0 then s
    else
      var t := RowSum(f, p, q, i, j - 1, s);
      t[i + j - 1 := Xor(t[i + j - 1], f.Mul(p[i], q[j - 1]))]
  }

  lemma RowSumNext(f: GaloisField, p: seq<nat>, q: seq<nat>, i: nat, j: nat, s: seq<nat>)
    requires f.Valid() && InRange(p, f.Cap()) && InRange(q, f.Cap())
    requires i < |p| && j < |q| && |s| == ProductLength(p, q)
    ensures i + j < |s|
    ensures var t := RowSum(f, p, q, i, j, s);
      RowSum(f, p, q, i, j + 1, s) == t[i + j := Xor(t[i + j], f.Mul(p[i], q[j]))]
  {
  }

  /** Entry k after the j-th product of row i was added at i + j - 1. */
  lemma RowSumAt(f: GaloisField, p: seq<nat>, q: seq<nat>, i: nat, j: nat, s: seq<nat>, k: nat)
    requires f.Valid() && InRange(p, f.Cap()) && InRange(q, f.Cap())
    requires i < |p| && 0 < j <= |q| && |s| == ProductLength(p, q) && k < |s|
    ensures RowSum(f, p, q, i, j, s)[k] ==
      if k == i + j - 1 then Xor(RowSum(f, p, q, i, j - 1, s)[k], f.Mul(p[i], q[j - 1]))
      else RowSum(f, p, q, i, j - 1, s)[k]
  {
  }

  /** Adding the first j products of row i to an entry k that sums rows
      0 .. i - 1 makes it sum rows 0 .. i when i <= k < i + j. */
  lemma {:induction false} RowSumConv(f: GaloisField, p: seq<nat>, q: seq<nat>, i: nat, j: nat, s: seq<nat>, k: nat)
    requires f.Valid() && InRange(p, f.Cap()) && InRange(q, f.Cap())
    requires i < |p| && j <= |q| && |s| == ProductLength(p, q) && k < |s|
    requires s[k] == Conv(f, p, q, k, i)
    ensures RowSum(f, p, q, i, j, s)[k] == if i <= k < i + j then Conv(f, p, q, k, i + 1) else Conv(f, p, q, k, i)
    decreases j
  {
    if j > 0 {
      RowSumConv(f, p, q, i, j - 1, s, k);
      if k == i + j - 1 {
        RowSumConvHit(f, p, q, i, j, s, k);
      } else {
        RowSumConvMiss(f, p, q, i, j, s, k);
      }
    }
  }

  /** The last product added to row i, at position k == i + j - 1, turns
      the sum of rows 0 .. i - 1 there into the sum of rows 0 .. i. */
  lemma RowSumConvHit(f: GaloisField, p: seq<nat>, q: seq<nat>, i: nat, j: nat, s: seq<nat>, k: nat)
    requires f.Valid() && InRange(p, f.Cap()) && InRange(q, f.Cap())
    requires i < |p| && 0 < j <= |q| && |s| == ProductLength(p, q) && k == i + j - 1
    requires RowSum(f, p, q, i, j - 1, s)[k] == Conv(f, p, q, k, i)
    ensures RowSum(f, p, q, i, j, s)[k] == Conv(f, p, q, k, i + 1)
  {
    RowSumAt(f, p, q, i, j, s, k);
    ConvStepAt(f, p, q, k, i, j);
  }

  /** The last product added to row i leaves every other entry. */
  lemma RowSumConvMiss(f: GaloisField, p: seq<nat>, q: seq<nat>, i: nat, j: nat, s: seq<nat>, k: nat)
    requires f.Valid() && InRange(p, f.Cap()) && InRange(q, f.Cap())
    requires i < |p| && 0 < j <= |q| && |s| == ProductLength(p, q) && k < |s| && k != i + j - 1
    ensures RowSum(f, p, q, i, j, s)[k] == RowSum(f, p, q, i, j - 1, s)[k]
  {
    RowSumAt(f, p, q, i, j, s, k);
  }

  /** Python's length of `[0] * (len(p) + len(q) - 1)`: never negative. */
  function ProductLength(p: seq<nat>, q: seq<nat>): (r: nat)
  {
    if |p| + |q| == 0 then 0 else |p| + |q| - 1
  }

  /** The product of two polynomials: entry k sums p[i] * q[j] over the
      i + j == k. */
  function Product(f: GaloisField, p: seq<nat>, q: seq<nat>): (r: seq<nat>)
    requires f.Valid() && InRange(p, f.Cap()) && InRange(q, f.Cap())
  {
    var m := ProductLength(p, q);
    seq(m, k requires 0 <= k < m => Conv(f, p, q, k, |p|))
  }

  /** The range check both `add` and `mul` begin with, on one operand. */
  method CheckRange(p: seq<nat>, cap: int) returns (ok: bool)
    ensures ok <==> InRange(p, cap)
  {
    for i := 0 to |p|
      invariant InRange(p[..i], cap)
    {
      if p[i] > cap {
        return false;
      }
    }
    assert p[..|p|] == p;
    return true;
  }

  /** `Polynomials.__init__`: operations over `field`, with cap one below
      the field's size. */
  function NewPolynomials(field: GaloisField): (r: Polynomials)
    ensures r.field == field && r.cap == field.Size() - 1
    ensures field.Valid() ==> r.Valid()
  {
    Polynomials(field, field.Size() - 1)
  }

  /** `Polynomials`: operations on polynomials over `field`; `cap` is the
      largest coefficient. */
  datatype Polynomials = Polynomials(field: GaloisField, cap: int)
  {
    /** The field is a constructed one and cap is its cap. */
    ghost predicate Valid()
    {
      field.Valid() && cap == field.Cap()
    }

    /** `add`: a ValueError when a coefficient exceeds cap; otherwise the
        list of length max(len(p), len(q)) holding p right-aligned, then
        q added in right-aligned. */
    method Add(p: seq<nat>, q: seq<nat>) returns (r: Result<seq<nat>, PolyError>)
      ensures r.Ok? <==> InRange(p, cap) && InRange(q, cap)
      ensures r.Err? ==> r.error == CoefficientOutOfRange
      ensures r.Ok? ==> r.value == Sum(p, q)
    {
      var okP := CheckRange(p, cap);
      if !okP {
        return Err(CoefficientOutOfRange);
      }
      var okQ := CheckRange(q, cap);
      if !okQ {
        return Err(CoefficientOutOfRange);
      }
      var m := Max(|p|, |q|);
      var res := new nat[m](_ => 0);
      for i := 0 to |p|
        invariant forall k :: 0 <= k < m ==>
          res[k] == if m - |p| <= k < m - |p| + i then p[k - (m - |p|)] else 0
      {
        res[m - |p| + i] := p[i];
      }
      for i := 0 to |q|
        invariant forall k :: 0 <= k < m ==>
          res[k] == if m - |q| <= k < m - |q| + i then Xor(Padded(p, m)[k], q[k - (m - |q|)]) else Padded(p, m)[k]
      {
        res[m - |q| + i] := field.Add(res[m - |q| + i], q[i]);
      }
      forall k | 0 <= k < m
        ensures res[k] == Sum(p, q)[k]
      {
        if k < m - |q| {
          XorZero(Padded(p, m)[k]);
        }
      }
      return Ok(res[..]);
    }

    /** `mul`: a ValueError when a coefficient exceeds cap; otherwise the
        list of length len(p) + len(q) - 1 to which every product
        p[i] * q[j] is added at index i + j. */
    method Mul(p: seq<nat>, q: seq<nat>) returns (r: Result<seq<nat>, PolyError>)
      requires Valid()
      ensures r.Ok? <==> InRange(p, cap) && InRange(q, cap)
      ensures r.Err? ==> r.error == CoefficientOutOfRange
      ensures r.Ok? ==> r.value == Product(field, p, q)
    {
      var okP := CheckRange(p, cap);
      if !okP {
        return Err(CoefficientOutOfRange);
      }
      var okQ := CheckRange(q, cap);
      if !okQ {
        return Err(CoefficientOutOfRange);
      }
      var m := ProductLength(p, q);
      var res := new nat[m](_ => 0);
      for i := 0 to |p|
        invariant forall k :: 0 <= k < m ==> res[k] == Conv(field, p, q, k, i)
      {
        AddRow(p, q, res, i);
      }
      return Ok(res[..]);
    }

    /** One pass of `mul`'s outer loop: every product p[i] * q[j] added to
        the entry at i + j. */
    method AddRow(p: seq<nat>, q: seq<nat>, res: array<nat>, i: nat)
      requires Valid() && InRange(p, field.Cap()) && InRange(q, field.Cap()) && i < |p|
      requires res.Length == ProductLength(p, q)
      requires forall k :: 0 <= k < res.Length ==> res[k] == Conv(field, p, q, k, i)
      modifies res
      ensures forall k :: 0 <= k < res.Length ==> res[k] == Conv(field, p, q, k, i + 1)
    {
      ghost var start := res[..];
      for j := 0 to |q|
        invariant res[..] == RowSum(field, p, q, i, j, start)
      {
        var prod := field.Mul(p[i], q[j]);
        var sum := field.Add(res[i + j], prod);
        RowSumNext(field, p, q, i, j, start);
        res[i + j] := sum;
      }
      forall k | 0 <= k < res.Length
        ensures res[k] == Conv(field, p, q, k, i + 1)
      {
        RowSumConv(field, p, q, i, |q|, start, k);
        ConvStep(field, p, q, k, i);
      }
    }

    /** `scalar`: a ValueError when a coefficient or x exceeds cap;
        otherwise every coefficient multiplied by x. */
    function Scalar(p: seq<nat>, x: nat): (r: Result<seq<nat>, PolyError>)
      requires Valid()
      ensures r.Ok? <==> InRange(p, cap) && x <= cap
      ensures r.Err? ==> r.error == CoefficientOutOfRange
      ensures r.Ok? ==> |r.value| == |p|
    {
      if !InRange(p, cap) || x > cap then Err(CoefficientOutOfRange)
      else Ok(seq(|p|, i requires 0 <= i < |p| => field.Mul(x, p[i])))
    }
  }

  /** Sum adds the coefficients of each degree, and its length is the
      larger of the two. */
  lemma SumCoeff(p: seq<nat>, q: seq<nat>)
    ensures |Sum(p, q)| == Max(|p|, |q|)
    ensures forall d :: Coeff(Sum(p, q), d) == Xor(Coeff(p, d), Coeff(q, d))
  {
    var m := Max(|p|, |q|);
    forall d
      ensures Coeff(Sum(p, q), d) == Xor(Coeff(p, d), Coeff(q, d))
    {
      if d >= m {
        XorZero(0);
      }
    }
  }

  /** Adding polynomials is commutative. */
  lemma SumComm(p: seq<nat>, q: seq<nat>)
    ensures Sum(p, q) == Sum(q, p)
  {
    var m := Max(|p|, |q|);
    forall k | 0 <= k < m
      ensures Sum(p, q)[k] == Sum(q, p)[k]
    {
      XorComm(Padded(p, m)[k], Padded(q, m)[k]);
    }
  }

  /** A polynomial added to itself gives zeros. */
  lemma SumSelf(p: seq<nat>)
    ensures Sum(p, p) == seq(|p|, _ => 0)
  {
    forall k | 0 <= k < |p|
      ensures Sum(p, p)[k] == 0
    {
      XorSelf(Padded(p, |p|)[k]);
    }
  }

  /** Adding the empty polynomial changes nothing. */
  lemma SumEmpty(p: seq<nat>)
    ensures Sum(p, []) == p
  {
    forall k | 0 <= k < |p|
      ensures Sum(p, [])[k] == p[k]
    {
      XorZero(p[k]);
    }
  }

  /** The sum of polynomials over the field has coefficients in the field. */
  lemma SumInRange(f: GaloisField, p: seq<nat>, q: seq<nat>)
    requires InRange(p, f.Cap()) && InRange(q, f.Cap())
    ensures InRange(Sum(p, q), f.Cap())
  {
    var m := Max(|p|, |q|);
    forall k | 0 <= k < m
      ensures Sum(p, q)[k] <= f.Cap()
    {
      XorBound(Padded(p, m)[k], Padded(q, m)[k], f.power);
    }
  }

  /** Every entry of a product is a field element. */
  lemma {:induction false} ConvInRange(f: GaloisField, p: seq<nat>, q: seq<nat>, k: int, m: nat)
    requires f.Valid() && InRange(p, f.Cap()) && InRange(q, f.Cap()) && m <= |p|
    ensures Conv(f, p, q, k, m) < f.Size()
    decreases m
  {
    if m > 0 {
      ConvInRange(f, p, q, k, m - 1);
      XorBound(Conv(f, p, q, k, m - 1), Term(f, p, q, k, m - 1), f.power);
    }
  }

  lemma ProductInRange(f: GaloisField, p: seq<nat>, q: seq<nat>)
    requires f.Valid() && InRange(p, f.Cap()) && InRange(q, f.Cap())
    ensures InRange(Product(f, p, q), f.Cap())
  {
    forall k | 0 <= k < ProductLength(p, q)
      ensures Product(f, p, q)[k] <= f.Cap()
    {
      ConvInRange(f, p, q, k, |p|);
    }
  }

  /** With a single-coefficient q == [c], entry k of the product sums
      only p[k] * c. */
  lemma {:induction false} ConvSingle(f: GaloisField, p: seq<nat>, c: nat, k: int, m: nat)
    requires f.Valid() && InRange(p, f.Cap()) && c <= f.Cap() && m <= |p|
    ensures Conv(f, p, [c], k, m) == if 0 <= k < m then f.Mul(p[k], c) else 0
    decreases m
  {
    if m > 0 {
      var prev, t := Conv(f, p, [c], k, m - 1), Term(f, p, [c], k, m - 1);
      assert Conv(f, p, [c], k, m) == Xor(prev, t);
      ConvSingle(f, p, c, k, m - 1);
      if k == m - 1 {
        assert prev == 0 && t == f.Mul(p[k], c);
        XorZero(t);
      } else {
        assert t == 0;
        XorZero(prev);
      }
    }
  }

  /** The product with the constant polynomial [c] multiplies every
      coefficient by c. */
  lemma ProductConstant(f: GaloisField, p: seq<nat>, c: nat)
    requires f.Valid() && InRange(p, f.Cap()) && c <= f.Cap()
    ensures |Product(f, p, [c])| == |p|
    ensures forall k :: 0 <= k < |p| ==> Product(f, p, [c])[k] == f.Mul(p[k], c)
  {
    forall k | 0 <= k < |p|
      ensures Product(f, p, [c])[k] == f.Mul(p[k], c)
    {
      ConvSingle(f, p, c, k, |p|);
    }
  }

  /** The constant polynomial [1] is the unit of multiplication. */
  lemma ProductOne(f: GaloisField, p: seq<nat>)
    requires f.Valid() && InRange(p, f.Cap())
    ensures Product(f, p, [1]) == p
  {
    ProductConstant(f, p, 1);
    forall k | 0 <= k < |p|
      ensures Product(f, p, [1])[k] == p[k]
    {
      MulOne(f, p[k]);
    }
  }

  /** `scalar` multiplies by the constant polynomial [x]. */
  lemma ScalarIsProduct(pl: Polynomials, p: seq<nat>, x: nat)
    requires pl.Valid() && InRange(p, pl.cap) && x <= pl.cap
    ensures pl.Scalar(p, x) == Ok(Product(pl.field, p, [x]))
  {
    ProductConstant(pl.field, p, x);
    forall k | 0 <= k < |p|
      ensures pl.Scalar(p, x).value[k] == Product(pl.field, p, [x])[k]
    {
      MulComm(pl.field, x, p[k]);
    }
    assert pl.Scalar(p, x).value == Product(pl.field, p, [x]);
  }

  /** Scaling by 0 clears every coefficient; scaling by 1 changes nothing. */
  lemma ScalarZeroOne(pl: Polynomials, p: seq<nat>)
    requires pl.Valid() && InRange(p, pl.cap)
    ensures pl.Scalar(p, 0) == Ok(seq(|p|, _ => 0))
    ensures pl.Scalar(p, 1) == Ok(p)
  {
    ScalarIsProduct(pl, p, 1);
    ProductOne(pl.field, p);
    assert pl.Scalar(p, 0).value == seq(|p|, _ => 0);
  }

  /** The leading coefficient of a product is the product of the leading
      coefficients. */
  lemma {:induction false} ConvFirst(f: GaloisField, p: seq<nat>, q: seq<nat>, m: nat)
    requires f.Valid() && InRange(p, f.Cap()) && InRange(q, f.Cap())
    requires 0 < m <= |p| && 0 < |q|
    ensures Conv(f, p, q, 0, m) == f.Mul(p[0], q[0])
    decreases m
  {
    if m == 1 {
      XorZero(f.Mul(p[0], q[0]));
    } else {
      ConvFirst(f, p, q, m - 1);
      XorZero(f.Mul(p[0], q[0]));
    }
  }

  lemma ProductLeading(f: GaloisField, p: seq<nat>, q: seq<nat>)
    requires f.Valid() && InRange(p, f.Cap()) && InRange(q, f.Cap())
    requires 0 < |p| && 0 < |q|
    ensures |Product(f, p, q)| == |p| + |q| - 1
    ensures Product(f, p, q)[0] == f.Mul(p[0], q[0])
  {
    ConvFirst(f, p, q, |p|);
  }

  /** Before the last row, no product reaches the last entry. */
  lemma {:induction false} ConvLastZero(f: GaloisField, p: seq<nat>, q: seq<nat>, m: nat)
    requires f.Valid() && InRange(p, f.Cap()) && InRange(q, f.Cap())
    requires 0 < |p| && 0 < |q| && m < |p|
    ensures Conv(f, p, q, |p| + |q| - 2, m) == 0
    decreases m
  {
    if m > 0 {
      ConvLastZero(f, p, q, m - 1);
      XorZero(0);
    }
  }

  /** The constant term of a product is the product of the constant
      terms. */
  lemma ProductTrailing(f: GaloisField, p: seq<nat>, q: seq<nat>)
    requires f.Valid() && InRange(p, f.Cap()) && InRange(q, f.Cap())
    requires 0 < |p| && 0 < |q|
    ensures |Product(f, p, q)| == |p| + |q| - 1
    ensures Product(f, p, q)[|p| + |q| - 2] == f.Mul(p[|p| - 1], q[|q| - 1])
  {
    var n, k := |p|, |p| + |q| - 2;
    var last := f.Mul(p[n - 1], q[|q| - 1]);
    assert k - (n - 1) == |q| - 1;
    assert Term(f, p, q, k, n - 1) == last;
    ConvLastZero(f, p, q, n - 1);
    XorZero(last);
    assert Conv(f, p, q, k, n) == Xor(0, last);
    assert Product(f, p, q)[k] == Conv(f, p, q, k, n);
  }

  /** The constant polynomial [1] is also a unit on the left. */
  lemma ProductOneLeft(f: GaloisField, q: seq<nat>)
    requires f.Valid() && InRange(q, f.Cap()) && 0 < |q|
    ensures Product(f, [1], q) == q
  {
    forall k | 0 <= k < |q|
      ensures Product(f, [1], q)[k] == q[k]
    {
      MulOne(f, q[k]);
      XorZero(q[k]);
      assert Conv(f, [1], q, k, 0) == 0;
    }
  }
}
