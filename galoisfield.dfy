/** The finite field GF(2^n) of galoisfield.py: an element is an integer in
    [0, size) read as a polynomial over GF(2); multiplication, division,
    powers and inverses are look-ups in an exponent table and a logarithm
    table that construction fills by repeated multiplication by `alpha`. */
module Galois {
  import opened Bits
  import opened Results

  /** The exceptions of galoisfield.py, by kind. */
  datatype FieldError =
    | InvalidPrime        // ValueError: `p` is not a prime
    | UnsupportedPrime    // NotImplementedError: `p` is a prime above 2
    | InvalidPower        // ValueError: `n` is not positive
    | IncompatibleAlpha   // ValueError: a power of alpha repeats
    | LogIndexOutOfRange  // IndexError: a power of alpha is not below size
    | DivisionByZero      // ZeroDivisionError

  /** x is a prime number. */
  ghost predicate Prime(x: int)
  {
    x >= 2 && forall d :: 2 <= d < x ==> x % d != 0
  }

  /** `is_prime`: trial division by every i with i * i <= x. */
  method IsPrime(x: int) returns (b: bool)
    ensures b <==> x >= 2 && forall d :: 2 <= d && d * d <= x ==> x % d != 0
    ensures b <==> Prime(x)
  {
    if x < 2 {
      return false;
    }
    var i := 2;
    while i * i <= x
      invariant 2 <= i
      invariant forall d :: 2 <= d < i ==> x % d != 0
      decreases x - i
    {
      SquareAtLeast(i);
      if x % i == 0 {
        assert 2 <= i && i * i <= x && x % i == 0;
        return false;
      }
      i := i + 1;
    }
    forall d | 2 <= d && d * d <= x
      ensures x % d != 0
    {
      if d >= i {
        SquareMonotone(i, d);
      }
    }
    forall d | 2 <= d < x
      ensures x % d != 0
    {
      if d >= i && x % d == 0 {
        CofactorBelow(x, d, i);
      }
    }
    b := true;
  }

  lemma SquareAtLeast(i: int)
    requires i >= 2
    ensures i < i * i
  {
  }

  lemma SquareMonotone(i: int, d: int)
    requires 0 <= i <= d
    ensures i * i <= d * d
  {
    assert i * i <= i * d <= d * d;
  }

  /** A divisor d >= i of x, where i * i > x, has a cofactor below i. */
  lemma CofactorBelow(x: int, d: int, i: int)
    requires 2 <= i <= d < x && x < i * i && x % d == 0
    ensures exists e :: 2 <= e < i && x % e == 0
  {
    var e := x / d;
    assert x == d * e by {
      assert x == d * (x / d) + x % d;
    }
    MulCancel(d, e, 1);
    SquareMonotone(i, d);
    MulCancel(i, i, e);
    MultipleMod(d, e);
    assert 2 <= e < i && x % e == 0;
  }

  /** Cancelling a positive factor preserves a strict inequality. */
  lemma MulCancel(d: int, a: int, b: int)
    requires d > 0 && d * a > d * b
    ensures a > b
  {
  }

  /** A multiple of e leaves no remainder modulo e. */
  lemma MultipleMod(d: int, e: int)
    requires e > 0
    ensures (d * e) % e == 0
  {
    var k := d - (d * e) / e;
    assert e * k == (d * e) % e;
    SmallMultiple(e, k);
  }

  lemma SmallMultiple(e: int, k: int)
    requires e > 0 && 0 <= e * k < e
    ensures k == 0
  {
  }

  /** One step of standard_mul's loop on x: shift left and, when the `size`
      bit (bit n) becomes set, subtract (exclusive-or) prim_poly. */
  function ShiftReduce(n: nat, primPoly: nat, x: nat): (r: nat)
  {
    if TestBit(2 * x, n) then Xor(2 * x, primPoly) else 2 * x
  }

  /** The value standard_mul computes: the exclusive or, over the set bits
      of y, of x shifted and reduced that many times. */
  function StdMul(n: nat, primPoly: nat, x: nat, y: int): (r: nat)
    decreases if y > 0 then y else 0
  {
    if y <= 0 then 0
    else Xor(if y % 2 == 1 then x else 0, StdMul(n, primPoly, ShiftReduce(n, primPoly, x), y / 2))
  }

  /** `standard_mul`: carry-less multiplication of x by y, reducing modulo
      prim_poly whenever the intermediate x reaches the `size` bit. */
  method StandardMul(n: nat, primPoly: nat, x: nat, y: int) returns (r: nat)
    ensures r == StdMul(n, primPoly, x, y)
    ensures y <= 0 ==> r == 0
    ensures y == 1 ==> r == x
    ensures Pow2(n) <= primPoly < 2 * Pow2(n) && x < Pow2(n) ==> r < Pow2(n)
  {
    r := 0;
    var a, b := x, y;
    XorZero(StdMul(n, primPoly, x, y));
    while b > 0
      invariant Xor(r, StdMul(n, primPoly, a, b)) == StdMul(n, primPoly, x, y)
      decreases b
    {
      ghost var rest := StdMul(n, primPoly, ShiftReduce(n, primPoly, a), b / 2);
      if b % 2 == 1 {
        XorAssoc(r, a, rest);
        r := Xor(r, a);
      } else {
        XorZero(rest);
      }
      a := 2 * a;
      b := b / 2;
      if TestBit(a, n) {
        a := Xor(a, primPoly);
      }
    }
    XorZero(r);
    if y == 1 {
      XorZero(x);
    }
    if Pow2(n) <= primPoly < 2 * Pow2(n) && x < Pow2(n) {
      StdMulBound(n, primPoly, x, y);
    }
  }

  /** With prim_poly of degree exactly n, a reduction step keeps x below size. */
  lemma ShiftReduceBound(n: nat, primPoly: nat, x: nat)
    requires Pow2(n) <= primPoly < 2 * Pow2(n) && x < Pow2(n)
    ensures ShiftReduce(n, primPoly, x) < Pow2(n)
  {
    TestTopBit(2 * x, n);
    if TestBit(2 * x, n) {
      XorHighBit(2 * x, primPoly, n);
    }
  }

  /** With prim_poly of degree exactly n, standard_mul of a field element
      is a field element. */
  lemma {:induction false} StdMulBound(n: nat, primPoly: nat, x: nat, y: int)
    requires Pow2(n) <= primPoly < 2 * Pow2(n) && x < Pow2(n)
    ensures StdMul(n, primPoly, x, y) < Pow2(n)
    decreases if y > 0 then y else 0
  {
    if y > 0 {
      ShiftReduceBound(n, primPoly, x);
      StdMulBound(n, primPoly, ShiftReduce(n, primPoly, x), y / 2);
      XorBound(if y % 2 == 1 then x else 0, StdMul(n, primPoly, ShiftReduce(n, primPoly, x), y / 2), n);
    }
  }

  /** alpha^i as construction computes it: 1, then standard_mul by alpha
      i times. */
  function AlphaPower(n: nat, alpha: int, primPoly: nat, i: nat): (r: nat)
  {
    if i == 0 then 1 else StdMul(n, primPoly, AlphaPower(n, alpha, primPoly, i - 1), alpha)
  }

  /** alpha^i equals an earlier power of alpha. */
  ghost predicate Revisits(n: nat, alpha: int, primPoly: nat, i: nat)
  {
    exists j :: 0 <= j < i && AlphaPower(n, alpha, primPoly, j) == AlphaPower(n, alpha, primPoly, i)
  }

  /** alpha^i cannot be entered in the tables: it is 0, it is not below
      size, or it repeats an earlier power. */
  ghost predicate Fault(n: nat, alpha: int, primPoly: nat, i: nat)
  {
    var a := AlphaPower(n, alpha, primPoly, i);
    a == 0 || a >= Pow2(n) || Revisits(n, alpha, primPoly, i)
  }

  /** alpha^0 .. alpha^(cap-1) are cap distinct non-zero field elements. */
  ghost predicate Generates(n: nat, alpha: int, primPoly: nat)
  {
    forall i :: 0 <= i < Pow2(n) - 1 ==> !Fault(n, alpha, primPoly, i)
  }

  /** i is the first step of the table loop at which construction fails. */
  ghost predicate FirstFault(n: nat, alpha: int, primPoly: nat, i: nat)
  {
    i < Pow2(n) - 1 && Fault(n, alpha, primPoly, i) &&
    forall j :: 0 <= j < i ==> !Fault(n, alpha, primPoly, j)
  }

  /** The fault test of galoisfield.py as written, which lets a power equal
      to 0 through (logLUT[0] holds the -1 "unvisited" sentinel). */
  ghost predicate FaultAsWritten(n: nat, alpha: int, primPoly: nat, i: nat)
  {
    AlphaPower(n, alpha, primPoly, i) >= Pow2(n) || Revisits(n, alpha, primPoly, i)
  }

  ghost predicate AcceptedAsWritten(n: nat, alpha: int, primPoly: nat)
  {
    forall i :: 0 <= i < Pow2(n) - 1 ==> !FaultAsWritten(n, alpha, primPoly, i)
  }

  ghost predicate FirstFaultAsWritten(n: nat, alpha: int, primPoly: nat, i: nat)
  {
    i < Pow2(n) - 1 && FaultAsWritten(n, alpha, primPoly, i) &&
    forall j :: 0 <= j < i ==> !FaultAsWritten(n, alpha, primPoly, j)
  }

  /** The exception the table loop raises at a faulty step i: IndexError
      when alpha^i is not below size (logLUT[a] is out of range), else the
      ValueError about alpha and prim_poly. */
  function FaultError(n: nat, alpha: int, primPoly: nat, i: nat): (e: FieldError)
  {
    if AlphaPower(n, alpha, primPoly, i) >= Pow2(n) then LogIndexOutOfRange else IncompatibleAlpha
  }

  /** Construction fails with error e: e is the error of the first fault. */
  ghost predicate RejectedWith(n: nat, alpha: int, primPoly: nat, e: FieldError)
  {
    exists i :: FirstFault(n, alpha, primPoly, i) && e == FaultError(n, alpha, primPoly, i)
  }

  ghost predicate RejectedAsWrittenWith(n: nat, alpha: int, primPoly: nat, e: FieldError)
  {
    exists i :: FirstFaultAsWritten(n, alpha, primPoly, i) && e == FaultError(n, alpha, primPoly, i)
  }

  /** A first fault rejects the parameters with that fault's error. */
  lemma FirstFaultRejects(n: nat, alpha: int, primPoly: nat, i: nat)
    requires FirstFault(n, alpha, primPoly, i)
    ensures !Generates(n, alpha, primPoly)
    ensures RejectedWith(n, alpha, primPoly, FaultError(n, alpha, primPoly, i))
  {
  }

  lemma FirstFaultAsWrittenRejects(n: nat, alpha: int, primPoly: nat, i: nat)
    requires FirstFaultAsWritten(n, alpha, primPoly, i)
    ensures !AcceptedAsWritten(n, alpha, primPoly)
    ensures RejectedAsWrittenWith(n, alpha, primPoly, FaultError(n, alpha, primPoly, i))
  {
  }

  /** Python's index `i` into a list of length `len`: a negative index
      counts from the end. */
  function PyIndex(len: nat, i: int): (k: nat)
    requires 0 <= i + len && i < len
    ensures k < len
    ensures k == i || k == i + len
  {
    if i < 0 then i + len else i
  }

  /** A constructed GaloisField: GF(2^power) with its generator, its
      modulus and the two look-up tables. The prime is always 2, since
      construction rejects every other. */
  datatype GaloisField = GaloisField(power: nat, alpha: int, primPoly: nat, expLUT: seq<int>, logLUT: seq<int>)
  {
    /** `size`: the number of field elements. */
    function Size(): (r: nat)
    {
      Pow2(power)
    }

    /** `cap`: the largest field element. */
    function Cap(): (r: nat)
    {
      Pow2(power) - 1
    }

    /** The tables describe a cyclic group of the cap non-zero elements:
        expLUT is double length with expLUT[i + cap] == expLUT[i], its
        first half lists every non-zero element exactly once starting at
        1, and logLUT inverts it, keeping -1 at the index of 0. */
    ghost predicate Valid()
    {
      power > 0 &&
      |expLUT| == 2 * Cap() && |logLUT| == Size() &&
      expLUT[0] == 1 && logLUT[0] == -1 &&
      expLUT[Cap()..] == expLUT[..Cap()] &&
      (forall i :: 0 <= i < Cap() ==> 1 <= expLUT[i] <= Cap() && logLUT[expLUT[i]] == i) &&
      (forall x :: 1 <= x <= Cap() ==> 0 <= logLUT[x] < Cap() && expLUT[logLUT[x]] == x)
    }

    /** `add`: exclusive or. The sum of two field elements is a field
        element, and it is 0 exactly when the operands are equal (every
        element is its own negative). */
    function Add(x: nat, y: nat): (r: nat)
      ensures x < Size() && y < Size() ==> r < Size()
      ensures r == 0 <==> x == y
    {
      XorZeroIff(x, y);
      if x < Size() && y < Size() then XorBound(x, y, power); Xor(x, y) else Xor(x, y)
    }

    /** `sub`: exclusive or, as subtraction and addition coincide. Adding
        y back to x - y gives x, and x - y is 0 exactly when x == y. */
    function Sub(x: nat, y: nat): (r: nat)
      ensures Add(r, y) == x
      ensures r == 0 <==> x == y
    {
      XorZeroIff(x, y);
      XorAssoc(x, y, y);
      XorSelf(y);
      XorZero(x);
      Xor(x, y)
    }

    /** `mul`: 0 if either operand is 0, otherwise the entry of expLUT at
        the sum of the logarithms (below 2 * cap, so no reduction). */
    function Mul(x: nat, y: nat): (r: nat)
      requires Valid() && x < Size() && y < Size()
      ensures r < Size()
      ensures r == 0 <==> x == 0 || y == 0
    {
      if x == 0 || y == 0 then 0
      else
        var k := logLUT[x] + logLUT[y];
        ExpEntry(this, k);
        expLUT[k]
    }

    /** `div`: an error for y == 0, 0 for x == 0, otherwise the entry of
        expLUT at the difference of the logarithms, which Python reads from
        the end of the table when it is negative. */
    function Div(x: nat, y: nat): (r: Result<nat, FieldError>)
      requires Valid() && x < Size() && y < Size()
      ensures r.Err? <==> y == 0
      ensures r.Err? ==> r.error == DivisionByZero
      ensures r.Ok? ==> r.value < Size() && (r.value == 0 <==> x == 0)
    {
      if y == 0 then Err(DivisionByZero)
      else if x == 0 then Ok(0)
      else
        var k := PyIndex(|expLUT|, logLUT[x] - logLUT[y]);
        ExpEntry(this, k);
        Ok(expLUT[k])
    }

    /** `pow`: the entry of expLUT at log(x) * p modulo cap. */
    function Pow(x: nat, p: int): (r: nat)
      requires Valid() && x < Size()
      ensures 0 < r < Size()
    {
      var k := (logLUT[x] * p) % Cap();
      ExpEntry(this, k);
      expLUT[k]
    }

    /** `inverse`: the entry of expLUT at -log(x), read from the end of the
        table by Python's negative indexing. */
    function Inverse(x: nat): (r: nat)
      requires Valid() && x < Size()
      ensures 0 < r < Size()
    {
      var k := PyIndex(|expLUT|, -logLUT[x]);
      ExpEntry(this, k);
      expLUT[k]
    }
  }

  /** Every entry of the double-length table is a non-zero element whose
      logarithm is its index reduced into [0, cap). */
  lemma ExpEntry(f: GaloisField, k: int)
    requires f.Valid() && 0 <= k < 2 * f.Cap()
    ensures 1 <= f.expLUT[k] <= f.Cap()
    ensures f.logLUT[f.expLUT[k]] == if k < f.Cap() then k else k - f.Cap()
  {
    if k >= f.Cap() {
      var i := k - f.Cap();
      assert f.expLUT[k] == f.expLUT[f.Cap()..][i] == f.expLUT[..f.Cap()][i];
    }
  }

  /** The values of the first m entries of s. */
  ghost function ValuesUpTo(s: seq<int>, m: nat): set<int>
    requires m <= |s|
  {
    set j | 0 <= j < m :: s[j]
  }

  /** m distinct entries have m distinct values. */
  lemma {:induction false} DistinctValuesCount(s: seq<int>, m: nat)
    requires m <= |s|
    requires forall i, j :: 0 <= i < j < m ==> s[i] != s[j]
    ensures |ValuesUpTo(s, m)| == m
    decreases m
  {
    if m > 0 {
      DistinctValuesCount(s, m - 1);
      assert ValuesUpTo(s, m) == ValuesUpTo(s, m - 1) + {s[m - 1]};
      assert s[m - 1] !in ValuesUpTo(s, m - 1);
    }
  }

  /** The integers 1 .. m. */
  ghost function Span(m: nat): set<int>
  {
    if m == 0 then {} else Span(m - 1) + {m}
  }

  lemma {:induction false} SpanCount(m: nat)
    ensures |Span(m)| == m
    ensures forall x :: x in Span(m) <==> 1 <= x <= m
    decreases m
  {
    if m > 0 {
      SpanCount(m - 1);
    }
  }

  /** Pigeonhole: m distinct values in [1, m] are all of [1, m]. */
  lemma DistinctCover(s: seq<int>, m: nat)
    requires |s| == m
    requires forall j :: 0 <= j < m ==> 1 <= s[j] <= m
    requires forall i, j :: 0 <= i < j < m ==> s[i] != s[j]
    ensures forall x :: 1 <= x <= m ==> x in s
  {
    var values, span := ValuesUpTo(s, m), Span(m);
    DistinctValuesCount(s, m);
    SpanCount(m);
    assert values <= span;
    assert span == values + (span - values);
    assert |span - values| == 0;
    forall x | 1 <= x <= m
      ensures x in s
    {
      assert x in values;
    }
  }

  /** The first i powers of alpha are entered in the tables: expLUT holds
      alpha^j at j and at j + cap, logLUT maps alpha^j back to j, and every
      other logLUT slot still holds the -1 sentinel. */
  ghost predicate Recorded(n: nat, alpha: int, primPoly: nat, exp: seq<int>, log: seq<int>, i: nat)
  {
    i <= Pow2(n) - 1 && |exp| == 2 * (Pow2(n) - 1) && |log| == Pow2(n) &&
    ExpRecorded(n, alpha, primPoly, exp, i) &&
    LogRecorded(n, alpha, primPoly, log, i) &&
    BackPointers(n, alpha, primPoly, log, i)
  }

  /** expLUT holds alpha^j at j and at j + cap for every j < i. */
  ghost predicate ExpRecorded(n: nat, alpha: int, primPoly: nat, exp: seq<int>, i: nat)
    requires i <= Pow2(n) - 1 && |exp| == 2 * (Pow2(n) - 1)
  {
    forall j :: 0 <= j < i ==>
      exp[j] == AlphaPower(n, alpha, primPoly, j) && exp[j + (Pow2(n) - 1)] == AlphaPower(n, alpha, primPoly, j)
  }

  /** logLUT maps alpha^j back to j for every j < i. */
  ghost predicate LogRecorded(n: nat, alpha: int, primPoly: nat, log: seq<int>, i: nat)
    requires |log| == Pow2(n)
  {
    forall j :: 0 <= j < i ==>
      AlphaPower(n, alpha, primPoly, j) < Pow2(n) && log[AlphaPower(n, alpha, primPoly, j)] == j
  }

  /** Every logLUT slot holds the sentinel -1 or an exponent j < i whose
      power is that slot. */
  ghost predicate BackPointers(n: nat, alpha: int, primPoly: nat, log: seq<int>, i: nat)
    requires |log| == Pow2(n)
  {
    forall x :: 0 <= x < Pow2(n) ==>
      log[x] == -1 || (0 <= log[x] < i && AlphaPower(n, alpha, primPoly, log[x]) == x)
  }

  /** Before the loop every slot holds the sentinel. */
  lemma RecordedStart(n: nat, alpha: int, primPoly: nat, exp: seq<int>, log: seq<int>)
    requires |exp| == 2 * (Pow2(n) - 1) && |log| == Pow2(n)
    requires forall k :: 0 <= k < |log| ==> log[k] == -1
    ensures Recorded(n, alpha, primPoly, exp, log, 0)
  {
  }

  /** The state of the table loop before step i: the first i powers of
      alpha were accepted and recorded. */
  ghost predicate Filled(n: nat, alpha: int, primPoly: nat, exp: seq<int>, log: seq<int>, i: nat)
  {
    Recorded(n, alpha, primPoly, exp, log, i) &&
    forall j :: 0 <= j < i ==> !Fault(n, alpha, primPoly, j)
  }

  /** Step i of the loop fails exactly when alpha^i is 0, is not below
      size, or finds its logLUT slot taken; that step is then the first
      fault. */
  lemma FilledFault(n: nat, alpha: int, primPoly: nat, exp: seq<int>, log: seq<int>, i: nat)
    requires Filled(n, alpha, primPoly, exp, log, i) && i < Pow2(n) - 1
    ensures var a := AlphaPower(n, alpha, primPoly, i);
      (a == 0 || a >= Pow2(n) || log[a] != -1) <==> FirstFault(n, alpha, primPoly, i)
  {
    var a := AlphaPower(n, alpha, primPoly, i);
    if a != 0 && a < Pow2(n) {
      if log[a] != -1 {
        assert AlphaPower(n, alpha, primPoly, log[a]) == a;
        assert Revisits(n, alpha, primPoly, i);
      } else {
        forall j | 0 <= j < i
          ensures AlphaPower(n, alpha, primPoly, j) != a
        {
        }
      }
    }
  }

  lemma ExpStep(n: nat, alpha: int, primPoly: nat, exp: seq<int>, i: nat)
    requires i < Pow2(n) - 1 && |exp| == 2 * (Pow2(n) - 1)
    requires ExpRecorded(n, alpha, primPoly, exp, i)
    ensures
      var a := AlphaPower(n, alpha, primPoly, i);
      ExpRecorded(n, alpha, primPoly, exp[i := a][i + (Pow2(n) - 1) := a], i + 1)
  {
  }

  lemma LogStep(n: nat, alpha: int, primPoly: nat, log: seq<int>, i: nat)
    requires |log| == Pow2(n) && LogRecorded(n, alpha, primPoly, log, i)
    requires AlphaPower(n, alpha, primPoly, i) < Pow2(n)
    requires forall j :: 0 <= j < i ==> AlphaPower(n, alpha, primPoly, j) != AlphaPower(n, alpha, primPoly, i)
    ensures LogRecorded(n, alpha, primPoly, log[AlphaPower(n, alpha, primPoly, i) := i], i + 1)
  {
  }

  lemma BackStep(n: nat, alpha: int, primPoly: nat, log: seq<int>, i: nat)
    requires |log| == Pow2(n) && BackPointers(n, alpha, primPoly, log, i)
    requires AlphaPower(n, alpha, primPoly, i) < Pow2(n)
    ensures BackPointers(n, alpha, primPoly, log[AlphaPower(n, alpha, primPoly, i) := i], i + 1)
  {
  }

  /** `GaloisField.__init__`: checks that p is a prime, that it is 2, and
      that n is positive, then builds the tables. */
  method NewGaloisField(p: int, n: int, alpha: int, primPoly: nat) returns (r: Result<GaloisField, FieldError>)
    ensures !Prime(p) ==> r == Err(InvalidPrime)
    ensures Prime(p) && p > 2 ==> r == Err(UnsupportedPrime)
    ensures p == 2 && n <= 0 ==> r == Err(InvalidPower)
    ensures p == 2 && n > 0 ==> (r.Ok? <==> Generates(n, alpha, primPoly))
    ensures p == 2 && n > 0 && r.Err? ==> RejectedWith(n, alpha, primPoly, r.error)
    ensures r.Ok? ==> p == 2 && TablesOf(r.value, n, alpha, primPoly)
  {
    var isPrime := IsPrime(p);
    if !isPrime {
      return Err(InvalidPrime);
    }
    if p > 2 {
      return Err(UnsupportedPrime);
    }
    if n <= 0 {
      return Err(InvalidPower);
    }
    r := BuildTables(n, alpha, primPoly);
  }

  /** The table loop of `GaloisField.__init__`, corrected to reject a power
      of alpha equal to 0: fills expLUT (double length) and logLUT with
      alpha^0, alpha^1, ... computed by standard_mul, and fails at the first
      power that is 0, is not below size, or repeats an earlier one. */
  method BuildTables(n: nat, alpha: int, primPoly: nat) returns (r: Result<GaloisField, FieldError>)
    requires n > 0
    ensures r.Ok? <==> Generates(n, alpha, primPoly)
    ensures r.Err? ==> RejectedWith(n, alpha, primPoly, r.error)
    ensures r.Ok? ==> TablesOf(r.value, n, alpha, primPoly)
  {
    var size := Pow2(n);
    var cap := size - 1;
    var exp := new int[2 * cap](_ => -1);
    var log := new int[size](_ => -1);
    var a: nat := 1;
    var i := 0;
    RecordedStart(n, alpha, primPoly, exp[..], log[..]);
    while i < cap
      invariant 0 <= i <= cap
      invariant a == AlphaPower(n, alpha, primPoly, i)
      invariant Filled(n, alpha, primPoly, exp[..], log[..], i)
    {
      FilledFault(n, alpha, primPoly, exp[..], log[..], i);
      if a == 0 || a >= size || log[a] != -1 {
        FirstFaultRejects(n, alpha, primPoly, i);
        return Err(if a >= size then LogIndexOutOfRange else IncompatibleAlpha);
      }
      a := Record(n, alpha, primPoly, exp, log, i, a);
      i := i + 1;
    }
    r := Ok(GaloisField(n, alpha, primPoly, exp[..], log[..]));
    FilledTablesValid(r.value);
  }

  /** The state of the as-written table loop before step i. */
  ghost predicate FilledAsWritten(n: nat, alpha: int, primPoly: nat, exp: seq<int>, log: seq<int>, i: nat)
  {
    Recorded(n, alpha, primPoly, exp, log, i) &&
    forall j :: 0 <= j < i ==> !FaultAsWritten(n, alpha, primPoly, j)
  }

  /** As written, step i fails exactly when alpha^i is not below size or
      finds its logLUT slot taken. */
  lemma FilledAsWrittenFault(n: nat, alpha: int, primPoly: nat, exp: seq<int>, log: seq<int>, i: nat)
    requires FilledAsWritten(n, alpha, primPoly, exp, log, i) && i < Pow2(n) - 1
    ensures var a := AlphaPower(n, alpha, primPoly, i);
      (a >= Pow2(n) || log[a] != -1) <==> FirstFaultAsWritten(n, alpha, primPoly, i)
  {
    var a := AlphaPower(n, alpha, primPoly, i);
    if a < Pow2(n) {
      if log[a] != -1 {
        assert AlphaPower(n, alpha, primPoly, log[a]) == a;
        assert Revisits(n, alpha, primPoly, i);
      } else {
        forall j | 0 <= j < i
          ensures AlphaPower(n, alpha, primPoly, j) != a
        {
        }
      }
    }
  }

  /** The table loop of `GaloisField.__init__` as written: the only test
      is `logLUT[a] != -1` (with the IndexError of an `a` not below size),
      so a power equal to 0 is entered while logLUT[0] still holds the
      sentinel. */
  method BuildTablesAsWritten(n: nat, alpha: int, primPoly: nat) returns (r: Result<GaloisField, FieldError>)
    requires n > 0
    ensures r.Ok? <==> AcceptedAsWritten(n, alpha, primPoly)
    ensures r.Err? ==> RejectedAsWrittenWith(n, alpha, primPoly, r.error)
    ensures r.Ok? ==> r.value.power == n && r.value.alpha == alpha && r.value.primPoly == primPoly
    ensures r.Ok? ==> Recorded(n, alpha, primPoly, r.value.expLUT, r.value.logLUT, Pow2(n) - 1)
  {
    var size := Pow2(n);
    var cap := size - 1;
    var exp := new int[2 * cap](_ => -1);
    var log := new int[size](_ => -1);
    var a: nat := 1;
    var i := 0;
    RecordedStart(n, alpha, primPoly, exp[..], log[..]);
    while i < cap
      invariant 0 <= i <= cap
      invariant a == AlphaPower(n, alpha, primPoly, i)
      invariant FilledAsWritten(n, alpha, primPoly, exp[..], log[..], i)
    {
      FilledAsWrittenFault(n, alpha, primPoly, exp[..], log[..], i);
      if a >= size || log[a] != -1 {
        FirstFaultAsWrittenRejects(n, alpha, primPoly, i);
        return Err(if a >= size then LogIndexOutOfRange else IncompatibleAlpha);
      }
      a := Record(n, alpha, primPoly, exp, log, i, a);
      i := i + 1;
    }
    FilledAsWrittenDone(n, alpha, primPoly, exp[..], log[..]);
    r := Ok(GaloisField(n, alpha, primPoly, exp[..], log[..]));
  }

  /** A completed as-written loop accepted the parameters. */
  lemma FilledAsWrittenDone(n: nat, alpha: int, primPoly: nat, exp: seq<int>, log: seq<int>)
    requires FilledAsWritten(n, alpha, primPoly, exp, log, Pow2(n) - 1)
    ensures AcceptedAsWritten(n, alpha, primPoly)
    ensures Recorded(n, alpha, primPoly, exp, log, Pow2(n) - 1)
  {
  }

  /** The powers of alpha = x (2) modulo the reducible x^2 (4) in GF(2^2)
      are 1, x, 0: construction as written accepts them, although they do
      not generate the field and the element 3 never receives a logarithm
      (its logLUT slot keeps -1). */
  lemma ReducibleModulusAccepted()
    ensures AlphaPower(2, 2, 4, 0) == 1 && AlphaPower(2, 2, 4, 1) == 2 && AlphaPower(2, 2, 4, 2) == 0
    ensures AcceptedAsWritten(2, 2, 4)
    ensures !Generates(2, 2, 4)
    ensures forall j :: 0 <= j < Pow2(2) - 1 ==> AlphaPower(2, 2, 4, j) != 3
  {
    ReducedPowers();
    assert Pow2(2) == 4;
    forall i | 0 <= i < 3
      ensures !FaultAsWritten(2, 2, 4, i)
    {
      assert i == 0 || i == 1 || i == 2;
    }
    assert Fault(2, 2, 4, 2);
  }

  /** The powers 1, x, x^2 of x computed modulo x^2. */
  lemma ReducedPowers()
    ensures AlphaPower(2, 2, 4, 0) == 1 && AlphaPower(2, 2, 4, 1) == 2 && AlphaPower(2, 2, 4, 2) == 0
  {
    assert StdMul(2, 4, 1, 2) == 2 by {
      assert StdMul(2, 4, 2, 1) == 2 by {
        XorZero(2);
      }
      assert ShiftReduce(2, 4, 1) == 2;
      XorZero(2);
    }
    assert StdMul(2, 4, 2, 2) == 0 by {
      assert ShiftReduce(2, 4, 2) == 0 by {
        assert TestBit(4, 2);
        XorSelf(4);
      }
      assert StdMul(2, 4, 0, 1) == 0;
    }
  }

  /** One step of the table loop on an unvisited alpha^i below size:
      enter it in both tables and compute the next power. */
  method Record(n: nat, alpha: int, primPoly: nat, exp: array<int>, log: array<int>, i: nat, a: nat)
    returns (next: nat)
    requires exp != log && exp.Length == 2 * (Pow2(n) - 1) && log.Length == Pow2(n)
    requires Recorded(n, alpha, primPoly, exp[..], log[..], i) && i < Pow2(n) - 1
    requires a == AlphaPower(n, alpha, primPoly, i) && a < Pow2(n) && log[a] == -1
    modifies exp, log
    ensures Recorded(n, alpha, primPoly, exp[..], log[..], i + 1)
    ensures next == AlphaPower(n, alpha, primPoly, i + 1)
  {
    forall j | 0 <= j < i
      ensures AlphaPower(n, alpha, primPoly, j) != a
    {
    }
    ExpStep(n, alpha, primPoly, exp[..], i);
    LogStep(n, alpha, primPoly, log[..], i);
    BackStep(n, alpha, primPoly, log[..], i);
    Enter(exp, log, i, a);
    next := StandardMul(n, primPoly, a, alpha);
  }

  /** One step of the table loop: `expLUT[i] = expLUT[i + cap] = a` and
      `logLUT[a] = i`. */
  method Enter(exp: array<int>, log: array<int>, i: nat, a: nat)
    requires exp != log && exp.Length == 2 * (log.Length - 1) && i < log.Length - 1 && a < log.Length
    modifies exp, log
    ensures exp[..] == old(exp[..])[i := a][i + (log.Length - 1) := a]
    ensures log[..] == old(log[..])[a := i]
  {
    exp[i] := a;
    exp[i + (log.Length - 1)] := a;
    log[a] := i;
  }

  /** f holds the tables construction builds from (n, alpha, prim_poly):
      a valid field whose expLUT lists alpha^0 .. alpha^(cap-1) in order
      and whose logLUT maps each of them back to its exponent. */
  ghost predicate TablesOf(f: GaloisField, n: nat, alpha: int, primPoly: nat)
  {
    f.power == n && f.alpha == alpha && f.primPoly == primPoly && f.Valid() &&
    forall i :: 0 <= i < f.Cap() ==>
      f.expLUT[i] == AlphaPower(n, alpha, primPoly, i) && f.logLUT[AlphaPower(n, alpha, primPoly, i)] == i
  }

  /** Tables filled with cap distinct non-zero powers of alpha, each
      written twice in expLUT and recorded in logLUT, make a valid field. */
  lemma FilledTablesValid(f: GaloisField)
    requires f.power > 0
    requires Filled(f.power, f.alpha, f.primPoly, f.expLUT, f.logLUT, f.Cap())
    ensures Generates(f.power, f.alpha, f.primPoly)
    ensures TablesOf(f, f.power, f.alpha, f.primPoly)
  {
    var cap := f.Cap();
    var powers := f.expLUT[..cap];
    forall j | 0 <= j < cap
      ensures 1 <= powers[j] <= cap
    {
      assert !Fault(f.power, f.alpha, f.primPoly, j);
    }
    forall i, j | 0 <= i < j < cap
      ensures powers[i] != powers[j]
    {
      assert !Fault(f.power, f.alpha, f.primPoly, j);
    }
    DistinctCover(powers, cap);
    assert f.expLUT[cap..] == powers;
    forall x | 1 <= x <= cap
      ensures 0 <= f.logLUT[x] < cap && f.expLUT[f.logLUT[x]] == x
    {
      assert x in powers;
      var j :| 0 <= j < cap && powers[j] == x;
    }
    assert forall j :: 0 <= j < cap ==> AlphaPower(f.power, f.alpha, f.primPoly, j) != 0;
  }
}
