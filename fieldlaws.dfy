/** What the look-up operations of a constructed GaloisField satisfy:
    addition is exclusive or, so it is an abelian group in which every
    element is its own negative; multiplication through the tables adds
    logarithms modulo cap, so it is associative and commutative with
    unit 1, division undoes it, inverse gives the multiplicative inverse
    and pow is repeated multiplication. */
module FieldLaws {
  import opened Bits
  import opened Results
  import opened Galois

  /** add is commutative. */
  lemma AddComm(f: GaloisField, x: nat, y: nat)
    ensures f.Add(x, y) == f.Add(y, x)
  {
    XorComm(x, y);
  }

  /** add is associative. */
  lemma AddAssoc(f: GaloisField, x: nat, y: nat, z: nat)
    ensures f.Add(f.Add(x, y), z) == f.Add(x, f.Add(y, z))
  {
    XorAssoc(x, y, z);
  }

  /** 0 is the neutral element of add. */
  lemma AddZero(f: GaloisField, x: nat)
    ensures f.Add(x, 0) == x && f.Add(0, x) == x
  {
    XorZero(x);
  }

  /** Every element is its own negative: x + x == 0. */
  lemma AddSelf(f: GaloisField, x: nat)
    ensures f.Add(x, x) == 0
  {
    XorSelf(x);
  }

  /** The sum of two field elements is a field element. */
  lemma AddClosed(f: GaloisField, x: nat, y: nat)
    requires x < f.Size() && y < f.Size()
    ensures f.Add(x, y) < f.Size()
  {
    XorBound(x, y, f.power);
  }

  /** sub undoes add: (x + y) - y == x. */
  lemma SubAfterAdd(f: GaloisField, x: nat, y: nat)
    ensures f.Sub(f.Add(x, y), y) == x
  {
    XorAssoc(x, y, y);
    XorSelf(y);
    XorZero(x);
  }

  /** Negation is the identity: 0 - x == x. */
  lemma SubFromZero(f: GaloisField, x: nat)
    ensures f.Sub(0, x) == x
  {
    XorZero(x);
  }

  /** The remainder of an index below 2 * c modulo c. */
  lemma ModBelowTwice(k: int, c: int)
    requires 0 <= k < 2 * c
    ensures k % c == if k < c then k else k - c
  {
    if k >= c {
      assert k == c * 1 + (k - c);
    }
  }

  /** Adding a multiple of c does not change a remainder modulo c. */
  lemma ModMultiple(q: int, r: int, c: int)
    requires c > 0
    ensures (c * q + r) % c == r % c
  {
    var m := r % c;
    assert r == c * (r / c) + m;
    assert c * q + r == c * (q + r / c) + m;
    ModUnique(c * q + r, q + r / c, m, c);
  }

  /** A quotient-remainder decomposition determines the remainder. */
  lemma ModUnique(x: int, q: int, m: int, c: int)
    requires c > 0 && 0 <= m < c && x == c * q + m
    ensures x % c == m
  {
    var q' := x / c;
    var m' := x % c;
    assert x == c * q' + m';
    var d := q - q';
    assert c * q - c * q' == c * d;
    assert c * d == m' - m;
    if d >= 1 {
      MulAtLeast(c, d);
    } else if d <= -1 {
      MulAtMost(c, d);
    }
  }

  lemma MulAtMost(c: int, d: int)
    requires c > 0 && d <= -1
    ensures c * d <= -c
  {
    assert c * d == c * (d + 1) - c;
    assert c * (d + 1) <= 0;
  }

  lemma MulAtLeast(c: int, d: int)
    requires c > 0 && d >= 1
    ensures c * d >= c
  {
    assert c * d == c * (d - 1) + c;
    assert c * (d - 1) >= 0;
  }

  /** The remainder of a sum depends on the left summand only through its
      remainder. */
  lemma ModAddLeft(a: int, b: int, c: int)
    requires c > 0
    ensures (a + b) % c == (a % c + b) % c
  {
    assert a == c * (a / c) + a % c;
    ModMultiple(a / c, a % c + b, c);
    assert a + b == c * (a / c) + (a % c + b);
  }

  /** An element is determined by its logarithm. */
  lemma LogInjective(f: GaloisField, x: nat, y: nat)
    requires f.Valid() && 0 < x < f.Size() && 0 < y < f.Size()
    requires f.logLUT[x] == f.logLUT[y]
    ensures x == y
  {
  }

  /** log(1) == 0. */
  lemma LogOne(f: GaloisField)
    requires f.Valid()
    ensures f.logLUT[1] == 0
  {
    assert f.logLUT[f.expLUT[0]] == 0;
  }

  /** mul adds logarithms modulo cap. */
  lemma MulLog(f: GaloisField, x: nat, y: nat)
    requires f.Valid() && 0 < x < f.Size() && 0 < y < f.Size()
    ensures f.logLUT[f.Mul(x, y)] == (f.logLUT[x] + f.logLUT[y]) % f.Cap()
  {
    var k := f.logLUT[x] + f.logLUT[y];
    ExpEntry(f, k);
    ModBelowTwice(k, f.Cap());
  }

  /** mul is commutative. */
  lemma MulComm(f: GaloisField, x: nat, y: nat)
    requires f.Valid() && x < f.Size() && y < f.Size()
    ensures f.Mul(x, y) == f.Mul(y, x)
  {
  }

  /** 1 is the neutral element of mul. */
  lemma MulOne(f: GaloisField, x: nat)
    requires f.Valid() && x < f.Size()
    ensures f.Mul(x, 1) == x && f.Mul(1, x) == x
  {
    LogOne(f);
  }

  /** mul is associative. */
  lemma MulAssoc(f: GaloisField, x: nat, y: nat, z: nat)
    requires f.Valid() && x < f.Size() && y < f.Size() && z < f.Size()
    ensures f.Mul(f.Mul(x, y), z) == f.Mul(x, f.Mul(y, z))
  {
    if x != 0 && y != 0 && z != 0 {
      var left, right := f.Mul(f.Mul(x, y), z), f.Mul(x, f.Mul(y, z));
      MulLogLeft(f, x, y, z);
      MulLogRight(f, x, y, z);
      LogInjective(f, left, right);
    }
  }

  /** log((x * y) * z) is the sum of the three logarithms modulo cap. */
  lemma MulLogLeft(f: GaloisField, x: nat, y: nat, z: nat)
    requires f.Valid() && 0 < x < f.Size() && 0 < y < f.Size() && 0 < z < f.Size()
    ensures f.logLUT[f.Mul(f.Mul(x, y), z)] == (f.logLUT[x] + f.logLUT[y] + f.logLUT[z]) % f.Cap()
  {
    var xy := f.Mul(x, y);
    MulLog(f, x, y);
    MulLog(f, xy, z);
    ModAddLeft(f.logLUT[x] + f.logLUT[y], f.logLUT[z], f.Cap());
  }

  /** log(x * (y * z)) is the sum of the three logarithms modulo cap. */
  lemma MulLogRight(f: GaloisField, x: nat, y: nat, z: nat)
    requires f.Valid() && 0 < x < f.Size() && 0 < y < f.Size() && 0 < z < f.Size()
    ensures f.logLUT[f.Mul(x, f.Mul(y, z))] == (f.logLUT[x] + f.logLUT[y] + f.logLUT[z]) % f.Cap()
  {
    var yz := f.Mul(y, z);
    MulLog(f, y, z);
    MulLog(f, x, yz);
    ModAddLeft(f.logLUT[y] + f.logLUT[z], f.logLUT[x], f.Cap());
    assert f.logLUT[x] + f.logLUT[yz] == f.logLUT[yz] + f.logLUT[x];
    assert f.logLUT[y] + f.logLUT[z] + f.logLUT[x] == f.logLUT[x] + f.logLUT[y] + f.logLUT[z];
  }

  /** inverse(x) is the multiplicative inverse of a non-zero x. */
  lemma MulInverse(f: GaloisField, x: nat)
    requires f.Valid() && 0 < x < f.Size()
    ensures f.Mul(x, f.Inverse(x)) == 1
  {
    var c := f.Cap();
    var lx := f.logLUT[x];
    var k := PyIndex(|f.expLUT|, -lx);
    ExpEntry(f, k);
    LogOne(f);
    if lx == 0 {
      assert f.Inverse(x) == f.expLUT[0] == 1;
      LogInjective(f, x, 1);
    } else {
      assert f.logLUT[f.Inverse(x)] == c - lx;
      assert f.expLUT[c] == f.expLUT[0];
    }
  }

  /** div then mul: (x / y) * y == x for y != 0. */
  lemma DivThenMul(f: GaloisField, x: nat, y: nat)
    requires f.Valid() && x < f.Size() && 0 < y < f.Size()
    ensures f.Div(x, y).Ok? && f.Mul(f.Div(x, y).value, y) == x
  {
    if x != 0 {
      var c := f.Cap();
      var lx, ly := f.logLUT[x], f.logLUT[y];
      var k := PyIndex(|f.expLUT|, lx - ly);
      ExpEntry(f, k);
      var q := f.Div(x, y).value;
      assert f.logLUT[q] == if lx >= ly then lx - ly else lx - ly + c;
      MulLog(f, q, y);
      ModBelowTwice(f.logLUT[q] + ly, c);
      LogInjective(f, f.Mul(q, y), x);
    }
  }

  /** mul then div: (x * y) / y == x for y != 0. */
  lemma MulThenDiv(f: GaloisField, x: nat, y: nat)
    requires f.Valid() && x < f.Size() && 0 < y < f.Size()
    ensures f.Div(f.Mul(x, y), y) == Ok(x)
  {
    if x != 0 {
      var c := f.Cap();
      var lx, ly := f.logLUT[x], f.logLUT[y];
      var p := f.Mul(x, y);
      MulLog(f, x, y);
      ModBelowTwice(lx + ly, c);
      var k := PyIndex(|f.expLUT|, f.logLUT[p] - ly);
      ExpEntry(f, k);
      assert f.logLUT[f.expLUT[k]] == lx;
      LogInjective(f, f.expLUT[k], x);
    }
  }

  /** pow multiplies the logarithm by the exponent modulo cap. */
  lemma PowLog(f: GaloisField, x: nat, p: int)
    requires f.Valid() && 0 < x < f.Size()
    ensures f.logLUT[f.Pow(x, p)] == (f.logLUT[x] * p) % f.Cap()
  {
    ExpEntry(f, (f.logLUT[x] * p) % f.Cap());
  }

  /** x^0 == 1, for every x (also for 0). */
  lemma PowZero(f: GaloisField, x: nat)
    requires f.Valid() && x < f.Size()
    ensures f.Pow(x, 0) == 1
  {
    assert f.logLUT[x] * 0 == 0;
  }

  /** x^(p + 1) == x^p * x for a non-zero x. */
  lemma PowSucc(f: GaloisField, x: nat, p: int)
    requires f.Valid() && 0 < x < f.Size()
    ensures f.Pow(x, p + 1) == f.Mul(f.Pow(x, p), x)
  {
    var c := f.Cap();
    var lx := f.logLUT[x];
    PowLog(f, x, p);
    PowLog(f, x, p + 1);
    MulLog(f, f.Pow(x, p), x);
    assert lx * (p + 1) == lx * p + lx;
    ModAddLeft(lx * p, lx, c);
    LogInjective(f, f.Pow(x, p + 1), f.Mul(f.Pow(x, p), x));
  }

  /** pow of 0 is never 0: the sentinel log(0) == -1 makes pow(0, p) read
      expLUT at (-p) mod cap. */
  lemma PowOfZero(f: GaloisField, p: int)
    requires f.Valid()
    ensures f.Pow(0, p) != 0
    ensures f.logLUT[f.Pow(0, p)] == (-p) % f.Cap()
  {
    ExpEntry(f, (-p) % f.Cap());
  }

  /** x^a * x^b == x^(a + b) for a non-zero x. */
  lemma PowAdd(f: GaloisField, x: nat, a: int, b: int, s: int)
    requires f.Valid() && 0 < x < f.Size() && s == a + b
    ensures f.Mul(f.Pow(x, a), f.Pow(x, b)) == f.Pow(x, s)
  {
    var c := f.Cap();
    var lx := f.logLUT[x];
    var u, v := f.Pow(x, a), f.Pow(x, b);
    PowLog(f, x, a);
    PowLog(f, x, b);
    PowLog(f, x, s);
    MulLog(f, u, v);
    assert lx * s == lx * a + lx * b;
    ModAddLeft(lx * a, lx * b, c);
    ModAddLeft(lx * b, (lx * a) % c, c);
    assert f.logLUT[f.Mul(u, v)] == f.logLUT[f.Pow(x, s)];
    LogInjective(f, f.Mul(u, v), f.Pow(x, s));
  }
}
