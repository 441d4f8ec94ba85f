/** The Reed-Solomon codec of reedsolomon.py: it works in GF(2^8) built
    with alpha = 2 (the polynomial x) and prim_poly = 285
    (x^8 + x^4 + x^3 + x^2 + 1), and builds the generator polynomial
    (x - alpha^0)(x - alpha^1)...(x - alpha^(enc_len - 1)). */
module ReedSolomon {
  import opened Bits
  import opened Results
  import opened Galois
  import opened FieldLaws
  import opened Polynomial

  /** The factor (x - x0^i) of the generator, as the list [1, 0 - x0^i];
      subtraction is exclusive or, so 0 - x0^i is x0^i itself. */
  function Factor(f: GaloisField, x0: nat, i: nat): (r: seq<nat>)
    requires f.Valid() && x0 < f.Size()
    ensures r == [1, f.Pow(x0, i)]
    ensures InRange(r, f.Cap())
  {
    SubFromZero(f, f.Pow(x0, i));
    [1, f.Sub(0, f.Pow(x0, i))]
  }

  /** The generator polynomial with k factors: a monic polynomial of
      degree k over the field. */
  function Generator(f: GaloisField, x0: nat, k: nat): (g: seq<nat>)
    requires f.Valid() && x0 < f.Size()
    ensures |g| == k + 1
    ensures g[0] == 1
    ensures InRange(g, f.Cap())
  {
    if k == 0 then [1]
    else
      var prev := Generator(f, x0, k - 1);
      var factor := Factor(f, x0, k - 1);
      ProductLeading(f, prev, factor);
      ProductInRange(f, prev, factor);
      MulOne(f, 1);
      Product(f, prev, factor)
  }

  /** The generator with k + 1 factors multiplies the one with k by the
      next factor. */
  lemma GeneratorNext(f: GaloisField, x0: nat, k: nat)
    requires f.Valid() && x0 < f.Size()
    ensures Generator(f, x0, k + 1) == Product(f, Generator(f, x0, k), Factor(f, x0, k))
  {
  }

  /** The constant term of the generator with k + 1 factors is the one
      with k times the root x0^k. */
  lemma GeneratorLast(f: GaloisField, x0: nat, k: nat)
    requires f.Valid() && x0 < f.Size()
    ensures Generator(f, x0, k + 1)[k + 1] == f.Mul(Generator(f, x0, k)[k], f.Pow(x0, k))
  {
    var prev, factor := Generator(f, x0, k), Factor(f, x0, k);
    GeneratorNext(f, x0, k);
    ProductTrailing(f, prev, factor);
  }

  /** 0 + 1 + ... + (k - 1). */
  function Triangle(k: nat): (r: nat)
  {
    if k == 0 then 0 else Triangle(k - 1) + (k - 1)
  }

  /** Multiplying x0^Triangle(k - 1) by the next root x0^(k - 1) gives
      x0^Triangle(k). */
  lemma TriangleStep(f: GaloisField, x0: nat, k: nat, g: nat, h: nat)
    requires f.Valid() && 0 < x0 < f.Size() && 0 < k
    requires h == f.Pow(x0, Triangle(k - 1)) && g == f.Mul(h, f.Pow(x0, k - 1))
    ensures g == f.Pow(x0, Triangle(k))
  {
    PowAdd(f, x0, Triangle(k - 1), k - 1, Triangle(k));
  }

  /** The constant term of the generator is the product of the roots
      x0^0 ... x0^(k - 1), which is x0^(0 + 1 + ... + (k - 1)). */
  lemma {:induction false} GeneratorConstant(f: GaloisField, x0: nat, k: nat)
    requires f.Valid() && 0 < x0 < f.Size()
    ensures Generator(f, x0, k)[k] == f.Pow(x0, Triangle(k))
    decreases k
  {
    if k == 0 {
      PowZero(f, x0);
    } else {
      var j := k - 1;
      assert j + 1 == k;
      GeneratorConstant(f, x0, j);
      GeneratorLast(f, x0, j);
      TriangleStep(f, x0, k, Generator(f, x0, k)[k], Generator(f, x0, k - 1)[k - 1]);
    }
  }

  /** One factor: the generator for enc_len == 1 is x - 1, i.e. [1, 1]. */
  lemma GeneratorOne(f: GaloisField, x0: nat)
    requires f.Valid() && x0 < f.Size()
    ensures Generator(f, x0, 1) == [1, 1]
  {
    PowZero(f, x0);
    ProductOneLeft(f, Factor(f, x0, 0));
  }

  /** `ReedSolomonCodec`: the code length, the field and the polynomial
      operations over it. */
  datatype ReedSolomonCodec = ReedSolomonCodec(encLen: int, field: GaloisField, polynomials: Polynomials)
  {
    /** The codec's field was constructed from (2, 8, 2, 285) and its
        polynomial operations work over that field. */
    ghost predicate Valid()
    {
      field.Valid() && field.power == 8 && field.alpha == 2 && field.primPoly == 285 &&
      polynomials == Polynomials(field, field.Cap())
    }

    /** `generator_poly`: starting from [1], multiply by [1, 0 - alpha^i]
        for i in range(enc_len). */
    method GeneratorPoly() returns (gen: seq<nat>)
      requires Valid()
      ensures gen == Generator(field, 2, if encLen < 0 then 0 else encLen)
      ensures |gen| == (if encLen < 0 then 0 else encLen) + 1 && gen[0] == 1
    {
      assert Pow2(8) == 256;
      gen := [1];
      var i := 0;
      while i < encLen
        invariant 0 <= i <= (if encLen < 0 then 0 else encLen)
        invariant gen == Generator(field, 2, i)
      {
        var factor := [1, field.Sub(0, field.Pow(field.alpha, i))];
        assert factor == Factor(field, 2, i);
        var r := polynomials.Mul(gen, factor);
        GeneratorNext(field, 2, i);
        gen := r.value;
        i := i + 1;
      }
    }
  }

  /** `ReedSolomonCodec.__init__`: stores enc_len and constructs
      GF(2^8) with alpha = 2 and prim_poly = 285, failing as that
      construction fails. */
  method NewReedSolomonCodec(encLen: int) returns (r: Result<ReedSolomonCodec, FieldError>)
    ensures r.Ok? <==> Generates(8, 2, 285)
    ensures r.Err? ==> RejectedWith(8, 2, 285, r.error)
    ensures r.Ok? ==> r.value.encLen == encLen && r.value.Valid()
    ensures r.Ok? ==> TablesOf(r.value.field, 8, 2, 285)
  {
    var field := NewGaloisField(2, 8, 2, 285);
    if field.Err? {
      return Err(field.error);
    }
    var polynomials := NewPolynomials(field.value);
    return Ok(ReedSolomonCodec(encLen, field.value, polynomials));
  }
}
