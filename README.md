# GF(2^n) arithmetic, polynomials and the Reed-Solomon generator

This project models the arithmetic core of a small Reed-Solomon library
and proves properties of that model:

- **The field** (`galoisfield.py`, module `Galois` in `galoisfield.dfy`).
  - Construction validates `p` and `n`. It then fills an exponent table
    `expLUT` and a logarithm table `logLUT` by repeated carry-less
    multiplication by `alpha`, reducing by `prim_poly` (`standard_mul`).
    It rejects `alpha` and `prim_poly` when a power of alpha comes round
    again.
  - Addition and subtraction are exclusive or. `mul`, `div`, `pow` and
    `inverse` are table look-ups.
  - A constructed field is a `GaloisField` value that holds both tables.
    Its `Valid()` predicate says the tables describe the cyclic group of
    non-zero elements. The field laws in `fieldlaws.dfy` (module
    `FieldLaws`) are proved from `Valid()` alone, with `n`, `alpha` and
    `prim_poly` left symbolic.
- **Polynomials** (`polynomials.py`, module `Polynomial`).
  - A polynomial is a list of coefficients, highest degree first.
  - `add` right-aligns its operands. `mul` adds every product `p[i]*q[j]`
    into entry `i + j`. `scalar` multiplies every coefficient.
  - All three reject a coefficient above `cap`.
  - `add` and `mul` are methods with the source's array loops. They are
    proved equal to the specification functions `Sum` and `Product`.
- **The codec** (`reedsolomon.py`, module `ReedSolomon`).
  - The constructor fixes GF(2^8) with `alpha = 2` and
    `prim_poly = 285`.
  - `generator_poly` multiplies `[1]` by `(x - alpha^i)` for
    `i < enc_len`. It is proved equal to the recursive product
    `Generator`, which is monic, of degree `enc_len`, has coefficients in
    the field, and has constant term `alpha^(0 + 1 + ... + (enc_len - 1))`.

`bits.dfy` (module `Bits`) defines exclusive or and bit tests on
naturals, as Python's `^`, `&`, `<<` and `>>` act on non-negative
integers. `results.dfy` holds the `Result` type that models a raised
exception.

Python's exceptions become `Err` values:

- `FieldError` covers `ValueError`, `NotImplementedError`, the
  `IndexError` raised when a power of alpha is not below `size`, and
  `ZeroDivisionError`.
- `PolyError` covers the coefficient `ValueError`.

Python's negative list indices, used by `div` and `inverse`, are written
out by `PyIndex`. Python's `%` in `pow` has a positive modulus there, so
it agrees with Dafny's `%`.

The code in `galoisfield.py` differs from the documented behaviour in one
place: it accepts some moduli whose powers of alpha reach 0. See
"Findings" below. The model follows the code for that check in
`BuildTablesAsWritten`. The rest of the model uses the corrected
`BuildTables`.

## Model

| member | source | states |
|---|---|---|
| Galois.IsPrime | galoisfield.py:37-48 | The result is false below 2; otherwise it is true exactly when no d with 2 <= d and d*d <= x divides x. This is proved equivalent to primality: no divisor in [2, x). |
| Galois.StandardMul | galoisfield.py:70-85 | The shift-and-reduce loop computes `StdMul`. Multiplying by y <= 0 gives 0 and multiplying by 1 gives x. If prim_poly has bit n as its top bit and x < size, the result stays below size. |
| Galois.ShiftReduceBound | galoisfield.py:81-84 | One shift followed by the conditional reduction keeps a value below size when prim_poly's top bit is bit n. |
| Galois.StdMulBound | galoisfield.py:77-85 | Every standard_mul result stays below size when prim_poly's top bit is bit n and x < size. |
| Galois.NewGaloisField | galoisfield.py:7-34 | Fails with InvalidPrime for a non-prime p, with UnsupportedPrime for a prime above 2, and with InvalidPower for n <= 0. For p == 2 and n > 0 it succeeds exactly when alpha^0 .. alpha^(cap-1) are cap distinct non-zero elements below size. Otherwise it fails with the error of the first faulty power. On success the tables hold exactly those powers and their logarithms, and the field is Valid. |
| Galois.BuildTables | galoisfield.py:23-34 | The table loop, corrected to reject a power equal to 0. It succeeds exactly when alpha generates. A failure carries the first fault's error: IndexError when the power is not below size, otherwise the alpha/prim_poly ValueError. On success expLUT[i] == alpha^i and logLUT[alpha^i] == i for i < cap, and the field is Valid. |
| Galois.BuildTablesAsWritten | galoisfield.py:28-34 | The table loop exactly as written. It succeeds exactly when no power reaches size or revisits an earlier one; a power equal to 0 is not caught. A failure carries the first as-written fault's error. On success the tables record every power of alpha. |
| Galois.Record | galoisfield.py:32-34 | Entering a fresh power alpha^i into both halves of expLUT and into logLUT extends the invariant "entries 0..i recorded, logs point back". The next value computed is alpha^(i+1). |
| Galois.Enter | galoisfield.py:32-33 | The two writes `expLUT[i] = expLUT[i+cap] = a` and the write `logLUT[a] = i`. Nothing else in the tables changes. |
| Galois.RecordedStart | galoisfield.py:25-26 | Fresh tables of -1 satisfy the loop invariant with nothing recorded. |
| Galois.ExpStep | galoisfield.py:32 | Writing alpha^i at i and i + cap extends the exponent-table part of the invariant. |
| Galois.LogStep | galoisfield.py:33 | Writing i at logLUT[alpha^i], when alpha^i is new, keeps every recorded log correct. |
| Galois.BackStep | galoisfield.py:33 | The same write keeps every set log entry pointing at a power that has that log. |
| Galois.FilledFault | galoisfield.py:30 | If the first i powers are recorded and none of them faulted, the corrected test at step i (the power is 0, is not below size, or finds its logLUT slot taken) holds exactly when step i is the first fault. |
| Galois.FilledAsWrittenFault | galoisfield.py:30 | The same for the test as written, `logLUT[a] != -1` together with the IndexError, against the as-written notion of fault. |
| Galois.FirstFaultRejects | galoisfield.py:30-31 | The first faulty power means alpha does not generate, and its error is the one construction reports. |
| Galois.FirstFaultAsWrittenRejects | galoisfield.py:30-31 | The same for the check as written. |
| Galois.FilledAsWrittenDone | galoisfield.py:28-34 | A loop that ran to the end with the check as written accepted the parameters and recorded every power. |
| Galois.FilledTablesValid | galoisfield.py:28-34 | When cap distinct non-zero powers are recorded, they are a permutation of 1..cap (pigeonhole). So alpha generates, and the tables satisfy Valid: expLUT[0] == 1, logLUT[0] == -1, both halves of expLUT agree, and logLUT and expLUT are inverse on the non-zero elements. |
| Galois.DistinctCover | galoisfield.py:29 | cap distinct values in [1, cap] cover all of [1, cap]. So cap distinct non-zero powers of alpha reach every non-zero element, as the loop's cap iterations assume. |
| Galois.ReducedPowers | galoisfield.py:34 | With n = 2, alpha = 2 and prim_poly = 4, the loop computes the powers 1, 2, 0. |
| Galois.ReducibleModulusAccepted | galoisfield.py:30-31 | GaloisField(2, 2, 2, 4) passes the check as written even though alpha does not generate: the powers are 1, 2, 0, and element 3 is never reached and gets no logarithm. |
| Galois.PyIndex | galoisfield.py:103 | Python's index into a list of length len, for -len <= i < len, is i or i + len, and lies in range. |
| Galois.GaloisField.Add | galoisfield.py:50-58 | add is `^` on naturals. The sum of two field elements is a field element, and it is 0 exactly when the operands are equal. Its laws are FieldLaws.AddComm, AddAssoc, AddZero, AddSelf and AddClosed. |
| Galois.GaloisField.Sub | galoisfield.py:60-68 | sub is `^` on naturals, the inverse of add: add(sub(x, y), y) == x, and sub(x, y) is 0 exactly when x == y. See also FieldLaws.SubAfterAdd and SubFromZero. |
| Galois.GaloisField.Mul | galoisfield.py:87-93 | The product of field elements is a field element, and it is 0 exactly when an operand is 0. The index log x + log y is within the double-length table. |
| Galois.GaloisField.Div | galoisfield.py:95-103 | Division fails exactly when y == 0, with ZeroDivisionError. Otherwise the quotient is a field element, and it is 0 exactly when x is 0. |
| Galois.GaloisField.Pow | galoisfield.py:105-109 | Every power, including one of 0 read through the -1 sentinel, is a non-zero field element. |
| Galois.GaloisField.Inverse | galoisfield.py:111-115 | The inverse, read through a negative index, is a non-zero field element. |
| Galois.ExpEntry | galoisfield.py:25 | Every entry of the double-length exponent table is a non-zero element whose logarithm is its index reduced into [0, cap). |
| FieldLaws.AddComm | galoisfield.py:50-58 | add is commutative. |
| FieldLaws.AddAssoc | galoisfield.py:57 | add is associative. |
| FieldLaws.AddZero | galoisfield.py:57 | 0 is the neutral element of add. |
| FieldLaws.AddSelf | galoisfield.py:57 | add(x, x) == 0: every element is its own negative. |
| FieldLaws.AddClosed | galoisfield.py:57 | The sum of two field elements is a field element. |
| FieldLaws.SubAfterAdd | galoisfield.py:60-68 | sub undoes add: sub(add(x, y), y) == x. |
| FieldLaws.SubFromZero | galoisfield.py:67 | sub(0, x) == x, as the generator's factor relies on. |
| FieldLaws.LogInjective | galoisfield.py:33 | Different non-zero elements have different logarithms. |
| FieldLaws.LogOne | galoisfield.py:28-33 | log 1 == 0. |
| FieldLaws.MulLog | galoisfield.py:93 | log(x*y) == (log x + log y) mod cap for non-zero x and y. |
| FieldLaws.MulComm | galoisfield.py:91-93 | mul is commutative. |
| FieldLaws.MulOne | galoisfield.py:91-93 | 1 is the neutral element of mul. |
| FieldLaws.MulAssoc | galoisfield.py:91-93 | mul is associative, including when an operand is 0. |
| FieldLaws.MulLogLeft | galoisfield.py:93 | log((x*y)*z) is the sum of the three logarithms mod cap. |
| FieldLaws.MulLogRight | galoisfield.py:93 | log(x*(y*z)) is the sum of the three logarithms mod cap. |
| FieldLaws.MulInverse | galoisfield.py:111-115 | x * inverse(x) == 1 for non-zero x. |
| FieldLaws.DivThenMul | galoisfield.py:95-103 | For non-zero y, div(x, y) succeeds and div(x, y) * y == x. |
| FieldLaws.MulThenDiv | galoisfield.py:95-103 | For non-zero y, div(x * y, y) == x. |
| FieldLaws.PowLog | galoisfield.py:109 | log(x^p) == (log x * p) mod cap for non-zero x and any integer p. |
| FieldLaws.PowZero | galoisfield.py:109 | x^0 == 1. |
| FieldLaws.PowSucc | galoisfield.py:109 | x^(p+1) == x^p * x for non-zero x. |
| FieldLaws.PowAdd | galoisfield.py:109 | x^a * x^b == x^(a+b) for non-zero x and any integers a and b. |
| FieldLaws.PowOfZero | galoisfield.py:109 | pow(0, p) reads log 0 as -1, giving the non-zero element of logarithm (-p) mod cap rather than 0. |
| Bits.XorZero | galoisfield.py:57 | 0 is neutral for `^`. |
| Bits.XorComm | galoisfield.py:57 | `^` is commutative. |
| Bits.XorSelf | galoisfield.py:57 | x ^ x == 0. |
| Bits.XorZeroIff | galoisfield.py:57 | x ^ y == 0 exactly when x == y. |
| Bits.XorBit | galoisfield.py:57 | Bit k of x ^ y is set exactly when it is set in exactly one of x and y. |
| Bits.SameBits | galoisfield.py:57 | Naturals with the same bits are equal. |
| Bits.XorAssoc | galoisfield.py:57 | `^` is associative. |
| Bits.XorBound | galoisfield.py:57 | The `^` of two k-bit values is a k-bit value. |
| Bits.XorHighBit | galoisfield.py:83-84 | Reducing a value whose top bit is bit n by prim_poly, whose top bit is also bit n, gives a value below 2^n. |
| Bits.TestTopBit | galoisfield.py:83 | For x below 2^(n+1), `x & size` is set exactly when x > size - 1, as the source comment says. |
| Polynomial.CheckRange | polynomials.py:9-14 | The range-check loop passes exactly when every coefficient is at most cap. |
| Polynomial.Padded | polynomials.py:16-18 | p right-aligned in a list of length m holds p's coefficient of x^d at position m-1-d, and 0 beyond p's degree. |
| Polynomial.NewPolynomials | polynomials.py:4-6 | The operations hold the given field, with cap equal to its size - 1. Any field is accepted; when the field is Valid, so are the operations. |
| Polynomial.Polynomials.Add | polynomials.py:8-21 | add fails exactly when a coefficient of p or q exceeds cap, with the coefficient ValueError. Otherwise its two loops build the right-aligned sum `Sum(p, q)`. |
| Polynomial.Polynomials.Mul | polynomials.py:23-36 | mul fails exactly when a coefficient exceeds cap. Otherwise its nested loops build the convolution `Product(field, p, q)`. |
| Polynomial.Polynomials.AddRow | polynomials.py:32-35 | One pass of the outer loop adds p[i]*q[j] into entry i + j for every j. Every entry then includes the terms of p[0..i]. |
| Polynomial.Polynomials.Scalar | polynomials.py:38-45 | scalar fails exactly when a coefficient or x exceeds cap; otherwise the result has p's length. |
| Polynomial.SumCoeff | polynomials.py:16-20 | add's result has length max(len p, len q). Its coefficient of every degree d is the `^` of p's and q's coefficients of degree d, with missing terms as 0. |
| Polynomial.SumComm | polynomials.py:17-21 | add is commutative. |
| Polynomial.SumSelf | polynomials.py:17-21 | add(p, p) is all zeros. |
| Polynomial.SumEmpty | polynomials.py:17-21 | Adding the empty polynomial changes nothing. |
| Polynomial.SumInRange | polynomials.py:17-20 | The sum of polynomials with field coefficients has field coefficients. |
| Polynomial.ConvStep | polynomials.py:34-35 | Entry k of the partial product over p[0..i+1] is entry k over p[0..i] plus p[i]*q[k-i], when that q entry exists. |
| Polynomial.ConvStepAt | polynomials.py:34-35 | The same step, written for k == i + j - 1 as the inner loop visits it. |
| Polynomial.RowSumNext | polynomials.py:33-35 | One inner-loop step writes res[i+j] + p[i]*q[j] at i + j and changes nothing else. |
| Polynomial.RowSumAt | polynomials.py:33-35 | After j inner steps, entry k has gained p[i]*q[j-1] only when k == i + j - 1. |
| Polynomial.RowSumConv | polynomials.py:33-35 | After the inner loop over j < len q, exactly the entries i .. i + len q - 1 have gained their p[i] term. |
| Polynomial.RowSumConvHit | polynomials.py:35 | The entry the current step writes gains its p[i] term. |
| Polynomial.RowSumConvMiss | polynomials.py:35 | Every other entry is unchanged by the step. |
| Polynomial.ConvInRange | polynomials.py:34-35 | Every partial convolution sum is a field element. |
| Polynomial.ProductInRange | polynomials.py:31-35 | mul's result has field coefficients. |
| Polynomial.ConvSingle | polynomials.py:31-35 | Multiplying by a one-coefficient polynomial [c] leaves p[k]*c in entry k. |
| Polynomial.ProductConstant | polynomials.py:31-35 | p * [c] has p's length, and entry k is p[k]*c. |
| Polynomial.ProductOne | polynomials.py:31-36 | mul(p, [1]) == p. |
| Polynomial.ProductOneLeft | polynomials.py:31-36 | mul([1], q) == q for non-empty q. |
| Polynomial.ConvFirst | polynomials.py:34-35 | Only p[0]*q[0] contributes to entry 0. |
| Polynomial.ProductLeading | polynomials.py:31-35 | For non-empty p and q the product has length len p + len q - 1, and its leading coefficient is the product of the leading coefficients. |
| Polynomial.ConvLastZero | polynomials.py:34-35 | No p[i] with i < len p - 1 contributes to the last entry. |
| Polynomial.ProductTrailing | polynomials.py:31-35 | The constant term of the product is the product of the constant terms. |
| Polynomial.ScalarIsProduct | polynomials.py:45 | scalar(p, x) equals mul(p, [x]) on valid input: coefficient-wise x * p[i]. |
| Polynomial.ScalarZeroOne | polynomials.py:45 | scalar(p, 0) is all zeros, and scalar(p, 1) == p. |
| ReedSolomon.Factor | reedsolomon.py:14 | The factor `[1, sub(0, pow(alpha, i))]` is [1, alpha^i] and has field coefficients. |
| ReedSolomon.Generator | reedsolomon.py:12-14 | The product of k factors has length k + 1, leading coefficient 1 (monic) and field coefficients. |
| ReedSolomon.GeneratorNext | reedsolomon.py:13-14 | The generator with k + 1 factors is the one with k multiplied by the next factor. |
| ReedSolomon.GeneratorLast | reedsolomon.py:14 | Each factor multiplies the constant term by alpha^k. |
| ReedSolomon.TriangleStep | reedsolomon.py:14 | alpha^(0+..+(k-2)) * alpha^(k-1) == alpha^(0+..+(k-1)). |
| ReedSolomon.GeneratorConstant | reedsolomon.py:12-14 | The constant term of the generator with k factors is the product of its roots, x0^(0 + 1 + ... + (k-1)). |
| ReedSolomon.GeneratorOne | reedsolomon.py:14 | With enc_len = 1 the generator is [1, 1]. |
| ReedSolomon.ReedSolomonCodec.GeneratorPoly | reedsolomon.py:11-15 | The loop returns the product of the first enc_len factors: monic, of length enc_len + 1, with [1] for enc_len <= 0. |
| ReedSolomon.NewReedSolomonCodec | reedsolomon.py:5-9 | The codec keeps enc_len unchanged. It holds GF(2^8) built from (2, 8, 2, 285): its tables hold exactly the powers of 2 modulo 285 and their logarithms, and its polynomial operations work over that field. Construction succeeds exactly when those parameters generate the field. |

## Left out

- The p > 2 branches of `add`, `sub` and `standard_mul` only raise `NotImplementedError`. No constructed field has another prime, so they are dead code. `GaloisField` has no `prime` field. Construction rejects a prime above 2 with `UnsupportedPrime`.
- Galois.GaloisField.Mul, Div, Pow and Inverse require operands below size. For larger or negative operands the source raises `IndexError` or silently reads another entry; that behaviour is not modelled.
- Coefficients, prim_poly and operands are naturals. The source's `i > cap` check lets negative coefficients through to `^` on negative integers; that is not modelled. `alpha` is any integer, and a non-positive alpha makes `standard_mul` return 0, as in the source.
- ReedSolomon.NewReedSolomonCodec: that (2, 8, 2, 285) does generate GF(2^8) is not proved. Evaluating the 255-step table loop in the verifier is too costly, so the constructor's contract is stated in terms of `Generates(8, 2, 285)`.
- Table multiplication (`mul`) is not proved equal to `standard_mul`. The field laws follow from the tables' validity, not from polynomial arithmetic modulo prim_poly.
- Distributivity of `mul` over `add` is not proved. It holds for the tables only through their agreement with `standard_mul`.
- ReedSolomon.Generator: only its shape and constant term are proved. That alpha^0 .. alpha^(enc_len-1) are its roots is not proved, because that needs distributivity.
- `ReedSolomonCodec.encode` is a stub (`pass`) with no behaviour. A message length, systematic encoding and erasure decoding are described for this library but are not in `reedsolomon.py`, so the model follows the code and has none of them.
- matrix.py and example.py are not part of this model: the first is unrelated integer matrix code, and the second is a driver script that prints.
- Polynomial.Polynomials.Scalar: its contract states validity and length only. Its coefficient-wise meaning is proved as `ScalarIsProduct` and `ScalarZeroOne`.

## Findings

| source | as written | input that shows it | evidently intended | confidence | as-written member | corrected member |
|---|---|---|---|---|---|---|
| galoisfield.py:30 | A repeated power of alpha is detected by `logLUT[a] != -1`. `logLUT[0]` keeps the -1 "unvisited" sentinel, so a power equal to 0 is accepted once and gets logarithm i. | `GaloisField(2, 2, 2, 4)`: prim_poly x^2 is reducible. The powers are 1, 2, 0, construction succeeds, element 3 never appears in `expLUT`, and `logLUT[3]` stays -1. | Reject alpha/prim_poly whenever a power of alpha is 0 or repeats, so that a constructed field's tables cover every non-zero element. | not executed | Galois.BuildTablesAsWritten, Galois.ReducibleModulusAccepted | Galois.BuildTables |
