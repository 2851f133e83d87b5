# Verified model of QuadIron's ring engine and fixed-size vector

This project models two parts of the QuadIron erasure-coding library in Dafny and proves properties of the model.

- `RingModN<T>` is the ring Z/NZ that the number-theoretic transforms compute in. It provides:
  - scalar arithmetic on elements `0 <= a < card`;
  - the in-place buffer operations that an NTT butterfly network is built from;
  - the set-up that factors `card - 1`, finds a primitive root, computes element orders and derives `n`-th roots of unity.
- `array::Vector<T>` is a heap buffer whose length is fixed at construction.

Files:

- `errors.dfy` (module `Errors`): the library's `NoSolution`, `InvalidArgument` and `OutOfRange` exceptions, returned as values (`Result`, `Outcome`).
- `arith.dfy` (module `Arith`): specified definitions of the number-theory helpers the ring calls from `arith.h` (power, gcd, extended Euclid, prime factorisation, prime factors with multiplicity, proper divisors), with the modular and divisibility lemmas they need.
- `order.dfy` (module `Order`):
  - the multiplicative order of an element;
  - why the proper-divisor test detects primitive roots;
  - the functional form of the order descent, and its correctness;
  - the order of `g^(h/d)`;
  - what the naive order check accepts.
- `gf_ring.dfy` (module `GfRing`): the class `RingModN`. Its `const card` is at least 2. Its fields `root`, `primes`, `exponents`, `allPrimesFactors` and `properDivisors` are updated in place by `ComputeFactorsOfOrder` and `FindPrimitiveRoot`.
  - Buffers are arrays of `nat`.
  - A plane (`vec::Buffers`) is a sequence of equal-length arrays.
- `vector.dfy` (module `ArrayVector`): the class `Vector` with its buffer `data` and its `size`. It also holds `Swap` and the comparison operators.

Element values are unbounded `nat`. The double-width intermediates of the source only avoid machine overflow, so they need no modelling.

## Model

| member | source | states |
|---|---|---|
| GfRing.RingModN.constructor | src/gf_ring.h:156-161 | a new ring has the given cardinality, root 0 and empty factor lists |
| GfRing.RingModN.Init | src/gf_ring.h:163-171 | after `init` the order `card - 1` is factored and, when the root started as an element, the ring is `Valid` (root below `card`); a preset root is kept; for `card == 2` the root is 1; otherwise a root found from 0 is the least `nb` in `[2, card - 1]` passing the divisor test (0 when none does); under Fermat's theorem for `card`, a root found has order `card - 1` |
| GfRing.RingModN.Add | src/gf_ring.h:199-209 | the conditional subtraction yields `(a + b) mod card`, in range |
| GfRing.RingModN.Sub | src/gf_ring.h:211-221 | the two branches yield `(a - b) mod card` without underflow, in range |
| GfRing.RingModN.Neg | src/gf_ring.h:191-197 | `neg(a)` is `(card - a) mod card` and adds to `a` to give 0 |
| GfRing.RingModN.Mul | src/gf_ring.h:223-230 | the reduced product lies in `[0, card)` |
| GfRing.RingModN.MulLaws | src/gf_ring.h:199-230 | `mul` is commutative and associative, 1 is neutral, 0 absorbs, and `mul` distributes over `add` |
| GfRing.RingModN.AddSubLaws | src/gf_ring.h:191-221 | `sub` undoes `add` in both orders, and `sub(a, b) == add(a, neg(b))` |
| GfRing.RingModN.Inv | src/gf_ring.h:243-263 | the Bezout coefficient folded into `[0, card)` is in range and inverts every unit |
| GfRing.RingModN.InvExact | src/gf_ring.h:243-263 | `mul(a, inv(a)) == 1` if and only if `gcd(a, card) == 1` |
| GfRing.RingModN.Div | src/gf_ring.h:232-241 | for a unit divisor `b`, `mul(div(a, b), b) == a` |
| GfRing.RingModN.ExpQuick | src/gf_ring.h:302-322 | square-and-multiply yields `base^exponent mod card` (the exponent 1 returns the base as given) |
| GfRing.RingModN.Exp | src/gf_ring.h:265-272 | `exp(a, b) == a^b mod card`, in range |
| GfRing.RingModN.ExpSmall | src/gf_ring.h:302-312 | `exp(a, 0) == 1`, `exp(a, 1) == a`, `exp(a, 2) == mul(a, a)` |
| GfRing.RingModN.ExpNaive | src/gf_ring.h:282-300 | repeated multiplication gives the same value as `exp_quick` |
| GfRing.RingModN.LogNaive | src/gf_ring.h:325-339 | returns the least `r` in `[1, card)` with `exp(base, r) == exponent`, or `NoSolution` when no `r` in that range works |
| GfRing.RingModN.IsQuadraticResidue | src/gf_ring.h:509-527 | true exactly when some element `i < card` has `mul(i, i) == q` |
| GfRing.RingModN.MulCoefToBuf | src/gf_ring.h:348-358 | `dest[i] == a * src[i] mod card` for `i < len`; other cells keep their values; `src` may be `dest` |
| GfRing.RingModN.AddTwoBufs | src/gf_ring.h:389-397 | `dest[i] == src[i] + dest[i] mod card` for `i < len`; other cells keep their values |
| GfRing.RingModN.SubTwoBufs | src/gf_ring.h:413-421 | `res[i] == bufa[i] - bufb[i] mod card` for `i < len`; other cells keep their values |
| GfRing.RingModN.HadamardMul | src/gf_ring.h:857-863 | `x[i] == x[i] * y[i] mod card` for `i < n`; the rest of `x` keeps its values |
| GfRing.RingModN.HadamardMulDoubled | src/gf_ring.h:865-880 | `y[0..n/2)` multiplies both `x[0..n/2)` and `x[n/2..2(n/2))` element-wise; cells from `2(n/2)` on keep their values |
| GfRing.RingModN.AddDoubled | src/gf_ring.h:882-897 | `y[0..n/2)` is added to both halves of `x` element-wise; cells from `2(n/2)` on keep their values |
| GfRing.RingModN.NegBuf | src/gf_ring.h:899-906 | `x[i] == -x[i] mod card` for `i < n`; the rest keeps its values |
| GfRing.RingModN.ButterflyCt | src/gf_ring.h:439-464 | from the old `a = P[i]` and `b = Q[i]`: `P[i] == a + c*b` and `Q[i] == a - c*b` (mod card); cells from `len` on keep their values |
| GfRing.RingModN.ButterflyGs | src/gf_ring.h:466-492 | from the old `a = P[i]` and `b = Q[i]`: `P[i] == a + b` and `Q[i] == c*(a - b)` (mod card); cells from `len` on keep their values |
| GfRing.RingModN.ButterflyRoundTrip | src/gf_ring.h:439-492 | for a unit `c`, the Gentleman-Sande butterfly with `inv(c)` maps the Cooley-Tukey outputs back to `2a` and `2b` |
| GfRing.RingModN.MulRow | src/gf_ring.h:371-386 | each coefficient branch (multiply, copy for 1, zero-fill for 0, copy-and-negate for `card - 1`) gives `c * src` for every coefficient below `card`; a larger coefficient leaves the row alone |
| GfRing.RingModN.MulVecToVecp | src/gf_ring.h:360-387 | row `i` of `dest` becomes `u[i] * src[i]` element-wise (unchanged when `u[i] >= card`) |
| GfRing.RingModN.AddVecpToVecp | src/gf_ring.h:399-411 | every row of `dest` becomes `src + dest` element-wise |
| GfRing.RingModN.SubVecpToVecp | src/gf_ring.h:423-437 | every row of `res` becomes `veca - vecb` element-wise |
| GfRing.RingModN.NegPlane | src/gf_ring.h:908-915 | every element of every row is negated |
| GfRing.RingModN.ComputeOmegas | src/gf_ring.h:529-541 | `W[i] == w^i mod card` for `i < n`; for `w` of order `n` these `n` values are distinct |
| GfRing.RingModN.ComputeFactorsOfOrder | src/gf_ring.h:494-507 | leaves the ascending prime factorisation of `card - 1`, the primes repeated by exponent, and the proper divisors `(card - 1) / p`; the root is untouched |
| GfRing.RingModN.IsPrimitiveRoot | src/gf_ring.h:633-647 | true exactly when `nb^d != 1` for every stored proper divisor `d` |
| GfRing.RingModN.RootTestExact | src/gf_ring.h:626-647 | on a factored ring, for `nb^(card-1) == 1`, the divisor test holds exactly when `nb` has order `card - 1` |
| GfRing.RingModN.FindPrimitiveRoot | src/gf_ring.h:649-692 | a preset root is kept; `card == 2` gives 1; otherwise the root is the least `nb` in `[2, card - 1]` that passes the test, or 0 when none does; the factor lists are untouched |
| GfRing.RingModN.DoStepGetOrder | src/gf_ring.h:700-732 | the popping loop with its recursion computes the descent `Order.OrderStep` |
| GfRing.RingModN.OrderOfCorrect | src/gf_ring.h:734-770 | for a unit `x` with `x^(card-1) == 1`, the value `get_order` computes is the order of `x` |
| GfRing.RingModN.GetOrder | src/gf_ring.h:757-770 | `get_order(0) == get_order(1) == 1`; for any other unit with `x^(card-1) == 1`, the result is its order |
| GfRing.RingModN.CheckPrimitiveRoot | src/gf_ring.h:772-782 | true exactly when `get_order(nb) == card - 1`, that is, for a unit with `nb^(card-1) == 1`, exactly when `nb` has order `card - 1` |
| GfRing.RingModN.PrimitiveRootChecksAgree | src/gf_ring.h:633-782 | the divisor test of `is_primitive_root` and the descent of `check_primitive_root` agree on every unit with `nb^(card-1) == 1` |
| GfRing.RingModN.CheckOrderNaive | src/gf_ring.h:784-803 | the code as written: accepts when `nb^order == 1` and `nb^k != 1` for `1 <= k < order - 1` |
| GfRing.RingModN.CheckOrderNaiveCorrected | src/gf_ring.h:784-803 | with the loop running up to `order`, accepts exactly when `order` is the order of `nb` |
| GfRing.RingModN.GetNthRoot | src/gf_ring.h:805-813 | from a primitive root, `root^((card-1)/d)` with `d = gcd(n, card-1)` has order `d`, so its `n`-th power is 1; when `n` divides `card - 1` its order is exactly `n` |
| Order.OrderDivides | src/gf_ring.h:734-756 | for `x` of order `m`, `x^e == 1` if and only if `m` divides `e` |
| Order.RootTestCorrect | src/gf_ring.h:626-647 | when `x^h == 1`, `x` has order `h` if and only if `x^(h/p) != 1` for every prime `p` of `h` |
| Order.OrderStepCorrect | src/gf_ring.h:700-756 | from the descent invariant (the order divides `h`, and `h / order` divides the remaining prime powers), the descent returns the order |
| Order.RootPowerOrder | src/gf_ring.h:805-813 | if `g` has order `h` and `d` divides `h`, then `g^(h/d)` has order `d` |
| Order.PowersDistinct | src/gf_ring.h:529-541 | the powers `w^0 .. w^(m-1)` of an element of order `m` are pairwise distinct |
| Order.NaiveOrderAcceptsExactly | src/gf_ring.h:784-803 | the early-stopping check accepts exactly the true orders plus the single wrong answer "1 has order 2" |
| Order.NaiveOrderFlaw | src/gf_ring.h:784-803 | `nb = 1`, `order = 2` passes the check as written, yet 1 does not have order 2 |
| Order.ProperDivisors | src/gf_ring.h:504-506 | one proper divisor `h / p` per prime `p` of the factorisation, each in `[1, h)` |
| Arith.ExtendedGcd | src/gf_ring.h:243-257 | the first component is `gcd(a, b)` |
| Arith.Bezout | src/gf_ring.h:243-257 | the coefficients satisfy `a*x + b*y == gcd(a, b)` |
| Arith.ExtendedGcdBounds | src/gf_ring.h:243-257 | `abs(x) * g <= b` and `abs(y) * g <= a`, so the folded coefficient is below `card` |
| Arith.FactorPrime | src/gf_ring.h:494-500 | returns ascending primes with positive exponents whose product is `h` |
| Arith.GetPrimeFactors | src/gf_ring.h:501-503 | for ascending primes, each prime occurs in the list exactly its exponent times; every entry is one of the primes; the list has `sum(es)` entries and multiplies out to `h` |
| Arith.GetProperDivisors | src/gf_ring.h:504-506 | `r[i] * ps[i] == h` and `1 <= r[i] < h` for every listed prime |
| Arith.GcdDivides | src/gf_ring.h:805-813 | `gcd(a, b)` divides both `a` and `b` |
| ArrayVector.Vector.constructor | src/array/vector.h:105-119 | a vector of `n` elements |
| ArrayVector.Vector.Fill | src/array/vector.h:121-133 | `n` copies of `val` |
| ArrayVector.Vector.FromRange | src/array/vector.h:135-165 | the elements of the range, in order (the initializer-list constructor at lines 197-210 delegates to it) |
| ArrayVector.Vector.Copy | src/array/vector.h:167-177 | a fresh buffer with the same contents |
| ArrayVector.Vector.Move | src/array/vector.h:179-195 | takes over the source's buffer and size; the source is left empty |
| ArrayVector.Vector.CopyAssign | src/array/vector.h:225-245 | `InvalidArgument` exactly on a size mismatch, leaving the vector as it was; otherwise a fresh buffer equal to the source |
| ArrayVector.Vector.MoveAssign | src/array/vector.h:247-271 | sizes must agree; takes over the source's buffer; a distinct source is left empty |
| ArrayVector.Vector.InitListAssign | src/array/vector.h:273-293 | `InvalidArgument` exactly on a size mismatch, leaving the contents as they were; otherwise the list is copied into the same buffer |
| ArrayVector.Vector.Size | src/array/vector.h:477-486 | the number of elements |
| ArrayVector.Vector.MaxSize | src/array/vector.h:488-500 | equals `size()` |
| ArrayVector.Vector.Empty | src/array/vector.h:502-513 | true exactly when there are no elements |
| ArrayVector.Vector.Get | src/array/vector.h:518-540 | element `idx` of the contents |
| ArrayVector.Vector.Set | src/array/vector.h:518-533 | writing through `[]` changes element `idx` only |
| ArrayVector.Vector.At | src/array/vector.h:542-567 | `OutOfRange` exactly when `idx >= size()`, otherwise element `idx` |
| ArrayVector.Vector.SetAt | src/array/vector.h:542-558 | `OutOfRange` exactly when `idx >= size()`, with nothing changed; otherwise only element `idx` changes |
| ArrayVector.Vector.Front | src/array/vector.h:569-585 | the first element of a non-empty vector |
| ArrayVector.Vector.Back | src/array/vector.h:587-604 | the last element of a non-empty vector |
| ArrayVector.Vector.SetFront | src/array/vector.h:569-578 | writing through `front` changes the first element only |
| ArrayVector.Vector.SetBack | src/array/vector.h:587-597 | writing through `back` changes the last element only |
| ArrayVector.Swap | src/array/vector.h:722-729 | the two vectors exchange buffers, sizes and contents |
| ArrayVector.Equal | src/array/vector.h:626-637 | true exactly when both the sizes and the contents are equal |
| ArrayVector.NotEqual | src/array/vector.h:639-650 | true exactly when the contents differ |
| ArrayVector.LexLessIsLexBelow | src/array/vector.h:652-671 | the element-by-element walk is the lexicographic ordering: a common prefix, then a shorter left side or a smaller left element |
| ArrayVector.LexTrichotomy | src/array/vector.h:652-671 | exactly one of `a < b`, `a == b`, `b < a` holds |
| ArrayVector.LexTransitive | src/array/vector.h:652-671 | the ordering is transitive |
| ArrayVector.PrefixIsLess | src/array/vector.h:652-666 | a strict prefix is less than the longer sequence |
| ArrayVector.Less | src/array/vector.h:652-671 | `<` is the lexicographic ordering of the contents |
| ArrayVector.Greater | src/array/vector.h:673-686 | `>` holds exactly when the left side is neither less than nor equal to the right side |
| ArrayVector.LessEq | src/array/vector.h:688-702 | `<=` is less-or-equal |
| ArrayVector.GreaterEq | src/array/vector.h:704-718 | `>=` is greater-or-equal |

## Left out

- `compute_omegas_cached` is not modelled: it reads and writes a cache file.
- `weak_rand` is not modelled: it draws from a process-wide random generator.
- The SIMD specialisations are not modelled: their bodies are not part of this model.
- `get_code_len` and `get_code_len_high_compo` are not modelled: they reduce to an assertion and a call into `arith.h`, which is not part of this model.
- `src/fft.h` is not modelled. It is an interface over types that are not part of this model; its only arithmetic is `inv(n)`, covered by `Inv`.
- `src/core.h` is not modelled: it holds widening traits that have no meaning over unbounded integers, and a field-only struct.
- The `create`/`alloc` factories, `replicate`, `card`, `card_minus_one`, `check`, `get_root` and `get_primitive_root` are not modelled as members: they are trivial, and the model reads `card` and `root` directly.
- `log` is folded into `LogNaive`, which already requires the base to be an element.
- The helpers from `arith.h` (`factor_prime`, `get_prime_factors`, `get_proper_divisors`, `gcd`, `extended_gcd`) are given their own specified definitions, because that file is not part of this model.
- Arith.ExtendedGcd: the exact coefficients the library's `extended_gcd` returns may differ. Only the Bezout identity and the size bounds are relied on.
- GfRing.Card: cardinalities 0 and 1 are excluded, because the factorisation of `card - 1` is meaningless for them.
- GfRing.RingModN.Exp: the debug assertion that the exponent is an element is not required. `is_quadratic_residue` calls `exp(i, 2)`, which breaks it for `card == 2`.
- GfRing.RingModN.Mul: its contract states only the range. The value is fixed by the reduction in its body, and its algebra is stated in `MulLaws`.
- GfRing.RingModN.Add: wrap-around of `a + b` in the machine type `T` is not modelled. It would matter only when `card` exceeds half the range of `T`.
- GfRing.RingModN.GetOrder: correctness is proved under the premise `x^(card-1) == 1`. That is Fermat's little theorem, which holds for prime `card` and is not proved here.
- GfRing.RingModN.Init: the premise `FermatHolds(card)` is stated, not proved. That a primitive root exists (so that the search never ends with 0) is not proved either.
- GfRing.RingModN.FindPrimitiveRoot: when no candidate passes, the source aborts with `assert(false)`; the model leaves the root at 0 instead.
- GfRing.RingModN.DoStepGetOrder: the source mutates the vectors it is given. The model takes them as values, because `get_order` passes copies and the mutation cannot be observed.
- GfRing.RingModN.CheckOrderNaive: order 0 is excluded. In the source, `order - 1` wraps around for the unsigned type.
- GfRing.RingModN.ButterflyCt: the two buffers must be distinct arrays. The same holds for `ButterflyGs`, and `x` and `y` must be distinct for `HadamardMulDoubled` and `AddDoubled`.
- GfRing.RingModN.MulVecToVecp: every source element must be an element of the ring, even in rows whose coefficient is 0, 1 or out of range. The destination plane has the source's row count and row size. Rows of a destination plane must be distinct arrays, and distinct from the source rows at other indices; the same holds for `AddVecpToVecp`, `SubVecpToVecp` and `NegPlane`.
- GfRing.RingModN.ComputeOmegas: `vec::Vector` and `vec::Buffers` are not part of this model. They are modelled as an array and as a sequence of equal-length arrays.
- Negative `int` lengths are not modelled. The source passes `int` lengths to `hadamard_mul`, `hadamard_mul_doubled`, `add_doubled` and `compute_omegas`; a negative length makes the loops do nothing, and the model takes a `nat`.
- ArrayVector.Vector: the iterators, the allocator, `data()` and the pointer-identity checks of the move tests are not modelled. The contents after `Vector(n)` are left unspecified.
- ArrayVector.Less: comparisons are modelled for integer elements, whose `<` is the element ordering.

## Findings

| source | as written | input that shows it | evidently intended | confidence | as-written member | corrected member |
|---|---|---|---|---|---|---|
| src/gf_ring.h:787-803 | the loop runs while `i < order - 1`, so the power `nb^(order-1)` is never compared with 1 | `nb = 1`, `order = 2`: `1^2 == 1` and the loop body never runs, so the check answers true, yet 1 has order 1 (`Order.NaiveOrderFlaw`) | test every exponent `1 <= i < order` | not executed | GfRing.RingModN.CheckOrderNaive | GfRing.RingModN.CheckOrderNaiveCorrected |
