/** The ring Z/NZ of `RingModN`: scalar arithmetic on elements `0 <= a < card`,
    the in-place buffer operations an NTT butterfly network is built from,
    and the number-theoretic set-up (factorisation of `card - 1`, primitive
    root, orders, `n`-th roots). */
module GfRing {
  import opened Arith
  import opened Order
  import opened Errors

  /** Cardinalities the ring is built with; `card - 1` is the order of the
      multiplicative group, so 0 and 1 are excluded. */
  type Card = n: nat | n >= 2 witness 2

  /** A plane of buffers (`vec::Buffers`): rows of `size` elements each. */
  datatype Buffers = Buffers(mem: seq<array<nat>>, size: nat)
  {
    predicate Valid()
    {
      forall i :: 0 <= i < |mem| ==> mem[i].Length == size
    }

    ghost function Rows(): set<array<nat>>
    {
      set i | 0 <= i < |mem| :: mem[i]
    }
  }

  /** Rows of `dest` are distinct arrays, and a row of `dest` is never a
      row of `src` at another index (it may be the same row, in place). */
  ghost predicate Separate(src: Buffers, dest: Buffers)
  {
    && (forall i, j :: 0 <= i < j < |dest.mem| ==> dest.mem[i] != dest.mem[j])
    && (forall i, j :: 0 <= i < |dest.mem| && 0 <= j < |src.mem| && i != j ==> dest.mem[i] != src.mem[j])
  }

  class RingModN {
    const card: Card
    var root: nat
    var primes: seq<nat>
    var exponents: seq<nat>
    var allPrimesFactors: seq<nat>
    var properDivisors: seq<nat>

    /** A fresh ring has no root (0) and no factorisation yet. */
    constructor (card: Card)
      ensures this.card == card && root == 0
      ensures primes == [] && exponents == [] && allPrimesFactors == [] && properDivisors == []
    {
      this.card := card;
      root := 0;
      primes := [];
      exponents := [];
      allPrimesFactors := [];
      properDivisors := [];
    }

    // -------------------------------------------------------------------
    // Scalar arithmetic
    // -------------------------------------------------------------------

    /** `add`: one conditional subtraction brings the sum back in range. */
    function Add(a: nat, b: nat): (r: nat)
      requires a < card && b < card
      ensures r < card && r == (a + b) % card
    {
      var c := a + b;
      if c >= card then
        ModUnique(c, card, 1, c - card);
        c - card
      else
        ModSmall(c, card);
        c
    }

    /** `sub`: no underflow, the difference is taken modulo `card`. */
    function Sub(a: nat, b: nat): (r: nat)
      requires a < card && b < card
      ensures r < card && r == (a - b) % card
    {
      if a >= b then
        ModSmall(a - b, card);
        a - b
      else
        ModUnique(a - b, card, -1, card - (b - a));
        card - (b - a)
    }

    /** `neg(a)`, i.e. `sub(0, a)`: the additive inverse. */
    function Neg(a: nat): (r: nat)
      requires a < card
      ensures r < card && r == (card - a) % card && Add(a, r) == 0
    {
      var r := Sub(0, a);
      ModAddMultiple(0 - a, 1, card);
      ModOfMultiple(1, card);
      r
    }

    /** `mul`: the product reduced modulo `card` (over unbounded integers,
        so the double-width intermediate needs no modelling). */
    function Mul(a: nat, b: nat): (r: nat)
      requires a < card && b < card
      ensures r < card
    {
      (a * b) % card
    }

    /** `inv_bezout` (and `inv`): the Bezout coefficient of `a` against
        `card`, moved into range by adding `card` once when negative. */
    function Inv(a: nat): (r: nat)
      requires a < card
      ensures r < card
      ensures Gcd(a, card) == 1 ==> Mul(a, r) == 1
    {
      var t := ExtendedGcd(a, card);
      InvInRange(a);
      var r: nat := if t.1 < 0 then card + t.1 else t.1;
      InvIsUnit(a, r);
      r
    }

    /** `div`: multiplication by the inverse of the divisor. */
    function Div(a: nat, b: nat): (r: nat)
      requires a < card && b < card
      ensures r < card
      ensures Gcd(b, card) == 1 ==> Mul(r, b) == a
    {
      var r := Mul(a, Inv(b));
      if Gcd(b, card) == 1 then
        MulLaws(a, Inv(b), b);
        MulLaws(b, Inv(b), a);
        r
      else
        r
    }

    /** `exp_quick`: square and multiply on the halved exponent.  The
        exponent 1 returns the base as it is. */
    function ExpQuick(base: nat, exponent: nat): (r: nat)
      requires exponent >= 2 ==> base < card
      ensures r == if exponent == 1 then base else Power(base, exponent) % card
      decreases exponent
    {
      if exponent == 0 then
        ModSmall(1, card);
        1
      else if exponent == 1 then base
      else
        var half := exponent / 2;
        var tmp := ExpQuick(base, half);
        ModSmall(base, card);
        assert tmp == Power(base, half) % card;
        var result := Mul(tmp, tmp);
        PowerAddMod(base, half, half, card);
        if exponent % 2 == 1 then
          PowerAddMod(base, half + half, 1, card);
          assert exponent == half + half + 1;
          Mul(result, base)
        else
          assert exponent == half + half;
          result
    }

    /** `exp`: exponentiation of an element. */
    function Exp(a: nat, b: nat): (r: nat)
      requires a < card
      ensures r < card && r == Power(a, b) % card
    {
      ModSmall(a, card);
      ExpQuick(a, b)
    }

    /** `exp_naive`: `exponent - 1` successive multiplications by the base. */
    method ExpNaive(base: nat, exponent: nat) returns (r: nat)
      requires exponent >= 2 ==> base < card
      ensures r == ExpQuick(base, exponent)
    {
      if exponent == 0 {
        ModSmall(1, card);
        return 1;
      }
      if exponent == 1 {
        return base;
      }
      ModSmall(base, card);
      r := base;
      var i := 1;
      while i < exponent
        invariant 1 <= i <= exponent
        invariant r == Power(base, i) % card
      {
        PowerAddMod(base, i, 1, card);
        r := Mul(r, base);
        i := i + 1;
      }
    }

    /** `log_naive`: the least `r` in `[1, card)` with `base^r == exponent`,
        or `NoSolution`. */
    method LogNaive(base: nat, exponent: nat) returns (r: Result<nat>)
      requires base < card
      ensures r.Ok? ==> 1 <= r.value < card && Exp(base, r.value) == exponent
      ensures r.Ok? ==> forall k :: 1 <= k < r.value ==> Exp(base, k) != exponent
      ensures r.Err? ==> r.error == NoSolution
      ensures r.Err? ==> forall k :: 1 <= k < card ==> Exp(base, k) != exponent
    {
      var result := 1;
      while result < card
        invariant 1 <= result <= card
        invariant forall k :: 1 <= k < result ==> Exp(base, k) != exponent
      {
        if Exp(base, result) == exponent {
          return Ok(result);
        }
        result := result + 1;
      }
      return Err(NoSolution);
    }

    /** `is_quadratic_residue`: some element squares to `q`. */
    method IsQuadraticResidue(q: nat) returns (r: bool)
      ensures r <==> exists i :: 0 <= i < card && Mul(i, i) == q
    {
      var i := 0;
      while i < card
        invariant 0 <= i <= card
        invariant forall k :: 0 <= k < i ==> Mul(k, k) != q
      {
        SquareIsExp(i);
        if Exp(i, 2) == q {
          return true;
        }
        i := i + 1;
      }
      return false;
    }

    // -------------------------------------------------------------------
    // Laws of the scalar operations
    // -------------------------------------------------------------------

    /** The Bezout coefficient of `a` lies in `(-card, card)`. */
    lemma InvInRange(a: nat)
      requires a < card
      ensures -(card as int) < ExtendedGcd(a, card).1 < card
    {
      var t := ExtendedGcd(a, card);
      ExtendedGcdBounds(a, card);
      CoefficientBound(Abs(t.1), t.0);
      if t.0 == 1 {
        Bezout(a, card);
        CoefficientNotCard(a, t.1, t.2);
      }
    }

    lemma CoefficientBound(ax: nat, g: int)
      requires g >= 1 && ax * g <= card
      ensures ax <= card && (g >= 2 ==> ax < card)
    {
      MulMonoLeft(1, g, ax);
      if g >= 2 {
        MulMonoLeft(2, g, ax);
      }
    }

    /** With `a * x + card * y == 1`, `a * x` is 1 modulo `card`, which
        `x == card` or `x == -card` would make 0. */
    lemma CoefficientNotCard(a: nat, x: int, y: int)
      requires a * x + card * y == 1
      ensures x != card && x != -(card as int)
    {
      assert a * x == 1 + (-y) * card;
      ModAddMultiple(1, -y, card);
      ModSmall(1, card);
      ModOfMultiple(a, card);
      ModOfMultiple(-(a as int), card);
      assert a * (-(card as int)) == (-(a as int)) * card;
      assert (a * x) % card == 1;
    }

    /** The folded coefficient is an inverse when `a` is a unit. */
    lemma InvIsUnit(a: nat, r: nat)
      requires a < card && r < card
      requires r == if ExtendedGcd(a, card).1 < 0 then card + ExtendedGcd(a, card).1 else ExtendedGcd(a, card).1
      ensures Gcd(a, card) == 1 ==> Mul(a, r) == 1
    {
      var t := ExtendedGcd(a, card);
      if Gcd(a, card) == 1 {
        Bezout(a, card);
        BezoutUnit(a, t.1, t.2);
        FoldCoefficient(a, t.1, r);
      }
    }

    lemma BezoutUnit(a: nat, x: int, y: int)
      requires a * x + card * y == 1
      ensures (a * x) % card == 1
    {
      assert a * x == 1 + (-y) * card;
      ModAddMultiple(1, -y, card);
      ModSmall(1, card);
    }

    lemma FoldCoefficient(a: nat, x: int, r: nat)
      requires r == if x < 0 then card + x else x
      ensures (a * r) % card == (a * x) % card
    {
      if x < 0 {
        assert a * r == a * x + a * card;
        ModAddMultiple(a * x, a, card);
      }
    }

    /** `inv` gives an inverse exactly for the units of the ring. */
    lemma {:induction false} InvExact(a: nat)
      requires a < card
      ensures Mul(a, Inv(a)) == 1 <==> Gcd(a, card) == 1
    {
      if Mul(a, Inv(a)) == 1 {
        UnitIsCoprime(a, Inv(a));
      }
    }

    /** Whatever has a multiplicative inverse is coprime to `card`. */
    lemma UnitIsCoprime(a: nat, r: nat)
      requires a < card && r < card && Mul(a, r) == 1
      ensures Gcd(a, card) == 1
    {
      var g := Gcd(a, card);
      GcdDivides(a, card);
      var q := (a * r) / card;
      DivMod(a * r, card);
      assert a * r == q * card + 1;
      var i, j := a / g, card / g;
      DivMod(a, g);
      DivMod(card, g);
      UnitCombination(a, r, q, g, i, j);
    }

    lemma UnitCombination(a: int, r: int, q: int, g: int, i: int, j: int)
      requires g >= 1 && a == i * g + 0 && card == j * g + 0 && a * r == q * card + 1
      ensures g == 1
    {
      assert g * (i * r - q * j) == 1;
      if g > 1 {
        MulBelow(i * r - q * j, g);
      }
    }

    /** Multiplication is commutative and associative, with 1 neutral and 0
        absorbing, and distributes over `Add`. */
    lemma MulLaws(a: nat, b: nat, c: nat)
      requires a < card && b < card && c < card
      ensures Mul(a, b) == Mul(b, a)
      ensures Mul(Mul(a, b), c) == Mul(a, Mul(b, c))
      ensures Mul(1, a) == a && Mul(0, a) == 0
      ensures Mul(a, Add(b, c)) == Add(Mul(a, b), Mul(a, c))
    {
      assert a * b == b * a;
      MulAssociates(a, b, c);
      ModSmall(a, card);
      MulDistributes(a, b, c);
    }

    lemma MulAssociates(a: nat, b: nat, c: nat)
      ensures ((a * b) % card * c) % card == (a * ((b * c) % card)) % card
    {
      ModMulLeft(a * b, c, card);
      ModMulRight(a, b * c, card);
      MulAssoc(a, b, c);
    }

    lemma MulDistributes(a: nat, b: nat, c: nat)
      ensures (a * ((b + c) % card)) % card == ((a * b) % card + (a * c) % card) % card
    {
      ModMulRight(a, b + c, card);
      assert a * (b + c) == a * b + a * c;
      ModAdd(a * b, a * c, card);
    }

    /** Subtraction undoes addition and is addition of the negation. */
    lemma AddSubLaws(a: nat, b: nat)
      requires a < card && b < card
      ensures Add(Sub(a, b), b) == a
      ensures Sub(Add(a, b), b) == a
      ensures Sub(a, b) == Add(a, Neg(b))
    {
      ModAdd(a - b, b, card);
      ModSmall(b, card);
      ModSmall(a, card);
      ModSub(a + b, b, card);
      ModAdd(a, card - b, card);
      ModAddMultiple(a - b, 1, card);
    }

    /** `Exp` at 0 and 1, and a square is a product. */
    lemma ExpSmall(a: nat)
      requires a < card
      ensures Exp(a, 0) == 1 && Exp(a, 1) == a && Exp(a, 2) == Mul(a, a)
    {
      ModSmall(1, card);
      ModSmall(a, card);
    }

    lemma SquareIsExp(i: nat)
      requires i < card
      ensures Exp(i, 2) == Mul(i, i)
    {
      ExpSmall(i);
    }

    /** For a coefficient coprime to `card`, the Gentleman-Sande butterfly
        with the inverse coefficient undoes the Cooley-Tukey butterfly up to
        a factor 2: it returns `2a` and `2b`. */
    lemma ButterflyRoundTrip(a: nat, b: nat, c: nat)
      requires a < card && b < card && c < card && Gcd(c, card) == 1
      ensures var p := Add(a, Mul(c, b));
              var q := Sub(a, Mul(c, b));
              Add(p, q) == (2 * a) % card && Mul(Inv(c), Sub(p, q)) == (2 * b) % card
    {
      SumAndDifference(a, Mul(c, b));
      ScaleBack(b, c);
    }

    lemma SumAndDifference(a: nat, d: nat)
      requires a < card && d < card
      ensures Add(Add(a, d), Sub(a, d)) == (2 * a) % card
      ensures Sub(Add(a, d), Sub(a, d)) == (2 * d) % card
    {
      ModAdd(a + d, a - d, card);
      ModSub(a + d, a - d, card);
    }

    lemma ScaleBack(b: nat, c: nat)
      requires b < card && c < card && Gcd(c, card) == 1
      ensures Mul(Inv(c), (2 * Mul(c, b)) % card) == (2 * b) % card
    {
      ScaleByTwo(Inv(c), Mul(c, b));
      InverseCancels(b, c);
    }

    lemma ScaleByTwo(ci: nat, cb: nat)
      ensures (ci * ((2 * cb) % card)) % card == (2 * ((ci * cb) % card)) % card
    {
      ModMulRight(ci, 2 * cb, card);
      assert ci * (2 * cb) == 2 * (ci * cb);
      ModMulRight(2, ci * cb, card);
    }

    lemma InverseCancels(b: nat, c: nat)
      requires b < card && c < card && Gcd(c, card) == 1
      ensures Mul(Inv(c), Mul(c, b)) == b
    {
      var ci := Inv(c);
      MulLaws(ci, c, b);
      MulLaws(c, ci, b);
      MulLaws(b, b, b);
    }

    // -------------------------------------------------------------------
    // Element-wise buffer operations
    // -------------------------------------------------------------------

    /** `mul_coef_to_buf`: `dest[i] = a * src[i]` for `i < len`. */
    method MulCoefToBuf(a: nat, src: array<nat>, dest: array<nat>, len: nat)
      requires a < card && len <= src.Length && len <= dest.Length
      requires forall i :: 0 <= i < len ==> src[i] < card
      modifies dest
      ensures forall i :: 0 <= i < len ==> dest[i] == (a * old(src[i])) % card
      ensures forall i :: len <= i < dest.Length ==> dest[i] == old(dest[i])
    {
      var i := 0;
      while i < len
        invariant 0 <= i <= len
        invariant forall j :: 0 <= j < i ==> dest[j] == (a * old(src[j])) % card
        invariant forall j :: i <= j < len ==> src[j] == old(src[j])
        invariant forall j :: i <= j < dest.Length ==> dest[j] == old(dest[j])
      {
        dest[i] := Mul(a, src[i]);
        i := i + 1;
      }
    }

    /** `add_two_bufs`: `dest[i] = src[i] + dest[i]` for `i < len`. */
    method AddTwoBufs(src: array<nat>, dest: array<nat>, len: nat)
      requires len <= src.Length && len <= dest.Length
      requires forall i :: 0 <= i < len ==> src[i] < card && dest[i] < card
      modifies dest
      ensures forall i :: 0 <= i < len ==> dest[i] == (old(src[i]) + old(dest[i])) % card
      ensures forall i :: len <= i < dest.Length ==> dest[i] == old(dest[i])
    {
      var i := 0;
      while i < len
        invariant 0 <= i <= len
        invariant forall j :: 0 <= j < i ==> dest[j] == (old(src[j]) + old(dest[j])) % card
        invariant forall j :: i <= j < len ==> src[j] == old(src[j])
        invariant forall j :: i <= j < dest.Length ==> dest[j] == old(dest[j])
      {
        dest[i] := Add(src[i], dest[i]);
        i := i + 1;
      }
    }

    /** `sub_two_bufs`: `res[i] = bufa[i] - bufb[i]` for `i < len`. */
    method SubTwoBufs(bufa: array<nat>, bufb: array<nat>, res: array<nat>, len: nat)
      requires len <= bufa.Length && len <= bufb.Length && len <= res.Length
      requires forall i :: 0 <= i < len ==> bufa[i] < card && bufb[i] < card
      modifies res
      ensures forall i :: 0 <= i < len ==> res[i] == (old(bufa[i]) - old(bufb[i])) % card
      ensures forall i :: len <= i < res.Length ==> res[i] == old(res[i])
    {
      var i := 0;
      while i < len
        invariant 0 <= i <= len
        invariant forall j :: 0 <= j < i ==> res[j] == (old(bufa[j]) - old(bufb[j])) % card
        invariant forall j :: i <= j < len ==> bufa[j] == old(bufa[j]) && bufb[j] == old(bufb[j])
        invariant forall j :: i <= j < res.Length ==> res[j] == old(res[j])
      {
        res[i] := Sub(bufa[i], bufb[i]);
        i := i + 1;
      }
    }

    /** `hadamard_mul`: `x[i] = x[i] * y[i]` for `i < n`. */
    method HadamardMul(n: nat, x: array<nat>, y: array<nat>)
      requires n <= x.Length && n <= y.Length
      requires forall i :: 0 <= i < n ==> x[i] < card && y[i] < card
      modifies x
      ensures forall i :: 0 <= i < n ==> x[i] == (old(x[i]) * old(y[i])) % card
      ensures forall i :: n <= i < x.Length ==> x[i] == old(x[i])
    {
      var i := 0;
      while i < n
        invariant 0 <= i <= n
        invariant forall j :: 0 <= j < i ==> x[j] == (old(x[j]) * old(y[j])) % card
        invariant forall j :: i <= j < n ==> y[j] == old(y[j])
        invariant forall j :: i <= j < x.Length ==> x[j] == old(x[j])
      {
        x[i] := Mul(x[i], y[i]);
        i := i + 1;
      }
    }

    /** `hadamard_mul_doubled`: `y[0..n/2)` multiplies both halves
        `x[0..n/2)` and `x[n/2..2(n/2))`. */
    method HadamardMulDoubled(n: nat, x: array<nat>, y: array<nat>)
      requires x != y && 2 * (n / 2) <= x.Length && n / 2 <= y.Length
      requires forall i :: 0 <= i < 2 * (n / 2) ==> x[i] < card
      requires forall i :: 0 <= i < n / 2 ==> y[i] < card
      modifies x
      ensures forall i :: 0 <= i < n / 2 ==> x[i] == (old(x[i]) * y[i]) % card
      ensures forall i :: 0 <= i < n / 2 ==> x[n / 2 + i] == (old(x[n / 2 + i]) * y[i]) % card
      ensures forall i :: 2 * (n / 2) <= i < x.Length ==> x[i] == old(x[i])
    {
      var half := n / 2;
      var i := 0;
      while i < half
        invariant 0 <= i <= half
        invariant forall j :: 0 <= j < i ==> x[j] == (old(x[j]) * y[j]) % card
        invariant forall j :: i <= j < x.Length ==> x[j] == old(x[j])
      {
        x[i] := Mul(x[i], y[i]);
        i := i + 1;
      }
      i := 0;
      while i < half
        invariant 0 <= i <= half
        invariant forall j :: 0 <= j < half ==> x[j] == (old(x[j]) * y[j]) % card
        invariant forall j :: 0 <= j < i ==> x[half + j] == (old(x[half + j]) * y[j]) % card
        invariant forall j :: half + i <= j < x.Length ==> x[j] == old(x[j])
      {
        x[half + i] := Mul(x[half + i], y[i]);
        i := i + 1;
      }
    }

    /** `add_doubled`: `y[0..n/2)` is added to both halves of `x`. */
    method AddDoubled(n: nat, x: array<nat>, y: array<nat>)
      requires x != y && 2 * (n / 2) <= x.Length && n / 2 <= y.Length
      requires forall i :: 0 <= i < 2 * (n / 2) ==> x[i] < card
      requires forall i :: 0 <= i < n / 2 ==> y[i] < card
      modifies x
      ensures forall i :: 0 <= i < n / 2 ==> x[i] == (old(x[i]) + y[i]) % card
      ensures forall i :: 0 <= i < n / 2 ==> x[n / 2 + i] == (old(x[n / 2 + i]) + y[i]) % card
      ensures forall i :: 2 * (n / 2) <= i < x.Length ==> x[i] == old(x[i])
    {
      var half := n / 2;
      ghost var x0 := x[..];
      var i := 0;
      while i < half
        invariant 0 <= i <= half
        invariant forall j :: 0 <= j < i ==> x[j] == Add(x0[j], y[j])
        invariant forall j :: i <= j < x.Length ==> x[j] == x0[j]
      {
        x[i] := Add(x[i], y[i]);
        i := i + 1;
      }
      i := 0;
      while i < half
        invariant 0 <= i <= half
        invariant forall j :: 0 <= j < half ==> x[j] == Add(x0[j], y[j])
        invariant forall j :: 0 <= j < i ==> x[half + j] == Add(x0[half + j], y[j])
        invariant forall j :: half + i <= j < x.Length ==> x[j] == x0[j]
      {
        x[half + i] := Add(x[half + i], y[i]);
        i := i + 1;
      }
    }

    /** `neg(n, x)`: `x[i] = 0 - x[i]` for `i < n`. */
    method NegBuf(n: nat, x: array<nat>)
      requires n <= x.Length
      requires forall i :: 0 <= i < n ==> x[i] < card
      modifies x
      ensures forall i :: 0 <= i < n ==> x[i] == (0 - old(x[i])) % card
      ensures forall i :: n <= i < x.Length ==> x[i] == old(x[i])
    {
      var i := 0;
      while i < n
        invariant 0 <= i <= n
        invariant forall j :: 0 <= j < i ==> x[j] == (0 - old(x[j])) % card
        invariant forall j :: i <= j < x.Length ==> x[j] == old(x[j])
      {
        x[i] := Sub(0, x[i]);
        i := i + 1;
      }
    }

    /** `butterfly_ct`: from `a = P[i]`, `b = Q[i]`, `P[i] = a + c*b` and
        `Q[i] = a - c*b`. */
    method ButterflyCt(coef: nat, buf1: array<nat>, buf2: array<nat>, len: nat)
      requires buf1 != buf2 && coef < card && len <= buf1.Length && len <= buf2.Length
      requires forall i :: 0 <= i < len ==> buf1[i] < card && buf2[i] < card
      modifies buf1, buf2
      ensures forall i :: 0 <= i < len ==> buf1[i] == (old(buf1[i]) + coef * old(buf2[i])) % card
      ensures forall i :: 0 <= i < len ==> buf2[i] == (old(buf1[i]) - coef * old(buf2[i])) % card
      ensures forall i :: len <= i < buf1.Length ==> buf1[i] == old(buf1[i])
      ensures forall i :: len <= i < buf2.Length ==> buf2[i] == old(buf2[i])
    {
      var i := 0;
      while i < len
        invariant 0 <= i <= len
        invariant forall j :: 0 <= j < i ==> buf1[j] == (old(buf1[j]) + coef * old(buf2[j])) % card
        invariant forall j :: 0 <= j < i ==> buf2[j] == (old(buf1[j]) - coef * old(buf2[j])) % card
        invariant forall j :: i <= j < buf1.Length ==> buf1[j] == old(buf1[j])
        invariant forall j :: i <= j < buf2.Length ==> buf2[j] == old(buf2[j])
      {
        var a := buf1[i];
        var b := Mul(coef, buf2[i]);
        CtStep(a, buf2[i], coef);
        buf1[i] := Add(a, b);
        buf2[i] := Sub(a, b);
        i := i + 1;
      }
    }

    lemma CtStep(a: nat, b: nat, c: nat)
      requires a < card && b < card && c < card
      ensures Add(a, Mul(c, b)) == (a + c * b) % card
      ensures Sub(a, Mul(c, b)) == (a - c * b) % card
    {
      ModSmall(a, card);
      ModAdd(a, c * b, card);
      ModSub(a, c * b, card);
    }

    /** `butterfly_gs`: from `a = P[i]`, `b = Q[i]`, `P[i] = a + b` and
        `Q[i] = c * (a - b)`. */
    method ButterflyGs(coef: nat, buf1: array<nat>, buf2: array<nat>, len: nat)
      requires buf1 != buf2 && coef < card && len <= buf1.Length && len <= buf2.Length
      requires forall i :: 0 <= i < len ==> buf1[i] < card && buf2[i] < card
      modifies buf1, buf2
      ensures forall i :: 0 <= i < len ==> buf1[i] == (old(buf1[i]) + old(buf2[i])) % card
      ensures forall i :: 0 <= i < len ==> buf2[i] == (coef * (old(buf1[i]) as int - old(buf2[i]))) % card
      ensures forall i :: len <= i < buf1.Length ==> buf1[i] == old(buf1[i])
      ensures forall i :: len <= i < buf2.Length ==> buf2[i] == old(buf2[i])
    {
      var i := 0;
      while i < len
        invariant 0 <= i <= len
        invariant forall j :: 0 <= j < i ==> buf1[j] == (old(buf1[j]) + old(buf2[j])) % card
        invariant forall j :: 0 <= j < i ==> buf2[j] == (coef * (old(buf1[j]) as int - old(buf2[j]))) % card
        invariant forall j :: i <= j < buf1.Length ==> buf1[j] == old(buf1[j])
        invariant forall j :: i <= j < buf2.Length ==> buf2[j] == old(buf2[j])
      {
        var a := buf1[i];
        var b := buf2[i];
        var c := Sub(a, b);
        ModMulRight(coef, a as int - b, card);
        buf1[i] := Add(a, b);
        buf2[i] := Mul(coef, c);
        i := i + 1;
      }
    }

    // -------------------------------------------------------------------
    // Plane operations
    // -------------------------------------------------------------------

    /** Copies a row (`Buffers::copy`). */
    method CopyRow(src: array<nat>, dest: array<nat>)
      requires src.Length == dest.Length
      modifies dest
      ensures forall k :: 0 <= k < dest.Length ==> dest[k] == old(src[k])
    {
      var k := 0;
      while k < dest.Length
        invariant 0 <= k <= dest.Length
        invariant forall j :: 0 <= j < k ==> dest[j] == old(src[j])
        invariant forall j :: k <= j < dest.Length ==> src[j] == old(src[j])
      {
        dest[k] := src[k];
        k := k + 1;
      }
    }

    /** Fills a row with zeros (`Buffers::fill`). */
    method ZeroRow(dest: array<nat>)
      modifies dest
      ensures forall k :: 0 <= k < dest.Length ==> dest[k] == 0
    {
      var k := 0;
      while k < dest.Length
        invariant 0 <= k <= dest.Length
        invariant forall j :: 0 <= j < k ==> dest[j] == 0
      {
        dest[k] := 0;
        k := k + 1;
      }
    }

    /** Row `i` of `dest` in `mul_vec_to_vecp`: multiply when `1 < c < h`,
        copy when `c == 1`, zero-fill when `c == 0`, copy and negate when
        `c == h`; any larger coefficient leaves the row alone.  Every route
        gives `c * src` for a coefficient of the ring. */
    method MulRow(c: nat, src: array<nat>, dest: array<nat>)
      requires src.Length == dest.Length
      requires forall k :: 0 <= k < src.Length ==> src[k] < card
      modifies dest
      ensures forall k :: 0 <= k < dest.Length ==>
        dest[k] == if c < card then (c * old(src[k])) % card else old(dest[k])
    {
      var h := card - 1;
      if c > 1 && c < h {
        MulCoefToBuf(c, src, dest, src.Length);
      } else if c == 1 {
        CopyRow(src, dest);
        forall k | 0 <= k < dest.Length
          ensures dest[k] == (c * old(src[k])) % card
        {
          ModSmall(old(src[k]), card);
        }
      } else if c == 0 {
        ZeroRow(dest);
      } else if c == h {
        CopyRow(src, dest);
        NegBuf(dest.Length, dest);
        forall k | 0 <= k < dest.Length
          ensures dest[k] == (c * old(src[k])) % card
        {
          MinusOneMul(old(src[k]));
        }
      }
    }

    /** Multiplying by `card - 1` negates. */
    lemma MinusOneMul(s: nat)
      ensures ((card - 1) * s) % card == (0 - s) % card
    {
      assert (card - 1) * s == (0 - s) + s * card;
      ModAddMultiple(0 - s, s, card);
    }

    /** `mul_vec_to_vecp`: row `i` of `dest` becomes `u[i] * src[i]`. */
    method MulVecToVecp(u: array<nat>, src: Buffers, dest: Buffers)
      requires src.Valid() && dest.Valid() && u.Length == |src.mem|
      requires |dest.mem| == |src.mem| && dest.size == src.size
      requires Separate(src, dest) && u !in dest.Rows()
      requires forall i, k :: 0 <= i < |src.mem| && 0 <= k < src.size ==> src.mem[i][k] < card
      modifies dest.Rows()
      ensures forall i, k :: 0 <= i < |dest.mem| && 0 <= k < dest.size ==>
        dest.mem[i][k] == if u[i] < card then (u[i] * old(src.mem[i][k])) % card else old(dest.mem[i][k])
    {
      var n := u.Length;
      var i := 0;
      while i < n
        invariant 0 <= i <= n
        invariant forall r, k :: 0 <= r < i && 0 <= k < dest.size ==>
          dest.mem[r][k] == if u[r] < card then (u[r] * old(src.mem[r][k])) % card else old(dest.mem[r][k])
        invariant forall r, k :: i <= r < n && 0 <= k < dest.size ==>
          dest.mem[r][k] == old(dest.mem[r][k]) && src.mem[r][k] == old(src.mem[r][k])
      {
        assert dest.mem[i] in dest.Rows();
        MulRow(u[i], src.mem[i], dest.mem[i]);
        i := i + 1;
      }
    }

    /** `add_vecp_to_vecp`: row-wise `add_two_bufs`. */
    method AddVecpToVecp(src: Buffers, dest: Buffers)
      requires src.Valid() && dest.Valid()
      requires |src.mem| == |dest.mem| && src.size == dest.size
      requires Separate(src, dest)
      requires forall i, k :: 0 <= i < |src.mem| && 0 <= k < src.size ==> src.mem[i][k] < card && dest.mem[i][k] < card
      modifies dest.Rows()
      ensures forall i, k :: 0 <= i < |dest.mem| && 0 <= k < dest.size ==>
        dest.mem[i][k] == (old(src.mem[i][k]) + old(dest.mem[i][k])) % card
    {
      var i := 0;
      while i < |src.mem|
        invariant 0 <= i <= |src.mem|
        invariant forall r, k :: 0 <= r < i && 0 <= k < dest.size ==>
          dest.mem[r][k] == (old(src.mem[r][k]) + old(dest.mem[r][k])) % card
        invariant forall r, k :: i <= r < |src.mem| && 0 <= k < dest.size ==>
          dest.mem[r][k] == old(dest.mem[r][k]) && src.mem[r][k] == old(src.mem[r][k])
      {
        assert dest.mem[i] in dest.Rows();
        AddTwoBufs(src.mem[i], dest.mem[i], src.size);
        i := i + 1;
      }
    }

    /** `sub_vecp_to_vecp`: row-wise `sub_two_bufs` into `res`. */
    method SubVecpToVecp(veca: Buffers, vecb: Buffers, res: Buffers)
      requires veca.Valid() && vecb.Valid() && res.Valid()
      requires |veca.mem| == |vecb.mem| && veca.size == vecb.size
      requires |res.mem| == |veca.mem| && res.size == veca.size
      requires Separate(veca, res) && Separate(vecb, res)
      requires forall i, k :: 0 <= i < |veca.mem| && 0 <= k < veca.size ==> veca.mem[i][k] < card && vecb.mem[i][k] < card
      modifies res.Rows()
      ensures forall i, k :: 0 <= i < |res.mem| && 0 <= k < res.size ==>
        res.mem[i][k] == (old(veca.mem[i][k]) - old(vecb.mem[i][k])) % card
    {
      var i := 0;
      while i < |veca.mem|
        invariant 0 <= i <= |veca.mem|
        invariant forall r, k :: 0 <= r < i && 0 <= k < res.size ==>
          res.mem[r][k] == (old(veca.mem[r][k]) - old(vecb.mem[r][k])) % card
        invariant forall r, k :: i <= r < |veca.mem| && 0 <= k < res.size ==>
          veca.mem[r][k] == old(veca.mem[r][k]) && vecb.mem[r][k] == old(vecb.mem[r][k])
      {
        assert res.mem[i] in res.Rows();
        SubTwoBufs(veca.mem[i], vecb.mem[i], res.mem[i], veca.size);
        i := i + 1;
      }
    }

    /** `neg(Buffers)`: row-wise `neg(n, x)`. */
    method NegPlane(buf: Buffers)
      requires buf.Valid() && Separate(buf, buf)
      requires forall i, k :: 0 <= i < |buf.mem| && 0 <= k < buf.size ==> buf.mem[i][k] < card
      modifies buf.Rows()
      ensures forall i, k :: 0 <= i < |buf.mem| && 0 <= k < buf.size ==>
        buf.mem[i][k] == (0 - old(buf.mem[i][k])) % card
    {
      var i := 0;
      while i < |buf.mem|
        invariant 0 <= i <= |buf.mem|
        invariant forall r, k :: 0 <= r < i && 0 <= k < buf.size ==>
          buf.mem[r][k] == (0 - old(buf.mem[r][k])) % card
        invariant forall r, k :: i <= r < |buf.mem| && 0 <= k < buf.size ==>
          buf.mem[r][k] == old(buf.mem[r][k])
      {
        assert buf.mem[i] in buf.Rows();
        NegBuf(buf.size, buf.mem[i]);
        i := i + 1;
      }
    }

    /** `compute_omegas`: `W[i] = w^i` for `i < n`; for an element of order
        `n` these are `n` distinct values. */
    method ComputeOmegas(W: array<nat>, n: nat, w: nat)
      requires n <= W.Length && w < card
      modifies W
      ensures forall i :: 0 <= i < n ==> W[i] == Power(w, i) % card
      ensures forall i :: n <= i < W.Length ==> W[i] == old(W[i])
      ensures IsOrder(card, w, n) ==> forall i, j :: 0 <= i < j < n ==> W[i] != W[j]
    {
      var i := 0;
      while i < n
        invariant 0 <= i <= n
        invariant forall j :: 0 <= j < i ==> W[j] == Power(w, j) % card
        invariant forall j :: n <= j < W.Length ==> W[j] == old(W[j])
      {
        W[i] := Exp(w, i);
        i := i + 1;
      }
      if IsOrder(card, w, n) {
        forall i, j | 0 <= i < j < n
          ensures W[i] != W[j]
        {
          PowersDistinct(card, w, n, i, j);
        }
      }
    }

    // -------------------------------------------------------------------
    // Factorisation of the group order, primitive roots, orders
    // -------------------------------------------------------------------

    /** The state `compute_factors_of_order` leaves: `card - 1` factored
        into ascending primes with their exponents, the primes repeated by
        exponent, and the proper divisors `(card - 1) / p`. */
    ghost predicate Factored()
      reads this
    {
      && IsFactorisation(card - 1, primes, exponents)
      && allPrimesFactors == GetPrimeFactors(primes, exponents)
      && properDivisors == ProperDivisors(card - 1, primes, exponents)
    }

    /** `compute_factors_of_order`. */
    method ComputeFactorsOfOrder()
      modifies this
      ensures Factored() && root == old(root)
    {
      var h := card - 1;
      var f := FactorPrime(h);
      primes, exponents := f.0, f.1;
      allPrimesFactors := GetPrimeFactors(primes, exponents);
      FactorisationDivides(h, primes, exponents);
      properDivisors := GetProperDivisors(h, primes);
    }

    /** The test `is_primitive_root` and `find_primitive_root` apply:
        `nb^d != 1` for every stored proper divisor `d`. */
    predicate RootTest(nb: nat)
      reads this`properDivisors
      requires nb < card
    {
      forall i :: 0 <= i < |properDivisors| ==> Exp(nb, properDivisors[i]) != 1
    }

    /** `is_primitive_root`: stops at the first proper divisor `d` with
        `nb^d == 1`. */
    method IsPrimitiveRoot(nb: nat) returns (ok: bool)
      requires nb < card
      ensures ok <==> RootTest(nb)
    {
      ok := true;
      var i := 0;
      while i != |properDivisors|
        invariant 0 <= i <= |properDivisors|
        invariant forall j :: 0 <= j < i ==> Exp(nb, properDivisors[j]) != 1
      {
        if Exp(nb, properDivisors[i]) == 1 {
          ok := false;
          break;
        }
        i := i + 1;
      }
    }

    /** On a factored ring, for `nb` with `nb^(card-1) == 1`, the test
        holds exactly when `nb` has order `card - 1`. */
    lemma RootTestExact(nb: nat)
      requires nb < card && Factored() && Power(nb, card - 1) % card == 1
      ensures RootTest(nb) <==> IsOrder(card, nb, card - 1)
    {
      RootTestCorrect(card, nb, card - 1, primes, exponents);
    }

    /** `find_primitive_root`: keeps a root already set; for `card == 2`
        the root is 1; otherwise the least `nb` in `[2, card - 1]` passing
        the test, or 0 when none does. */
    method FindPrimitiveRoot()
      modifies this
      ensures primes == old(primes) && exponents == old(exponents)
      ensures allPrimesFactors == old(allPrimesFactors) && properDivisors == old(properDivisors)
      ensures old(root) != 0 ==> root == old(root)
      ensures old(root) == 0 && card == 2 ==> root == 1
      ensures old(root) == 0 && card > 2 ==> root < card && (root == 0 || (root >= 2 && RootTest(root)))
      ensures old(root) == 0 && card > 2 ==> forall nb :: 2 <= nb < card && (root == 0 || nb < root) ==> !RootTest(nb)
    {
      if root != 0 {
        return;
      }
      var h := card - 1;
      if h == 1 {
        root := 1;
        return;
      }
      var found := 0;
      var nb := 2;
      while nb <= h
        invariant 2 <= nb <= h + 1 && root == 0
        invariant primes == old(primes) && exponents == old(exponents)
        invariant allPrimesFactors == old(allPrimesFactors) && properDivisors == old(properDivisors)
        invariant forall k :: 2 <= k < nb ==> !RootTest(k)
        invariant found == 0
      {
        var ok := IsPrimitiveRoot(nb);
        if ok {
          found := nb;
          break;
        }
        nb := nb + 1;
      }
      root := found;
    }

    /** The state `init` leaves: the group order is factored and the root
        is an element, as the queries on orders and roots expect. */
    ghost predicate Valid()
      reads this
    {
      root < card && Factored()
    }

    /** `init`: factor the group order, then look for a primitive root.
        Under Fermat's little theorem for `card` (true for prime `card`),
        a root found has order `card - 1`. */
    method Init()
      modifies this
      ensures Factored()
      ensures old(root) < card ==> Valid()
      ensures old(root) != 0 ==> root == old(root)
      ensures old(root) == 0 && card == 2 ==> root == 1
      ensures old(root) == 0 && card > 2 ==> root < card && (root == 0 || (root >= 2 && RootTest(root)))
      ensures old(root) == 0 && card > 2 ==> forall nb :: 2 <= nb < card && (root == 0 || nb < root) ==> !RootTest(nb)
      ensures old(root) == 0 && FermatHolds(card) && root != 0 ==> IsOrder(card, root, card - 1)
    {
      ComputeFactorsOfOrder();
      FindPrimitiveRoot();
      if old(root) == 0 && FermatHolds(card) && root != 0 {
        if card == 2 {
          ModSmall(1, card);
        } else {
          assert FermatUnit(card, root);
          RootTestExact(root);
        }
      }
    }

    /** `do_step_get_order`: pops `(p, e)` from the back; when
        `x^(h/p) != 1` the pair is dropped, otherwise the search recurses
        on `h/p` with `(p, e - 1)` pushed back while `e > 1`. */
    method DoStepGetOrder(x: nat, h: nat, ps: seq<nat>, es: seq<nat>) returns (order: nat)
      requires x < card && |ps| == |es| && forall i :: 0 <= i < |ps| ==> ps[i] > 0
      ensures order == OrderStep(card, x, h, ps, es)
      decreases Sum(es) + |ps|
    {
      // The vectors popped from the back are the prefixes `ps[..j]`, `es[..j]`.
      var j := |ps|;
      assert ps[..j] == ps && es[..j] == es;
      while j > 0
        invariant j <= |ps|
        invariant OrderStep(card, x, h, ps[..j], es[..j]) == OrderStep(card, x, h, ps, es)
      {
        var p, r := ps[j - 1], es[j - 1];
        PrefixPop(card, x, h, ps, es, j);
        j := j - 1;
        var y := h / p;
        if Exp(x, y) != 1 {
          // Kept as in the source; `y` is not used after `continue`.
          while r > 1
            decreases r
          {
            y := y / p;
            r := r - 1;
          }
          continue;
        }
        if r > 1 {
          var e: nat := r - 1;
          order := DoStepGetOrder(x, y, ps[..j] + [p], es[..j] + [e]);
        } else {
          order := DoStepGetOrder(x, y, ps[..j], es[..j]);
        }
        return;
      }
      return h;
    }

    /** The value `get_order` computes: the reference function that
        `GetOrder` is proved against and that `OrderOfCorrect` shows to be
        the order. */
    function OrderOf(x: nat): nat
      reads this
      requires x < card && Factored()
    {
      if x == 0 || x == 1 then 1
      else
        var o := OrderStep(card, x, card - 1, primes, exponents);
        if o == 1 then card - 1 else o
    }

    /** For a unit `x` with `x^(card-1) == 1`, `get_order` gives the order
        of `x`. */
    lemma OrderOfCorrect(x: nat)
      requires 1 <= x < card && Factored() && Power(x, card - 1) % card == 1
      ensures IsOrder(card, x, OrderOf(x))
    {
      var h := card - 1;
      ModSmall(1, card);
      ModSmall(x, card);
      assert Power(x, 1) == x;
      if x >= 2 {
        var m := OrderExists(card, x, h);
        DescentStart(card, x, m, h, primes, exponents);
        OrderStepCorrect(card, x, m, h, primes, exponents);
        assert m != 1;
      }
    }

    /** `get_order`: 1 for 0 and 1; otherwise the descent, with a result
        of 1 read as `card - 1`. */
    method GetOrder(x: nat) returns (order: nat)
      requires x < card && Factored()
      ensures order == OrderOf(x)
      ensures x <= 1 ==> order == 1
      ensures 1 <= x && Power(x, card - 1) % card == 1 ==> IsOrder(card, x, order)
    {
      if x == 0 || x == 1 {
        order := 1;
      } else {
        var h := card - 1;
        order := DoStepGetOrder(x, h, primes, exponents);
        if order == 1 {
          order := h;
        }
      }
      if 1 <= x && Power(x, card - 1) % card == 1 {
        OrderOfCorrect(x);
      }
    }

    /** `check_primitive_root`: `get_order(nb) == card - 1`, which for a
        unit `nb` with `nb^(card-1) == 1` means order `card - 1`. */
    method CheckPrimitiveRoot(nb: nat) returns (r: bool)
      requires nb < card && Factored()
      ensures r <==> OrderOf(nb) == card - 1
      ensures 1 <= nb && Power(nb, card - 1) % card == 1 ==> (r <==> IsOrder(card, nb, card - 1))
    {
      var order := GetOrder(nb);
      r := order == card - 1;
      if 1 <= nb && Power(nb, card - 1) % card == 1 && IsOrder(card, nb, card - 1) {
        OrderUnique(card, nb, order, card - 1);
      }
    }

    /** The divisor test and the descent agree on every unit `nb` with
        `nb^(card-1) == 1`. */
    lemma PrimitiveRootChecksAgree(nb: nat)
      requires 1 <= nb < card && Factored() && Power(nb, card - 1) % card == 1
      ensures RootTest(nb) <==> OrderOf(nb) == card - 1
    {
      RootTestExact(nb);
      OrderOfCorrect(nb);
      if IsOrder(card, nb, card - 1) {
        OrderUnique(card, nb, OrderOf(nb), card - 1);
      }
    }

    /** `check_order_naive` as the source has it: the loop stops before
        the exponent `order - 1`. */
    method CheckOrderNaive(nb: nat, order: nat) returns (r: bool)
      requires nb < card && order >= 1
      ensures r <==> NaiveOrderAccepts(card, nb, order)
    {
      if Exp(nb, order) != 1 {
        return false;
      }
      var i := 1;
      var tmp := nb;
      ModSmall(nb, card);
      while i < order - 1
        invariant 1 <= i && (i <= order - 1 || i == 1)
        invariant tmp == Power(nb, i) % card
        invariant forall k :: 1 <= k < i ==> Power(nb, k) % card != 1
      {
        if tmp == 1 {
          return false;
        }
        PowerAddMod(nb, i, 1, card);
        tmp := Mul(tmp, nb);
        i := i + 1;
      }
      return true;
    }

    /** `check_order_naive` with the loop running to `order`: it accepts
        exactly the order of `nb`. */
    method CheckOrderNaiveCorrected(nb: nat, order: nat) returns (r: bool)
      requires nb < card && order >= 1
      ensures r <==> IsOrder(card, nb, order)
    {
      if Exp(nb, order) != 1 {
        return false;
      }
      var i := 1;
      var tmp := nb;
      ModSmall(nb, card);
      while i < order
        invariant 1 <= i <= order
        invariant tmp == Power(nb, i) % card
        invariant forall k :: 1 <= k < i ==> Power(nb, k) % card != 1
      {
        if tmp == 1 {
          return false;
        }
        PowerAddMod(nb, i, 1, card);
        tmp := Mul(tmp, nb);
        i := i + 1;
      }
      return true;
    }

    /** `get_nth_root`: `root^((card-1)/d)` with `d = gcd(n, card-1)`;
        from a primitive root this has order `d`, so its `n`-th power is 1. */
    function GetNthRoot(n: nat): (r: nat)
      reads this
      requires root < card
      ensures r < card
      ensures IsOrder(card, root, card - 1) ==> IsOrder(card, r, Gcd(n, card - 1)) && Power(r, n) % card == 1
      ensures IsOrder(card, root, card - 1) && Divides(n, card - 1) ==> IsOrder(card, r, n)
    {
      var h := card - 1;
      var d := Gcd(n, h);
      GcdDivides(n, h);
      var r := Exp(root, h / d);
      NthRootOrder(n, r);
      if Divides(n, h) then GcdOfDivisor(n, h); r else r
    }

    lemma NthRootOrder(n: nat, r: nat)
      requires root < card
      requires Divides(Gcd(n, card - 1), n) && Divides(Gcd(n, card - 1), card - 1)
      requires r == Power(root, (card - 1) / Gcd(n, card - 1)) % card
      ensures IsOrder(card, root, card - 1) ==> IsOrder(card, r, Gcd(n, card - 1)) && Power(r, n) % card == 1
    {
      if IsOrder(card, root, card - 1) {
        var d := Gcd(n, card - 1);
        RootPowerOrder(card, root, card - 1, d);
        OrderDivides(card, r, d, n);
      }
    }
  }
}
