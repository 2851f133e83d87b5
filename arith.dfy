/** Integer helpers the ring relies on: powers, remainders, greatest common
    divisors with their Bezout coefficients, and the prime factorisation of
    the group order.  The repository takes these from a header of its own
    (`arith.h`) that is not part of this model; here each gets a plain
    definition and the contract the ring needs from it. */
module Arith {

  // ---------------------------------------------------------------------
  // Powers
  // ---------------------------------------------------------------------

  /** `a` to the power `b` over the unbounded integers. */
  function Power(a: nat, b: nat): nat
    decreases b
  {
    if b == 0 then 1 else a * Power(a, b - 1)
  }

  lemma {:induction false} PowerAdd(a: nat, b: nat, c: nat)
    ensures Power(a, b + c) == Power(a, b) * Power(a, c)
    decreases b
  {
    if b > 0 {
      PowerAdd(a, b - 1, c);
      assert Power(a, b + c) == a * Power(a, b - 1 + c);
      MulAssoc(a, Power(a, b - 1), Power(a, c));
    }
  }

  lemma {:induction false} PowerMul(a: nat, b: nat, c: nat)
    ensures Power(a, b * c) == Power(Power(a, b), c)
    decreases c
  {
    if c > 0 {
      PowerMul(a, b, c - 1);
      assert b * c == b + b * (c - 1);
      PowerAdd(a, b, b * (c - 1));
    }
  }

  lemma {:induction false} PowerOne(b: nat)
    ensures Power(1, b) == 1
    decreases b
  {
    if b > 0 { PowerOne(b - 1); }
  }

  lemma PowerPositive(a: nat, b: nat)
    requires a > 0
    ensures Power(a, b) > 0
    decreases b
  {
    if b > 0 {
      PowerPositive(a, b - 1);
      MulPositive(a, Power(a, b - 1));
    }
  }

  lemma MulAssoc(a: int, b: int, c: int)
    ensures a * (b * c) == (a * b) * c
  {}

  lemma MulPositive(a: int, b: int)
    requires a > 0 && b > 0
    ensures a * b > 0
  {}

  // ---------------------------------------------------------------------
  // Euclidean remainder
  // ---------------------------------------------------------------------

  /** Division with remainder has exactly one answer. */
  lemma ModUnique(x: int, n: int, q: int, r: int)
    requires n > 0 && 0 <= r < n && x == q * n + r
    ensures x % n == r && x / n == q
  {
    var q', r' := x / n, x % n;
    assert x == q' * n + r';
    assert (q - q') * n == r' - r;
    MulBelow(q - q', n);
  }

  /** A multiple of `n` strictly between `-n` and `n` is zero. */
  lemma MulBelow(k: int, n: int)
    requires n > 0 && -n < k * n < n
    ensures k == 0
  {
    if k >= 1 {
      MulMonoLeft(1, k, n);
    } else if k <= -1 {
      MulMonoLeft(k, -1, n);
    }
  }

  lemma ModAddMultiple(a: int, k: int, n: int)
    requires n > 0
    ensures (a + k * n) % n == a % n
  {
    assert a == (a / n) * n + a % n;
    assert a + k * n == (a / n + k) * n + a % n;
    ModUnique(a + k * n, n, a / n + k, a % n);
  }

  lemma ModOfMultiple(k: int, n: int)
    requires n > 0
    ensures (k * n) % n == 0 && (n * k) % n == 0
  {
    ModUnique(k * n, n, k, 0);
  }

  lemma ModAdd(a: int, b: int, n: int)
    requires n > 0
    ensures (a + b) % n == (a % n + b % n) % n
  {
    DivMod(a, n);
    DivMod(b, n);
    SumSplit(a, a / n, a % n, b, b / n, b % n, n);
    ModAddMultiple(a % n + b % n, a / n + b / n, n);
  }

  lemma SumSplit(a: int, qa: int, ra: int, b: int, qb: int, rb: int, n: int)
    requires a == qa * n + ra && b == qb * n + rb
    ensures a + b == (ra + rb) + (qa + qb) * n
  {}

  lemma ModSub(a: int, b: int, n: int)
    requires n > 0
    ensures (a - b) % n == (a % n - b % n) % n
  {
    DivMod(a, n);
    DivMod(b, n);
    SumSplit(a, a / n, a % n, -b, -(b / n), -(b % n), n);
    ModAddMultiple(a % n - b % n, a / n - b / n, n);
  }

  lemma ModMul(a: int, b: int, n: int)
    requires n > 0
    ensures (a * b) % n == ((a % n) * (b % n)) % n
  {
    var qa, ra := a / n, a % n;
    var qb, rb := b / n, b % n;
    assert a == qa * n + ra;
    assert b == qb * n + rb;
    assert a * b == ra * rb + (qa * qb * n + qa * rb + ra * qb) * n;
    ModAddMultiple(ra * rb, qa * qb * n + qa * rb + ra * qb, n);
  }

  lemma ModMulLeft(a: int, b: int, n: int)
    requires n > 0
    ensures (a * b) % n == ((a % n) * b) % n
  {
    var ra, rb := a % n, b % n;
    ModMul(a, b, n);
    ModMul(ra, b, n);
    ModSmall(ra, n);
    assert (ra * b) % n == (ra * rb) % n;
  }

  lemma ModMulRight(a: int, b: int, n: int)
    requires n > 0
    ensures (a * b) % n == (a * (b % n)) % n
  {
    ModMulLeft(b, a, n);
    assert a * b == b * a;
    assert a * (b % n) == (b % n) * a;
  }

  lemma ModSmall(a: int, n: int)
    requires 0 <= a < n
    ensures a % n == a
  {
    ModUnique(a, n, 0, a);
  }

  /** Reducing the base does not change a power's remainder. */
  lemma {:induction false} PowerMod(a: nat, b: nat, n: nat)
    requires n > 0
    ensures Power(a % n, b) % n == Power(a, b) % n
    decreases b
  {
    if b > 0 {
      PowerMod(a, b - 1, n);
      calc {
        Power(a % n, b) % n;
        ((a % n) * Power(a % n, b - 1)) % n;
        { ModMulRight(a % n, Power(a % n, b - 1), n); }
        ((a % n) * (Power(a % n, b - 1) % n)) % n;
        ((a % n) * (Power(a, b - 1) % n)) % n;
        { ModMulRight(a % n, Power(a, b - 1), n); }
        ((a % n) * Power(a, b - 1)) % n;
        { ModMulLeft(a, Power(a, b - 1), n); }
        (a * Power(a, b - 1)) % n;
      }
    }
  }

  /** If `x^m` leaves remainder 1, so does every power of `x^m`. */
  lemma PowerOfUnit(x: nat, m: nat, q: nat, n: nat)
    requires n > 1 && Power(x, m) % n == 1
    ensures Power(x, m * q) % n == 1
  {
    PowerMul(x, m, q);
    PowerMod(Power(x, m), q, n);
    PowerOne(q);
    ModSmall(1, n);
  }

  /** Remainders of powers multiply like the powers do. */
  lemma PowerAddMod(x: nat, b: nat, c: nat, n: nat)
    requires n > 0
    ensures Power(x, b + c) % n == ((Power(x, b) % n) * (Power(x, c) % n)) % n
  {
    PowerAdd(x, b, c);
    ModMul(Power(x, b), Power(x, c), n);
  }

  // ---------------------------------------------------------------------
  // Divisibility, gcd and Bezout coefficients
  // ---------------------------------------------------------------------

  /** `d` divides `a`; only positive divisors are considered. */
  predicate Divides(d: nat, a: nat)
  {
    d > 0 && a % d == 0
  }

  lemma DividesMul(d: nat, k: nat)
    requires d > 0
    ensures Divides(d, d * k) && Divides(d, k * d)
  {
    ModOfMultiple(k, d);
  }

  lemma DividesTrans(a: nat, b: nat, c: nat)
    requires Divides(a, b) && Divides(b, c)
    ensures Divides(a, c)
  {
    var j, k := b / a, c / b;
    assert b == a * j;
    assert c == b * k;
    assert c == a * (j * k);
    ModOfMultiple(j * k, a);
  }

  lemma DividesLe(d: nat, a: nat)
    requires Divides(d, a) && a > 0
    ensures d <= a
  {
    var k := a / d;
    assert a == k * d;
    assert k != 0;
    MulMonoLeft(1, k, d);
  }

  /** Greatest common divisor, by Euclid's recursion. */
  function Gcd(a: nat, b: nat): nat
    decreases b
  {
    if b == 0 then a else Gcd(b, a % b)
  }

  /** The Euclidean recursion with its Bezout coefficients: the result
      `(g, x, y)` has `g == Gcd(a, b)`, and `a * x + b * y == g` by
      `Bezout`. */
  function ExtendedGcd(a: nat, b: nat): (r: (nat, int, int))
    decreases b
    ensures r.0 == Gcd(a, b)
  {
    if b == 0 then (a, 1, 0)
    else
      var t := ExtendedGcd(b, a % b);
      (t.0, t.2, t.1 - (a / b) * t.2)
  }

  lemma {:induction false} Bezout(a: nat, b: nat)
    ensures a * ExtendedGcd(a, b).1 + b * ExtendedGcd(a, b).2 == ExtendedGcd(a, b).0
    decreases b
  {
    if b > 0 {
      var q, m := a / b, a % b;
      var t := ExtendedGcd(b, m);
      var r := ExtendedGcd(a, b);
      assert r.0 == t.0 && r.1 == t.2 && r.2 == t.1 - q * t.2;
      Bezout(b, m);
      DivMod(a, b);
      BezoutStep(a, b, q, m, t.1, t.2, t.0, r.1, r.2);
    }
  }

  lemma DivMod(a: int, b: int)
    requires b > 0
    ensures a == (a / b) * b + a % b
    ensures a >= 0 ==> a / b >= 0
  {
    if a >= 0 && a / b < 0 {
      MulMonoLeft(a / b, -1, b);
    }
  }

  lemma BezoutStep(a: int, b: int, q: int, m: int, x: int, y: int, g: int, u: int, v: int)
    requires a == q * b + m && b * x + m * y == g && u == y && v == x - q * y
    ensures a * u + b * v == g
  {
    assert a * y == q * b * y + m * y;
    assert b * (x - q * y) == b * x - q * b * y;
  }

  function Abs(x: int): nat
  {
    if x < 0 then -x else x
  }

  lemma MulMonoLeft(u: int, v: int, g: int)
    requires u <= v && g >= 0
    ensures u * g <= v * g
  {
    assert v * g - u * g == (v - u) * g;
  }

  lemma MulDistrib(u: int, v: int, w: int, g: int)
    ensures (u + v * w) * g == u * g + v * (w * g)
  {}

  lemma AbsSubMul(x: int, q: nat, y: int)
    ensures Abs(x - q * y) <= Abs(x) + q * Abs(y)
  {
    if y < 0 {
      assert q * y == -(q * Abs(y));
    } else {
      assert q * y == q * Abs(y);
    }
    assert q * Abs(y) >= 0;
  }

  /** The coefficient of `a` stays within `b / g`, and that of `b` within
      `a / g`, which is what lets the ring fold a negative coefficient back
      into range by adding the cardinality once. */
  lemma {:induction false} ExtendedGcdBounds(a: nat, b: nat)
    requires b > 0
    ensures ExtendedGcd(a, b).0 > 0
    ensures Abs(ExtendedGcd(a, b).1) * ExtendedGcd(a, b).0 <= b
    ensures a > 0 ==> Abs(ExtendedGcd(a, b).2) * ExtendedGcd(a, b).0 <= a
    decreases b
  {
    if a % b == 0 {
      ExtendedGcdBoundsBase(a, b);
    } else {
      ExtendedGcdBounds(b, a % b);
      ExtendedGcdBoundsStep(a, b);
    }
  }

  /** One Euclidean step keeps the coefficient bounds. */
  lemma ExtendedGcdBoundsStep(a: nat, b: nat)
    requires b > 0 && a % b > 0
    requires ExtendedGcd(b, a % b).0 > 0
    requires Abs(ExtendedGcd(b, a % b).1) * ExtendedGcd(b, a % b).0 <= a % b
    requires Abs(ExtendedGcd(b, a % b).2) * ExtendedGcd(b, a % b).0 <= b
    ensures ExtendedGcd(a, b).0 > 0
    ensures Abs(ExtendedGcd(a, b).1) * ExtendedGcd(a, b).0 <= b
    ensures Abs(ExtendedGcd(a, b).2) * ExtendedGcd(a, b).0 <= a
  {
    var q, m := a / b, a % b;
    DivMod(a, b);
    var t := ExtendedGcd(b, m);
    var r := ExtendedGcd(a, b);
    assert r.0 == t.0 && r.1 == t.2 && r.2 == t.1 - q * t.2;
    BoundsStep(t.0, t.1, t.2, q, m, b, a, r.2);
  }

  /** When `b` divides `a` the coefficients are 0 and 1. */
  lemma ExtendedGcdBoundsBase(a: nat, b: nat)
    requires b > 0 && a % b == 0
    ensures ExtendedGcd(a, b) == (b, 0, 1)
    ensures a > 0 ==> b <= a
  {
    var q := a / b;
    assert a == q * b;
    if a > 0 {
      assert q >= 1;
      MulMonoLeft(1, q, b);
    }
  }

  lemma BoundsStep(g: int, x: int, y: int, q: nat, m: int, b: int, a: int, v: int)
    requires g > 0 && Abs(x) * g <= m && Abs(y) * g <= b && a == q * b + m
    requires v == x - q * y
    ensures Abs(v) * g <= a
  {
    var ax, ay := Abs(x), Abs(y);
    AbsSubMul(x, q, y);
    MulMonoLeft(Abs(x - q * y), ax + q * ay, g);
    MulDistrib(ax, q, ay, g);
    MulMonoLeft(ay * g, b, q);
    assert (ay * g) * q == q * (ay * g);
    assert b * q == q * b;
  }

  lemma {:induction false} GcdDivides(a: nat, b: nat)
    requires a > 0 || b > 0
    ensures Divides(Gcd(a, b), a) && Divides(Gcd(a, b), b)
    decreases b
  {
    if b == 0 {
      ModOfMultiple(1, a);
    } else {
      var q, m := a / b, a % b;
      GcdDivides(b, m);
      var g := Gcd(b, m);
      var j, k := b / g, m / g;
      DivMod(b, g);
      DivMod(m, g);
      DivMod(a, b);
      LinearCombination(a, q, b, m, j, k, g);
      ModOfMultiple(q * j + k, g);
    }
  }

  lemma LinearCombination(a: int, q: int, b: int, m: int, j: int, k: int, g: int)
    requires a == q * b + m && b == j * g + 0 && m == k * g + 0
    ensures a == (q * j + k) * g
  {}

  lemma Factor2(a: int, b: int, d: int, i: int, x: int, j: int, y: int, g: int)
    requires a == i * d + 0 && b == j * d + 0 && a * x + b * y == g
    ensures g == (i * x + j * y) * d + 0
  {}

  /** Every common divisor divides the gcd (from the Bezout identity). */
  lemma CommonDivisorDividesGcd(d: nat, a: nat, b: nat)
    requires Divides(d, a) && Divides(d, b)
    ensures Divides(d, Gcd(a, b))
  {
    var t := ExtendedGcd(a, b);
    Bezout(a, b);
    var i, j := a / d, b / d;
    DivMod(a, d);
    DivMod(b, d);
    Factor2(a, b, d, i, t.1, j, t.2, t.0);
    ModUnique(t.0, d, i * t.1 + j * t.2, 0);
  }

  lemma GcdOfDivisor(n: nat, h: nat)
    requires Divides(n, h)
    ensures Gcd(n, h) == n
  {
    ModOfMultiple(1, n);
    GcdDivides(n, h);
    CommonDivisorDividesGcd(n, n, h);
    DividesLe(Gcd(n, h), n);
    DividesLe(n, Gcd(n, h));
  }

  // ---------------------------------------------------------------------
  // Primes
  // ---------------------------------------------------------------------

  predicate IsPrime(p: nat)
  {
    p >= 2 && forall d :: 2 <= d < p ==> p % d != 0
  }

  /** The only divisors of a prime are 1 and itself. */
  lemma PrimeDivisor(p: nat, d: nat)
    requires IsPrime(p) && Divides(d, p)
    ensures d == 1 || d == p
  {
    DividesLe(d, p);
  }

  lemma CoprimeToPrime(p: nat, a: nat)
    requires IsPrime(p) && !Divides(p, a)
    ensures Gcd(p, a) == 1
  {
    GcdDivides(p, a);
    PrimeDivisor(p, Gcd(p, a));
  }

  /** Gauss: a divisor coprime to one factor divides the other. */
  lemma Gauss(k: nat, a: nat, b: nat)
    requires k > 0 && Gcd(k, a) == 1 && Divides(k, a * b)
    ensures Divides(k, b)
  {
    var t := ExtendedGcd(k, a);
    Bezout(k, a);
    var x, y := t.1, t.2;
    var ab := a * b;
    var c := ab / k;
    DivMod(ab, k);
    GaussStep(k, a, b, c, x, y, ab);
    ModUnique(b, k, b * x + c * y, 0);
  }

  lemma GaussStep(k: int, a: int, b: int, c: int, x: int, y: int, ab: int)
    requires k * x + a * y == 1 && ab == a * b && ab == c * k + 0
    ensures b == (b * x + c * y) * k + 0
  {
    calc {
      b;
      b * (k * x + a * y);
      (b * x) * k + (a * b) * y;
      (b * x) * k + (k * c) * y;
      (b * x + c * y) * k;
    }
  }

  /** Euclid's lemma. */
  lemma Euclid(p: nat, a: nat, b: nat)
    requires IsPrime(p) && Divides(p, a * b)
    ensures Divides(p, a) || Divides(p, b)
  {
    if !Divides(p, a) {
      CoprimeToPrime(p, a);
      Gauss(p, a, b);
    }
  }

  lemma {:induction false} EuclidPower(q: nat, p: nat, e: nat)
    requires IsPrime(q) && IsPrime(p) && Divides(q, Power(p, e))
    ensures q == p
    decreases e
  {
    if e == 0 {
      assert Power(p, 0) == 1;
      DividesLe(q, 1);
    } else {
      Euclid(q, p, Power(p, e - 1));
      if Divides(q, p) {
        PrimeDivisor(p, q);
      } else {
        EuclidPower(q, p, e - 1);
      }
    }
  }

  /** A divisor coprime to a prime can be cleared of that prime's powers. */
  lemma {:induction false} CancelPrimePower(k: nat, a: nat, p: nat, r: nat)
    requires IsPrime(p) && k > 0 && !Divides(p, k) && Divides(k, a * Power(p, r))
    ensures Divides(k, a)
    decreases r
  {
    if r > 0 {
      GcdCommute(k, p);
      CoprimeToPrime(p, k);
      var rest := a * Power(p, r - 1);
      MulAssoc(a, p, Power(p, r - 1));
      assert a * p == p * a;
      MulAssoc(p, a, Power(p, r - 1));
      Gauss(k, p, rest);
      CancelPrimePower(k, a, p, r - 1);
    } else {
      assert a * Power(p, 0) == a;
    }
  }

  lemma GcdCommute(a: nat, b: nat)
    ensures Gcd(a, b) == Gcd(b, a)
  {
    if a > 0 || b > 0 {
      GcdDivides(a, b);
      GcdDivides(b, a);
      CommonDivisorDividesGcd(Gcd(a, b), b, a);
      CommonDivisorDividesGcd(Gcd(b, a), a, b);
      var g1, g2 := Gcd(a, b), Gcd(b, a);
      if g1 > 0 && g2 > 0 {
        if a > 0 {
          DividesLe(g1, g2);
          DividesLe(g2, g1);
        } else {
          DividesLe(g1, g2);
          DividesLe(g2, g1);
        }
      }
    } else {
      assert Gcd(0, 0) == 0;
    }
  }

  /** Every number above one has a prime divisor: its least divisor above one. */
  lemma PrimeFactorExists(k: nat) returns (q: nat)
    requires k >= 2
    ensures IsPrime(q) && Divides(q, k)
  {
    q := 2;
    while k % q != 0
      invariant 2 <= q <= k
      invariant forall d :: 2 <= d < q ==> k % d != 0
      decreases k - q
    {
      q := q + 1;
    }
    forall d | 2 <= d < q
      ensures q % d != 0
    {
      if q % d == 0 {
        DividesTrans(d, q, k);
      }
    }
  }

  // ---------------------------------------------------------------------
  // Prime factorisation
  // ---------------------------------------------------------------------

  /** Product of `ps[i]^es[i]`, multiplied from the front. */
  function Prod(ps: seq<nat>, es: seq<nat>): nat
    requires |ps| == |es|
    decreases |ps|
  {
    if |ps| == 0 then 1 else Power(ps[0], es[0]) * Prod(ps[1..], es[1..])
  }

  lemma ProdCons(p: nat, e: nat, ps: seq<nat>, es: seq<nat>)
    requires |ps| == |es|
    ensures Prod([p] + ps, [e] + es) == Power(p, e) * Prod(ps, es)
  {
    assert ([p] + ps)[1..] == ps && ([e] + es)[1..] == es;
  }

  lemma {:induction false} ProdPositive(ps: seq<nat>, es: seq<nat>)
    requires |ps| == |es| && forall i :: 0 <= i < |ps| ==> ps[i] > 0
    ensures Prod(ps, es) > 0
    decreases |ps|
  {
    if |ps| > 0 {
      ProdPositive(ps[1..], es[1..]);
      PowerPositive(ps[0], es[0]);
      MulPositive(Power(ps[0], es[0]), Prod(ps[1..], es[1..]));
    }
  }

  /** What `factor_prime` promises: distinct primes in increasing order,
      positive exponents, and `h` as their product. */
  ghost predicate IsFactorisation(h: nat, ps: seq<nat>, es: seq<nat>)
  {
    && |ps| == |es|
    && (forall i :: 0 <= i < |ps| ==> IsPrime(ps[i]) && es[i] >= 1)
    && (forall i, j :: 0 <= i < j < |ps| ==> ps[i] < ps[j])
    && Prod(ps, es) == h
  }

  /** `h == d^e * rest` with `d` not dividing `rest`. */
  function StripFactor(h: nat, d: nat): (r: (nat, nat))
    requires h >= 1 && d >= 2
    decreases h
    ensures h == Power(d, r.0) * r.1 && r.1 >= 1 && r.1 % d != 0
  {
    if h % d != 0 then (0, h)
    else
      var c := Cofactor(h, d);
      var t := StripFactor(c, d);
      StripStep(h, d, c, Power(d, t.0), t.1, Power(d, t.0 + 1));
      (t.0 + 1, t.1)
  }

  lemma StripStep(h: int, d: int, c: int, pw: int, rest: int, pw': int)
    requires c * d == h && c == pw * rest && pw' == d * pw
    ensures h == pw' * rest
  {}

  /** Dividing out `d`, the least divisor above 1 of `h`: `d` is prime,
      it occurs at least once, and what is left is smaller and free of
      divisors in `[2, d]`. */
  lemma FactorFromStep(h: nat, d: nat)
    requires h >= 2 && d >= 2 && h % d == 0
    requires forall k :: 2 <= k < d ==> h % k != 0
    ensures IsPrime(d)
    ensures StripFactor(h, d).0 >= 1
    ensures StripFactor(h, d).1 < h
    ensures forall k :: 2 <= k < d + 1 ==> StripFactor(h, d).1 % k != 0
  {
    var t := StripFactor(h, d);
    var e, rest := t.0, t.1;
    assert e == StripFactor(Cofactor(h, d), d).0 + 1;
    forall k | 2 <= k < d ensures d % k != 0 {
      if d % k == 0 { DividesTrans(k, d, h); }
    }
    var pw := Power(d, e);
    PowerAtLeastBase(d, e);
    MulGrows(pw, rest);
    DividesMul(rest, pw);
    forall k | 2 <= k < d + 1 ensures rest % k != 0 {
      if k < d && rest % k == 0 { DividesTrans(k, rest, h); }
    }
  }

  lemma PowerAtLeastBase(d: nat, e: nat)
    requires d >= 1 && e >= 1
    ensures Power(d, e) >= d
  {
    PowerPositive(d, e - 1);
    MulMonoLeft(1, Power(d, e - 1), d);
  }

  lemma MulGrows(p: int, x: int)
    requires p >= 2 && x >= 1
    ensures p * x > x
  {
    MulMonoLeft(2, p, x);
  }

  /** Trial division of `h`, which has no divisor in `[2, d)`, from `d` up. */
  function FactorFrom(h: nat, d: nat): (r: (seq<nat>, seq<nat>))
    requires h >= 1 && d >= 2
    requires forall k :: 2 <= k < d ==> h % k != 0
    decreases h, h - d
    ensures |r.0| == |r.1| && Prod(r.0, r.1) == h
    ensures forall i :: 0 <= i < |r.0| ==> IsPrime(r.0[i]) && r.1[i] >= 1 && r.0[i] >= d
    ensures forall i, j :: 0 <= i < j < |r.0| ==> r.0[i] < r.0[j]
  {
    if h == 1 then ([], [])
    else
      assert d <= h by {
        assert h % h == 0;
      }
      if h % d == 0 then
        var t := StripFactor(h, d);
        FactorFromStep(h, d);
        var s := FactorFrom(t.1, d + 1);
        ProdCons(d, t.0, s.0, s.1);
        ([d] + s.0, [t.0] + s.1)
      else
        FactorFrom(h, d + 1)
  }

  /** The prime factorisation of `h` (`factor_prime`). */
  function FactorPrime(h: nat): (r: (seq<nat>, seq<nat>))
    requires h >= 1
    ensures IsFactorisation(h, r.0, r.1)
  {
    FactorFrom(h, 2)
  }

  /** A prime dividing a product of prime powers is one of its primes. */
  lemma {:induction false} PrimeOfProd(q: nat, ps: seq<nat>, es: seq<nat>) returns (i: nat)
    requires IsPrime(q) && |ps| == |es| && (forall k :: 0 <= k < |ps| ==> IsPrime(ps[k]))
    requires Divides(q, Prod(ps, es))
    ensures i < |ps| && ps[i] == q
    decreases |ps|
  {
    if |ps| == 0 {
      DividesLe(q, 1);
    } else {
      Euclid(q, Power(ps[0], es[0]), Prod(ps[1..], es[1..]));
      if Divides(q, Power(ps[0], es[0])) {
        EuclidPower(q, ps[0], es[0]);
        i := 0;
      } else {
        var k := PrimeOfProd(q, ps[1..], es[1..]);
        i := k + 1;
      }
    }
  }

  /** Each prime repeated as often as its exponent (`get_prime_factors`). */
  function GetPrimeFactors(ps: seq<nat>, es: seq<nat>): (r: seq<nat>)
    requires |ps| == |es|
    ensures |r| == Sum(es)
    ensures forall x :: x in r ==> x in ps
    ensures SeqProd(r) == Prod(ps, es)
    ensures (forall i, j :: 0 <= i < j < |ps| ==> ps[i] < ps[j]) ==>
      forall i :: 0 <= i < |ps| ==> multiset(r)[ps[i]] == es[i]
    decreases |ps|
  {
    if |ps| == 0 then []
    else
      var rest := GetPrimeFactors(ps[1..], es[1..]);
      var run := seq(es[0], _ => ps[0]);
      assert ps == [ps[0]] + ps[1..] && es == [es[0]] + es[1..];
      ProdCons(ps[0], es[0], ps[1..], es[1..]);
      SeqProdAppend(run, rest);
      SeqProdRun(ps[0], es[0]);
      PrimeCounts(ps, es, run, rest);
      run + rest
  }

  /** With ascending primes, the run of the first prime and the factors of
      the rest count every prime exactly its exponent times. */
  lemma PrimeCounts(ps: seq<nat>, es: seq<nat>, run: seq<nat>, rest: seq<nat>)
    requires |ps| == |es| && |ps| > 0
    requires run == seq(es[0], _ => ps[0])
    requires forall x :: x in rest ==> x in ps[1..]
    requires (forall i, j :: 0 <= i < j < |ps[1..]| ==> ps[1..][i] < ps[1..][j]) ==>
      forall i :: 0 <= i < |ps[1..]| ==> multiset(rest)[ps[1..][i]] == es[1..][i]
    ensures (forall i, j :: 0 <= i < j < |ps| ==> ps[i] < ps[j]) ==>
      forall i :: 0 <= i < |ps| ==> multiset(run + rest)[ps[i]] == es[i]
  {
    if forall i, j :: 0 <= i < j < |ps| ==> ps[i] < ps[j] {
      assert multiset(run + rest) == multiset(run) + multiset(rest);
      assert ps[0] !in rest;
      forall i | 0 <= i < |ps|
        ensures multiset(run + rest)[ps[i]] == es[i]
      {
        RunCount(ps[0], es[0], ps[i]);
        if i > 0 {
          assert ps[i] == ps[1..][i - 1] && es[i] == es[1..][i - 1];
        }
      }
    }
  }

  /** A run of `e` copies of `p` holds `p` exactly `e` times and nothing else. */
  lemma {:induction false} RunCount(p: nat, e: nat, q: nat)
    ensures multiset(seq(e, _ => p))[q] == if q == p then e else 0
    decreases e
  {
    if e > 0 {
      assert seq(e, _ => p) == [p] + seq(e - 1, _ => p);
      RunCount(p, e - 1, q);
    } else {
      assert seq(e, _ => p) == [];
    }
  }

  /** Product of a sequence, from the front. */
  function SeqProd(s: seq<nat>): nat
    decreases |s|
  {
    if |s| == 0 then 1 else s[0] * SeqProd(s[1..])
  }

  lemma {:induction false} SeqProdAppend(a: seq<nat>, b: seq<nat>)
    ensures SeqProd(a + b) == SeqProd(a) * SeqProd(b)
    decreases |a|
  {
    if |a| > 0 {
      assert (a + b)[1..] == a[1..] + b;
      SeqProdAppend(a[1..], b);
    } else {
      assert a + b == b;
    }
  }

  lemma {:induction false} SeqProdRun(p: nat, e: nat)
    ensures SeqProd(seq(e, _ => p)) == Power(p, e)
    decreases e
  {
    if e > 0 {
      assert seq(e, _ => p)[1..] == seq(e - 1, _ => p);
      SeqProdRun(p, e - 1);
    }
  }

  function Sum(es: seq<nat>): nat
    decreases |es|
  {
    if |es| == 0 then 0 else es[0] + Sum(es[1..])
  }

  /** `h / p` for a divisor `p >= 2` of `h >= 1`: at least 1, below `h`. */
  function Cofactor(h: nat, p: nat): (r: nat)
    requires h >= 1 && p >= 2 && h % p == 0
    ensures r * p == h && 1 <= r < h
  {
    var r := h / p;
    assert h == r * p;
    assert r != 0;
    assert h == r + (p - 1) * r;
    MulPositive(p - 1, r);
    r
  }

  /** `h / p` for each prime `p` of `h` (`get_proper_divisors`). */
  function GetProperDivisors(h: nat, ps: seq<nat>): (r: seq<nat>)
    requires forall i :: 0 <= i < |ps| ==> IsPrime(ps[i]) && Divides(ps[i], h)
    requires h >= 1
    ensures |r| == |ps|
    ensures forall i :: 0 <= i < |ps| ==> r[i] * ps[i] == h && 1 <= r[i] < h
    decreases |ps|
  {
    if |ps| == 0 then []
    else
      assert IsPrime(ps[0]) && Divides(ps[0], h);
      [Cofactor(h, ps[0])] + GetProperDivisors(h, ps[1..])
  }

  lemma {:induction false} SumAppend(a: seq<nat>, b: seq<nat>)
    ensures Sum(a + b) == Sum(a) + Sum(b)
    decreases |a|
  {
    if |a| == 0 {
      assert a + b == b;
    } else {
      assert (a + b)[1..] == a[1..] + b;
      SumAppend(a[1..], b);
    }
  }

  /** Appending a prime power at the back multiplies the product by it. */
  lemma {:induction false} ProdAppend(ps: seq<nat>, es: seq<nat>, p: nat, e: nat)
    requires |ps| == |es|
    ensures Prod(ps + [p], es + [e]) == Prod(ps, es) * Power(p, e)
    decreases |ps|
  {
    if |ps| == 0 {
      assert ([] + [p])[1..] == [] && ([] + [e])[1..] == [];
      assert ps + [p] == [p] && es + [e] == [e];
    } else {
      var ps', es' := ps + [p], es + [e];
      assert ps'[1..] == ps[1..] + [p] && es'[1..] == es[1..] + [e];
      ProdAppend(ps[1..], es[1..], p, e);
      MulAssoc(Power(ps[0], es[0]), Prod(ps[1..], es[1..]), Power(p, e));
    }
  }

  /** Each prime of a product with positive exponents divides it. */
  lemma {:induction false} PrimeDividesProd(ps: seq<nat>, es: seq<nat>, i: nat)
    requires |ps| == |es| && i < |ps| && ps[i] > 0 && es[i] >= 1
    ensures Divides(ps[i], Prod(ps, es))
    decreases i
  {
    var rest := Prod(ps[1..], es[1..]);
    if i == 0 {
      var pw := Power(ps[0], es[0]);
      assert pw == ps[0] * Power(ps[0], es[0] - 1);
      MulAssoc(ps[0], Power(ps[0], es[0] - 1), rest);
      DividesMul(ps[0], Power(ps[0], es[0] - 1) * rest);
    } else {
      PrimeDividesProd(ps[1..], es[1..], i - 1);
      if rest == 0 {
        assert Prod(ps, es) == Power(ps[0], es[0]) * 0;
      } else {
        DividesMul(rest, Power(ps[0], es[0]));
        DividesTrans(ps[i], rest, Prod(ps, es));
      }
    }
  }

  /** A common positive factor cancels from both sides of a product. */
  lemma MulCancel(a: int, b: int, q: int)
    requires q > 0 && a * q == b * q
    ensures a == b
  {
    assert (a - b) * q == 0;
  }

  lemma DividesCancel(a: nat, b: nat, p: nat)
    requires p > 0 && Divides(a * p, b * p)
    ensures Divides(a, b)
  {
    var ap := a * p;
    var k := (b * p) / ap;
    DivMod(b * p, ap);
    assert b * p == (a * k) * p by { MulAssoc(a, p, k); MulAssoc(a, k, p); }
    MulCancel(b, a * k, p);
    assert a > 0;
    ModOfMultiple(k, a);
  }
}
