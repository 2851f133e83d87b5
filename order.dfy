/** Multiplicative orders modulo `n`, and the three ways the ring reasons
    about them: the primitive-root test over the proper divisors of the
    group order, the descent of `do_step_get_order` through the prime
    factorisation, and the `n`-th roots taken from a primitive root. */
module Order {
  import opened Arith

  /** `m` is the order of `x` modulo `n`: the least positive exponent that
      brings `x` to 1. */
  ghost predicate IsOrder(n: nat, x: nat, m: nat)
  {
    && n >= 2 && m >= 1
    && Power(x, m) % n == 1
    && forall k :: 1 <= k < m ==> Power(x, k) % n != 1
  }

  /** An element with `x^h == 1` has an order, at most `h`. */
  lemma OrderExists(n: nat, x: nat, h: nat) returns (m: nat)
    requires n >= 2 && h >= 1 && Power(x, h) % n == 1
    ensures IsOrder(n, x, m) && m <= h
  {
    m := 1;
    while Power(x, m) % n != 1
      invariant 1 <= m <= h
      invariant forall k :: 1 <= k < m ==> Power(x, k) % n != 1
      decreases h - m
    {
      m := m + 1;
    }
  }

  lemma OrderUnique(n: nat, x: nat, m1: nat, m2: nat)
    requires IsOrder(n, x, m1) && IsOrder(n, x, m2)
    ensures m1 == m2
  {
  }

  /** `x^e == 1` exactly when the order of `x` divides `e`. */
  lemma OrderDivides(n: nat, x: nat, m: nat, e: nat)
    requires IsOrder(n, x, m)
    ensures Power(x, e) % n == 1 <==> Divides(m, e)
  {
    var q, r := e / m, e % m;
    DivMod(e, m);
    assert e == m * q + r;
    PowerOfUnit(x, m, q, n);
    PowerAddMod(x, m * q, r, n);
    ModSmall(Power(x, r) % n, n);
    assert Power(x, e) % n == Power(x, r) % n;
    if r == 0 {
      ModSmall(1, n);
    }
  }

  // ---------------------------------------------------------------------
  // The primitive-root test
  // ---------------------------------------------------------------------

  /** The primes of a factorisation of `h` all divide `h`. */
  lemma FactorisationDivides(h: nat, ps: seq<nat>, es: seq<nat>)
    requires IsFactorisation(h, ps, es)
    ensures forall i :: 0 <= i < |ps| ==> IsPrime(ps[i]) && Divides(ps[i], h)
  {
    forall i | 0 <= i < |ps|
      ensures IsPrime(ps[i]) && Divides(ps[i], h)
    {
      PrimeDividesProd(ps, es, i);
    }
  }

  /** The exponents `is_primitive_root` tries: `h / p` for each prime `p`
      of the factorisation of `h`. */
  function ProperDivisors(h: nat, ps: seq<nat>, es: seq<nat>): (r: seq<nat>)
    requires h >= 1 && IsFactorisation(h, ps, es)
    ensures |r| == |ps|
    ensures forall i :: 0 <= i < |ps| ==> r[i] * ps[i] == h && 1 <= r[i] < h
  {
    FactorisationDivides(h, ps, es);
    GetProperDivisors(h, ps)
  }

  /** The primitive-root test is exact.  When `x^h == 1`, `x` has order `h`
      if and only if `x^(h/p) != 1` for every prime `p` dividing `h`: an
      order below `h` would divide some `h/p`. */
  lemma {:induction false} RootTestCorrect(n: nat, x: nat, h: nat, ps: seq<nat>, es: seq<nat>)
    requires n >= 2 && h >= 1 && IsFactorisation(h, ps, es)
    requires Power(x, h) % n == 1
    ensures var ds := ProperDivisors(h, ps, es);
      (forall i :: 0 <= i < |ds| ==> Power(x, ds[i]) % n != 1) <==> IsOrder(n, x, h)
  {
    var ds := ProperDivisors(h, ps, es);
    if IsOrder(n, x, h) {
      forall i | 0 <= i < |ds|
        ensures Power(x, ds[i]) % n != 1
      {
        assert 1 <= ds[i] < h;
      }
    }
    if forall i :: 0 <= i < |ds| ==> Power(x, ds[i]) % n != 1 {
      var m := OrderExists(n, x, h);
      if m < h {
        var i := SmallOrderHitsTest(n, x, m, h, ps, es);
        assert false;
      }
    }
  }

  /** An order `m < h` dividing `h` divides `h / q` for a prime `q` of `h`. */
  lemma SmallOrderHitsTest(n: nat, x: nat, m: nat, h: nat, ps: seq<nat>, es: seq<nat>)
    returns (i: nat)
    requires n >= 2 && h >= 1 && IsFactorisation(h, ps, es)
    requires IsOrder(n, x, m) && Power(x, h) % n == 1 && m < h
    ensures i < |ps| && Power(x, ProperDivisors(h, ps, es)[i]) % n == 1
  {
    var ds := ProperDivisors(h, ps, es);
    OrderDivides(n, x, m, h);
    var k := h / m;
    DivMod(h, m);
    assert h == m * k;
    assert k != 0;
    assert k != 1;
    var q := PrimeFactorExists(k);
    DividesMul(k, m);
    DividesTrans(q, k, h);
    ProdPositive(ps, es);
    i := PrimeOfProd(q, ps, es);
    var j := k / q;
    DivMod(k, q);
    assert k == j * q;
    assert ds[i] * q == (m * j) * q by { MulAssoc(m, j, q); }
    MulCancel(ds[i], m * j, q);
    DividesMul(m, j);
    OrderDivides(n, x, m, ds[i]);
  }

  // ---------------------------------------------------------------------
  // The order descent of do_step_get_order
  // ---------------------------------------------------------------------

  /** What `do_step_get_order` computes, read as a function: pairs `(p, r)`
      are taken from the back; if `x^(h/p) == 1` the search descends to
      `h/p`, putting `(p, r-1)` back when `r > 1`; otherwise the pair is
      dropped.  With no pairs left the answer is `h`.  This is the
      reference function `DoStepGetOrder` is proved against. */
  function OrderStep(n: nat, x: nat, h: nat, ps: seq<nat>, es: seq<nat>): nat
    requires n >= 2 && |ps| == |es| && forall i :: 0 <= i < |ps| ==> ps[i] > 0
    decreases Sum(es) + |ps|
  {
    if |ps| == 0 then h
    else
      var k := |ps| - 1;
      var p, e := ps[k], es[k];
      assert es == es[..k] + [e];
      SumAppend(es[..k], [e]);
      var y := h / p;
      if Power(x, y) % n != 1 then OrderStep(n, x, h, ps[..k], es[..k])
      else if e > 1 then
        SumAppend(es[..k], [e - 1]);
        OrderStep(n, x, y, ps[..k] + [p], es[..k] + [e - 1])
      else OrderStep(n, x, y, ps[..k], es[..k])
  }

  /** The invariant of the descent: the order `m` of `x` divides `h`, the
      remaining prime powers divide `h`, and the cofactor `h / m` divides
      the remaining prime powers. */
  ghost predicate DescentInvariant(n: nat, x: nat, m: nat, h: nat, ps: seq<nat>, es: seq<nat>)
  {
    && IsOrder(n, x, m)
    && h >= 1 && Divides(m, h)
    && |ps| == |es|
    && (forall i :: 0 <= i < |ps| ==> IsPrime(ps[i]) && es[i] >= 1)
    && Divides(Prod(ps, es), h)
    && Divides(h / m, Prod(ps, es))
  }

  /** The descent starts from the full factorisation of a multiple `h`
      of the order. */
  lemma DescentStart(n: nat, x: nat, m: nat, h: nat, ps: seq<nat>, es: seq<nat>)
    requires IsOrder(n, x, m) && h >= 1 && IsFactorisation(h, ps, es) && Power(x, h) % n == 1
    ensures DescentInvariant(n, x, m, h, ps, es)
  {
    OrderDivides(n, x, m, h);
    DivMod(h, m);
    DividesMul(h / m, m);
    ModOfMultiple(1, h);
  }

  /** One step of `OrderStep` on the last pair of a non-empty list. */
  lemma OrderStepPop(n: nat, x: nat, h: nat, ps: seq<nat>, es: seq<nat>)
    requires n >= 2 && |ps| == |es| && |ps| > 0 && forall i :: 0 <= i < |ps| ==> ps[i] > 0
    ensures var k := |ps| - 1;
      && Sum(es[..k]) + es[k] == Sum(es)
      && (es[k] > 1 ==> Sum(es[..k] + [es[k] - 1]) + 1 == Sum(es))
      && OrderStep(n, x, h, ps, es) ==
        if Power(x, h / ps[k]) % n != 1 then OrderStep(n, x, h, ps[..k], es[..k])
        else if es[k] > 1 then OrderStep(n, x, h / ps[k], ps[..k] + [ps[k]], es[..k] + [es[k] - 1])
        else OrderStep(n, x, h / ps[k], ps[..k], es[..k])
  {
    var k := |ps| - 1;
    assert es == es[..k] + [es[k]];
    SumAppend(es[..k], [es[k]]);
    if es[k] > 1 {
      SumAppend(es[..k], [es[k] - 1]);
    }
  }

  /** One step of `OrderStep` on the prefix `ps[..j]`, `es[..j]`, stated
      on prefixes of the original lists. */
  lemma PrefixPop(n: nat, x: nat, h: nat, ps: seq<nat>, es: seq<nat>, j: nat)
    requires n >= 2 && |ps| == |es| && 0 < j <= |ps| && forall i :: 0 <= i < |ps| ==> ps[i] > 0
    ensures ps[..j][..j - 1] == ps[..j - 1] && es[..j][..j - 1] == es[..j - 1]
    ensures Sum(es[..j - 1]) + es[j - 1] <= Sum(es)
    ensures es[j - 1] > 1 ==> Sum(es[..j - 1] + [es[j - 1] - 1]) + 1 <= Sum(es)
    ensures OrderStep(n, x, h, ps[..j], es[..j]) ==
      if Power(x, h / ps[j - 1]) % n != 1 then OrderStep(n, x, h, ps[..j - 1], es[..j - 1])
      else if es[j - 1] > 1 then OrderStep(n, x, h / ps[j - 1], ps[..j - 1] + [ps[j - 1]], es[..j - 1] + [es[j - 1] - 1])
      else OrderStep(n, x, h / ps[j - 1], ps[..j - 1], es[..j - 1])
  {
    assert ps[..j][..j - 1] == ps[..j - 1] && es[..j][..j - 1] == es[..j - 1];
    OrderStepPop(n, x, h, ps[..j], es[..j]);
    SumPrefix(es, j);
  }

  /** A prefix sums to at most the whole. */
  lemma SumPrefix(es: seq<nat>, j: nat)
    requires j <= |es|
    ensures Sum(es[..j]) <= Sum(es)
  {
    assert es == es[..j] + es[j..];
    SumAppend(es[..j], es[j..]);
  }

  /** One step of `OrderStep` on a list whose last pair is `(p, e)`. */
  lemma OrderStepLast(n: nat, x: nat, h: nat, ps: seq<nat>, es: seq<nat>, p: nat, e: nat)
    requires n >= 2 && |ps| == |es| && p > 0 && forall i :: 0 <= i < |ps| ==> ps[i] > 0
    ensures OrderStep(n, x, h, ps + [p], es + [e]) ==
      if Power(x, h / p) % n != 1 then OrderStep(n, x, h, ps, es)
      else if e > 1 then OrderStep(n, x, h / p, ps + [p], es + [e - 1])
      else OrderStep(n, x, h / p, ps, es)
  {
    var ps', es' := ps + [p], es + [e];
    assert ps'[..|ps|] == ps && es'[..|ps|] == es;
  }

  /** The descent ends on the order of `x`. */
  lemma {:induction false} OrderStepCorrect(n: nat, x: nat, m: nat, h: nat, ps: seq<nat>, es: seq<nat>)
    requires DescentInvariant(n, x, m, h, ps, es)
    ensures OrderStep(n, x, h, ps, es) == m
    decreases Sum(es) + |ps|
  {
    if |ps| == 0 {
      DescentEnd(n, x, m, h);
    } else {
      var k := |ps| - 1;
      var ps', es', p, e := ps[..k], es[..k], ps[k], es[k];
      assert ps == ps' + [p] && es == es' + [e];
      SumAppend(es', [e]);
      InvariantUnsnoc(n, x, m, h, ps', es', p, e);
      OrderStepLast(n, x, h, ps', es', p, e);
      DivMod(h, p);
      var y := h / p;
      if Power(x, y) % n != 1 {
        DescentDrop(n, x, m, h, ps', es', p, e);
        OrderStepCorrect(n, x, m, h, ps', es');
      } else if e > 1 {
        DescentDescend(n, x, m, h, ps', es', p, e);
        SumAppend(es', [e - 1]);
        OrderStepCorrect(n, x, m, y, ps' + [p], es' + [e - 1]);
      } else {
        DescentDescend(n, x, m, h, ps', es', p, e);
        OrderStepCorrect(n, x, m, y, ps', es');
      }
    }
  }

  /** With no prime powers left, the cofactor is 1 and `h` is the order. */
  lemma DescentEnd(n: nat, x: nat, m: nat, h: nat)
    requires IsOrder(n, x, m) && h >= 1 && Divides(m, h) && Divides(h / m, 1)
    ensures h == m
  {
    DivMod(h, m);
    DividesLe(h / m, 1);
    assert h / m != 0;
    assert h == m * 1 + 0;
  }

  /** The invariant, read off a list whose last pair is `(p, e)`. */
  lemma InvariantUnsnoc(n: nat, x: nat, m: nat, h: nat, ps: seq<nat>, es: seq<nat>, p: nat, e: nat)
    requires DescentInvariant(n, x, m, h, ps + [p], es + [e])
    ensures IsOrder(n, x, m) && h >= 1 && Divides(m, h) && |ps| == |es|
    ensures IsPrime(p) && e >= 1
    ensures forall i :: 0 <= i < |ps| ==> IsPrime(ps[i]) && es[i] >= 1
    ensures Divides(Prod(ps, es) * Power(p, e), h)
    ensures Divides(h / m, Prod(ps, es) * Power(p, e))
  {
    var ps', es' := ps + [p], es + [e];
    assert ps'[|ps|] == p && es'[|ps|] == e;
    assert forall i :: 0 <= i < |ps| ==> ps'[i] == ps[i] && es'[i] == es[i];
    ProdAppend(ps, es, p, e);
  }

  /** The invariant, put together for a list extended by `(p, e)`. */
  lemma InvariantSnoc(n: nat, x: nat, m: nat, h: nat, ps: seq<nat>, es: seq<nat>, p: nat, e: nat)
    requires IsOrder(n, x, m) && h >= 1 && Divides(m, h) && |ps| == |es|
    requires IsPrime(p) && e >= 1
    requires forall i :: 0 <= i < |ps| ==> IsPrime(ps[i]) && es[i] >= 1
    requires Divides(Prod(ps, es) * Power(p, e), h)
    requires Divides(h / m, Prod(ps, es) * Power(p, e))
    ensures DescentInvariant(n, x, m, h, ps + [p], es + [e])
  {
    var ps', es' := ps + [p], es + [e];
    assert ps'[|ps|] == p && es'[|ps|] == e;
    assert forall i :: 0 <= i < |ps| ==> ps'[i] == ps[i] && es'[i] == es[i];
    ProdAppend(ps, es, p, e);
  }

  /** Dropping `(p, e)` when `x^(h/p) != 1`: then `p` does not divide the
      cofactor `h / m`, which therefore divides the other prime powers. */
  lemma DescentDrop(n: nat, x: nat, m: nat, h: nat, ps: seq<nat>, es: seq<nat>, p: nat, e: nat)
    requires DescentInvariant(n, x, m, h, ps + [p], es + [e])
    requires p > 0 && Power(x, h / p) % n != 1
    ensures DescentInvariant(n, x, m, h, ps, es)
  {
    InvariantUnsnoc(n, x, m, h, ps, es, p, e);
    var rest, pw := Prod(ps, es), Power(p, e);
    var c := h / m;
    if Divides(p, c) {
      CofactorDivisible(n, x, m, h, p);
      assert false;
    }
    CancelPrimePower(c, rest, p, e);
    ProdPositive(ps, es);
    DividesMul(rest, pw);
    DividesTrans(rest, rest * pw, h);
  }

  /** If `p` divides `h / m` then `m` divides `h / p`, so `x^(h/p) == 1`. */
  lemma CofactorDivisible(n: nat, x: nat, m: nat, h: nat, p: nat)
    requires IsOrder(n, x, m) && h >= 1 && Divides(m, h) && Divides(p, h / m)
    ensures Power(x, h / p) % n == 1
  {
    var c := h / m;
    var j := c / p;
    DivMod(h, m);
    DivMod(c, p);
    assert h == (m * j) * p by { MulAssoc(m, j, p); }
    ModUnique(h, p, m * j, 0);
    DividesMul(m, j);
    OrderDivides(n, x, m, h / p);
  }

  /** Descending to `h/p` when `x^(h/p) == 1`: the invariant holds again with
      one factor `p` fewer. */
  lemma DescentDescend(n: nat, x: nat, m: nat, h: nat, ps: seq<nat>, es: seq<nat>, p: nat, e: nat)
    requires DescentInvariant(n, x, m, h, ps + [p], es + [e])
    requires p > 0 && Power(x, h / p) % n == 1
    ensures e >= 1
    ensures e > 1 ==> DescentInvariant(n, x, m, h / p, ps + [p], es + [e - 1])
    ensures e == 1 ==> DescentInvariant(n, x, m, h / p, ps, es)
  {
    InvariantUnsnoc(n, x, m, h, ps, es, p, e);
    DivMod(h, p);
    var rest := Prod(ps, es);
    var low := rest * Power(p, e - 1);
    PowerSplit(p, e, rest, low);
    DividesMul(p, low);
    DividesTrans(p, low * p, h);
    OrderDivides(n, x, m, h / p);
    DescentArith(m, h, p, low, h / p);
    if e > 1 {
      InvariantSnoc(n, x, m, h / p, ps, es, p, e - 1);
    } else {
      assert low == rest;
    }
  }

  lemma PowerSplit(p: nat, e: nat, rest: nat, low: nat)
    requires e >= 1 && low == rest * Power(p, e - 1)
    ensures rest * Power(p, e) == low * p
  {
    MulAssoc(rest, Power(p, e - 1), p);
    assert Power(p, e) == p * Power(p, e - 1);
  }

  /** The arithmetic of one descent: from `h == y * p`, `m | y`, `low * p | h`
      and `h / m | low * p`, both divisibilities pass to `y`. */
  lemma DescentArith(m: nat, h: nat, p: nat, low: nat, y: nat)
    requires m >= 1 && p >= 1 && h >= 1 && y == h / p
    requires Divides(p, h) && Divides(m, y)
    requires Divides(low * p, h) && Divides(h / m, low * p)
    ensures y >= 1 && Divides(m, h)
    ensures Divides(low, y) && Divides(y / m, low)
  {
    DivMod(h, p);
    assert h == y * p;
    var j := y / m;
    DivMod(y, m);
    assert y == m * j;
    assert y != 0;
    assert h == m * (j * p) by { MulAssoc(m, j, p); }
    ModUnique(h, m, j * p, 0);
    assert h / m == j * p;
    DividesCancel(low, y, p);
    DividesCancel(j, low, p);
  }

  // ---------------------------------------------------------------------
  // Roots of unity
  // ---------------------------------------------------------------------

  /** `g^(h/d)` for a primitive root `g` and a divisor `d` of `h` has order
      exactly `d`. */
  lemma RootPowerOrder(n: nat, g: nat, h: nat, d: nat)
    requires IsOrder(n, g, h) && Divides(d, h)
    ensures IsOrder(n, Power(g, h / d) % n, d)
  {
    var s := h / d;
    DivMod(h, d);
    assert h == s * d;
    assert s != 0;
    var w := Power(g, s) % n;
    RootPowerStep(n, g, s, d);
    forall k | 1 <= k < d
      ensures Power(w, k) % n != 1
    {
      RootPowerStep(n, g, s, k);
      ExponentBelow(s, k, d, h);
    }
  }

  /** Powers of `g^s mod n` are powers of `g` with the exponents multiplied. */
  lemma RootPowerStep(n: nat, g: nat, s: nat, k: nat)
    requires n >= 2
    ensures Power(Power(g, s) % n, k) % n == Power(g, s * k) % n
  {
    PowerMod(Power(g, s), k, n);
    PowerMul(g, s, k);
  }

  lemma ExponentBelow(s: nat, k: nat, d: nat, h: nat)
    requires h == s * d && 1 <= k < d && s >= 1
    ensures 1 <= s * k < h
  {
    MulMonoLeft(k, d - 1, s);
    MulMonoLeft(1, k, s);
    assert (d - 1) * s == h - s;
  }

  /** Distinct exponents below the order give distinct powers. */
  lemma PowersDistinct(n: nat, w: nat, m: nat, i: nat, j: nat)
    requires IsOrder(n, w, m) && i < j < m
    ensures Power(w, i) % n != Power(w, j) % n
  {
    if Power(w, i) % n == Power(w, j) % n {
      var u := m - i;
      PowerAddMod(w, u, i, n);
      PowerAddMod(w, u, j, n);
      assert u + i == m;
      assert Power(w, u + j) % n == Power(w, m) % n;
      PowerAddMod(w, m, j - i, n);
      assert u + j == m + (j - i);
      ModSmall(Power(w, j - i) % n, n);
      assert false;
    }
  }

  /** Fermat's little theorem for `n`: every nonzero residue satisfies
      `x^(n-1) == 1`.  It holds for prime `n`; it is a premise here. */
  ghost predicate FermatHolds(n: nat)
  {
    n >= 2 && forall x :: 1 <= x < n ==> FermatUnit(n, x)
  }

  ghost predicate FermatUnit(n: nat, x: nat)
    requires n >= 2
  {
    Power(x, n - 1) % n == 1
  }

  /** What a naive order check that stops one exponent early accepts:
      `x^o == 1` and `x^k != 1` for `1 <= k < o - 1`. */
  ghost predicate NaiveOrderAccepts(n: nat, x: nat, o: nat)
  {
    n >= 2 && Power(x, o) % n == 1 && forall k :: 1 <= k < o - 1 ==> Power(x, k) % n != 1
  }

  /** The early-stopping check accepts exactly the true orders, plus the
      single wrong answer "1 has order 2". */
  lemma {:induction false} NaiveOrderAcceptsExactly(n: nat, x: nat, o: nat)
    requires n >= 2 && x < n && o >= 1
    ensures NaiveOrderAccepts(n, x, o) <==> IsOrder(n, x, o) || (o == 2 && x == 1)
  {
    ModSmall(1, n);
    ModSmall(x, n);
    if NaiveOrderAccepts(n, x, o) && !IsOrder(n, x, o) {
      var k :| 1 <= k < o && Power(x, k) % n == 1;
      assert k == o - 1;
      PowerAddMod(x, k, 1, n);
      assert o == k + 1;
      assert Power(x, 1) == x;
      assert x == 1;
      assert o == 2;
    }
    if o == 2 && x == 1 {
      assert Power(x, 2) == 1;
    }
  }

  /** The counterexample: 1 passes the check for order 2 without having
      order 2. */
  lemma NaiveOrderFlaw(n: nat)
    requires n >= 2
    ensures NaiveOrderAccepts(n, 1, 2) && !IsOrder(n, 1, 2)
  {
    ModSmall(1, n);
    assert Power(1, 2) == 1 && Power(1, 1) == 1;
  }
}
