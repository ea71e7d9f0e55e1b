/** Quotients and remainders of integers. */
module Division {
  lemma DivideTwice(n: nat, c: nat)
    requires c > 0
    ensures (n / 2 / c) * (2 * c) == n - n % (2 * c)
  {
    var q, r := n / (2 * c), n % (2 * c);
    assert n == q * (2 * c) + r;
    assert n / 2 == q * c + r / 2 by {
      assert q * (2 * c) == 2 * (q * c);
    }
    Quotient(n / 2, c, q, r / 2);
  }

  lemma Quotient(x: int, c: nat, q: int, r: nat)
    requires c > 0 && r < c && x == q * c + r
    ensures x / c == q
  {
    var d := x / c - q;
    assert x == (x / c) * c + x % c;
    if d > 0 {
      assert d * c >= c by {
        MulMono(1, d, c);
      }
    } else if d < 0 {
      assert -d * c >= c by {
        MulMono(1, -d, c);
      }
    }
  }

  lemma MulMono(a: int, b: int, c: nat)
    requires a <= b
    ensures a * c <= b * c
  {
  }

  predicate Multiple(n: nat, unit: nat)
    requires unit > 0
  {
    n == 0 || (n >= unit && Multiple(n - unit, unit))
  }

  lemma {:induction false} MultipleIs(n: nat, unit: nat)
    requires unit > 0
    ensures Multiple(n, unit) <==> n % unit == 0
  {
    if n < unit {
      Quotient(n, unit, 0, n);
    } else {
      MultipleIs(n - unit, unit);
      var q, r := (n - unit) / unit, (n - unit) % unit;
      assert n == (q + 1) * unit + r;
      Quotient(n, unit, q + 1, r);
    }
  }

  lemma MultipleOf(n: nat, q: nat, unit: nat)
    requires unit > 0 && n == q * unit
    ensures Multiple(n, unit)
  {
    Remainder(n, q, unit);
    MultipleIs(n, unit);
  }

  /** Sums and differences of multiples. */
  lemma MultiplesAdd(a: nat, b: nat, unit: nat)
    requires unit > 0 && Multiple(a, unit) && Multiple(b, unit)
    ensures Multiple(a + b, unit) && (b <= a ==> Multiple(a - b, unit))
  {
    MultipleIs(a, unit);
    MultipleIs(b, unit);
    RemaindersAdd(a, b, unit);
    MultipleIs(a + b, unit);
    if b <= a {
      MultipleIs(a - b, unit);
    }
  }

  lemma RemaindersAdd(a: nat, b: nat, unit: nat)
    requires unit > 0 && a % unit == 0 && b % unit == 0
    ensures (a + b) % unit == 0 && (a - b) % unit == 0
  {
    var p, q := a / unit, b / unit;
    assert a == p * unit && b == q * unit;
    assert a + b == (p + q) * unit;
    Remainder(a + b, p + q, unit);
    assert a - b == (p - q) * unit;
    Remainder(a - b, p - q, unit);
  }

  lemma Remainder(x: int, q: int, unit: nat)
    requires unit > 0 && x == q * unit
    ensures x % unit == 0
  {
    Quotient(x, unit, q, 0);
    assert x == (x / unit) * unit + x % unit;
  }
}
