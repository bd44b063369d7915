/** Facts about the quotient of natural numbers. */
module Division {
  lemma Distribute(a: nat, b: nat, q: nat, r: nat)
    ensures a * (b * q + r) == (a * b) * q + a * r
  {
  }

  lemma QuotientUnique(a: nat, b: nat, q: nat, r: nat)
    requires b > 0 && a == b * q + r && r < b
    ensures a / b == q
  {
    var d: int := a / b - q;
    assert b * d == r - a % b by {
      assert b * d == b * (a / b) - b * q;
    }
    assert d >= 1 ==> b * d >= b;
    assert d <= -1 ==> b * d + b <= 0;
  }

  lemma InnerRemainder(a: nat, b: nat, r: nat, s: nat)
    requires r < b && s < a
    ensures 0 < a * b && a * r + s < a * b
  {
    assert a * b == a * (b - 1) + a;
    assert a * r <= a * (b - 1);
  }

  lemma Divided(a: nat, b: nat)
    requires b > 0
    ensures a == b * (a / b) + a % b
  {
  }

  /** Dividing twice is dividing by the product. */
  lemma DivideAgain(n: nat, a: nat, b: nat)
    requires a > 0 && b > 0
    ensures a * b > 0 && n / a / b == n / (a * b)
  {
    var (m, s) := (n / a, n % a);
    var (q, r) := (m / b, m % b);
    Divided(n, a);
    Divided(m, b);
    DivideParts(n, a, b, q, r, s);
  }

  lemma DivideParts(n: nat, a: nat, b: nat, q: nat, r: nat, s: nat)
    requires r < b && s < a && n == a * (b * q + r) + s
    ensures a * b > 0 && n / (a * b) == q
  {
    InnerRemainder(a, b, r, s);
    Distribute(a, b, q, r);
    QuotientUnique(n, a * b, q, a * r + s);
  }
}
