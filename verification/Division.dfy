/** Division facts the solver does not find: quotients are unique, additive in multiples, monotone. */
module Division {
  function Quot(a: nat, p: nat): nat
    requires p > 0
  {
    a / p
  }

  lemma MulMonotone(x: int, y: int, p: nat)
    requires x <= y
    ensures x * p <= y * p
  {
  }

  lemma DivUnique(x: nat, p: nat, q: nat, r: nat)
    requires p > 0 && x == q * p + r && r < p
    ensures x / p == q
  {
    var d := x / p - q;
    assert x == (x / p) * p + x % p;
    assert d * p == r - x % p;
    if d >= 1 {
      MulMonotone(1, d, p);
    } else if d <= -1 {
      MulMonotone(d, -1, p);
    }
  }

  lemma DivAdd(a: nat, b: nat, p: nat)
    requires p > 0
    ensures Quot(a * p + b, p) == a + Quot(b, p)
  {
    assert b == (b / p) * p + b % p;
    assert a * p + b == (a + b / p) * p + b % p;
    DivUnique(a * p + b, p, a + b / p, b % p);
  }

  lemma DivMonotone(a: nat, b: nat, p: nat)
    requires a <= b && p > 0
    ensures Quot(a, p) <= Quot(b, p)
  {
    var d := a / p - b / p;
    assert a == (a / p) * p + a % p && b == (b / p) * p + b % p;
    assert d * p == a - b - a % p + b % p;
    if d >= 1 {
      MulMonotone(1, d, p);
    }
  }
}
