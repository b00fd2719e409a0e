/** Integer facts the rational type relies on: `std::gcd` on the absolute
    values of its arguments, and exact division by a divisor. */
module Numeric {

  function Abs(x: int): nat
  {
    if x < 0 then -x else x
  }

  /** The greatest common divisor of `a` and `b`, with gcd(0, 0) = 0, as
      `std::gcd` returns it; computed by repeated subtraction. */
  function Gcd(a: nat, b: nat): nat
    decreases a + b
  {
    if a == 0 then b
    else if b == 0 then a
    else if a >= b then Gcd(a - b, b)
    else Gcd(a, b - a)
  }

  /** The gcd divides both arguments; the quotients are returned. */
  lemma {:induction false} GcdDivides(a: nat, b: nat) returns (p: nat, q: nat)
    ensures a == p * Gcd(a, b) && b == q * Gcd(a, b)
    decreases a + b
  {
    if a == 0 {
      p, q := 0, 1;
    } else if b == 0 {
      p, q := 1, 0;
    } else if a >= b {
      var p', q' := GcdDivides(a - b, b);
      var g := Gcd(a, b);
      assert g == Gcd(a - b, b);
      Distribute(p', q', g);
      p, q := p' + q', q';
    } else {
      var p', q' := GcdDivides(a, b - a);
      var g := Gcd(a, b);
      assert g == Gcd(a, b - a);
      Distribute(p', q', g);
      p, q := p', p' + q';
    }
  }

  /** Every common divisor of `a` and `b` divides their gcd. */
  lemma {:induction false} GcdGreatest(a: nat, b: nat, k: nat, x: nat, y: nat) returns (z: nat)
    requires k > 0 && a == x * k && b == y * k
    ensures Gcd(a, b) == z * k
    decreases a + b
  {
    if a == 0 {
      z := y;
    } else if b == 0 {
      z := x;
    } else if a >= b {
      MulSign(x - y, k);
      assert (x - y) * k == a - b;
      z := GcdGreatest(a - b, b, k, x - y, y);
    } else {
      MulSign(y - x, k);
      assert (y - x) * k == b - a;
      z := GcdGreatest(a, b - a, k, x, y - x);
    }
  }

  /** The gcd is zero only for two zeros. */
  lemma {:induction false} GcdPositive(a: nat, b: nat)
    ensures Gcd(a, b) == 0 <==> a == 0 && b == 0
    decreases a + b
  {
    if a != 0 && b != 0 {
      if a >= b {
        GcdPositive(a - b, b);
      } else {
        GcdPositive(a, b - a);
      }
    }
  }

  /** Scaling both arguments scales the gcd. */
  lemma {:induction false} GcdScale(k: nat, a: nat, b: nat)
    ensures Gcd(k * a, k * b) == k * Gcd(a, b)
    decreases a + b
  {
    if k != 0 && a != 0 && b != 0 {
      MulSign(a, k);
      MulSign(b, k);
      if a >= b {
        GcdScale(k, a - b, b);
        assert k * a - k * b == k * (a - b);
      } else {
        GcdScale(k, a, b - a);
        assert k * b - k * a == k * (b - a);
      }
    }
  }

  /** Dividing two numbers, not both zero, by their gcd leaves coprime
      quotients. */
  lemma CoprimeQuotients(g: nat, p: nat, q: nat)
    requires g > 0 && Gcd(g * p, g * q) == g
    ensures Gcd(p, q) == 1
  {
    var h := Gcd(p, q);
    GcdScale(g, p, q);
    assert g * h == g * 1;
    MulCancel(g, h, 1);
  }

  lemma Distribute(x: int, y: int, g: int)
    ensures (x + y) * g == x * g + y * g
  {
  }

  lemma MulCancel(g: int, x: int, y: int)
    requires g > 0 && g * x == g * y
    ensures x == y
  {
    MulSign(x - y, g);
    assert (x - y) * g == g * x - g * y;
  }

  lemma MulSign(t: int, c: int)
    requires c > 0
    ensures t >= 1 ==> t * c >= c
    ensures t <= -1 ==> t * c <= -c
    ensures t == 0 ==> t * c == 0
  {
    if t >= 1 {
      assert t * c == (t - 1) * c + c;
    }
    if t <= -1 {
      assert t * c == (t + 1) * c - c;
    }
  }

  /** Division by a positive divisor of `p * c` is exact; C++'s truncating
      `/=` and Dafny's Euclidean `/` agree on it. */
  lemma ExactQuotient(p: int, c: int)
    requires c > 0
    ensures (p * c) / c == p
  {
    var q := (p * c) / c;
    var r := (p * c) % c;
    assert p * c == q * c + r;
    assert (p - q) * c == r;
    MulSign(p - q, c);
  }
}
