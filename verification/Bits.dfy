// Unsigned 64-bit words and pairs of words, with the shift and bit operations of Go,
// and the arithmetic they stand for.

module Bits {

  const WORD: nat := 0x1_0000_0000_0000_0000

  type Word = x: nat | x < 0x1_0000_0000_0000_0000

  // ----- Powers of two and division by them -----

  function Pow2(n: nat): (p: nat)
    ensures p > 0
  {
    if n == 0 then 1 else 2 * Pow2(n - 1)
  }

  // u shifted up by n bits.
  function Scale(u: nat, n: nat): (r: nat)
    ensures r == u * Pow2(n)
  {
    NonNegativeProduct(u, Pow2(n));
    u * Pow2(n)
  }

  lemma NonNegativeProduct(a: nat, b: nat)
    ensures 0 <= a * b
  {
  }

  lemma Pow2Step(n: nat)
    requires n > 0
    ensures Pow2(n) == 2 * Pow2(n - 1)
  {
  }

  lemma DoubleProduct(a: int, b: int)
    ensures 2 * (a * b) == (2 * a) * b
  {
  }

  lemma {:induction false} Pow2Add(a: nat, b: nat)
    ensures Pow2(a + b) == Pow2(a) * Pow2(b)
  {
    if a > 0 {
      Pow2Add(a - 1, b);
      Pow2Step(a);
      Pow2Step(a + b);
      hide Pow2;
      DoubleProduct(Pow2(a - 1), Pow2(b));
    } else {
      assert Pow2(0) == 1;
    }
  }

  lemma Pow2Word()
    ensures Pow2(64) == WORD && Pow2(63) * 2 == WORD && Pow2(10) == 1024 && Pow2(9) == 512
  {
    assert Pow2(8) == 256;
    Pow2Add(8, 8);
    Pow2Add(16, 16);
    Pow2Add(32, 32);
    assert Pow2(64) == 2 * Pow2(63);
  }

  lemma {:induction false} Pow2Monotone(a: nat, b: nat)
    requires a <= b
    ensures Pow2(a) <= Pow2(b)
  {
    if a < b {
      Pow2Monotone(a, b - 1);
    }
  }

  // Multiplying by a positive number keeps the order.
  lemma MulKeepsOrder(a: int, b: int, d: int)
    requires d > 0
    ensures a < b <==> a * d < b * d
    ensures a <= b <==> a * d <= b * d
  {
    assert b * d - a * d == (b - a) * d;
    if a < b {
      assert (b - a) * d >= 1;
    } else {
      assert (a - b) * d >= 0;
    }
  }

  // The quotient and remainder are determined by their defining equation.
  lemma DivModUnique(x: int, d: int, q: int, r: int)
    requires d > 0 && x == q * d + r && 0 <= r < d
    ensures x / d == q && x % d == r
  {
    var q', r' := x / d, x % d;
    assert x == q' * d + r';
    assert (q + 1) * d == q * d + d && (q' + 1) * d == q' * d + d;
    MulKeepsOrder(q, q' + 1, d);
    MulKeepsOrder(q', q + 1, d);
  }

  function Quotient(x: nat, d: nat): (q: nat)
    requires d > 0
    ensures q == x / d
  {
    MulKeepsOrder(x / d, 0, d);
    x / d
  }

  lemma DivDiv(x: nat, a: nat, b: nat)
    requires a > 0 && b > 0
    ensures a * b > 0
    ensures (x / a) / b == x / (a * b)
    ensures x % (a * b) == ((x / a) % b) * a + x % a
  {
    var q, r := x / a, x % a;
    var q', r' := q / b, q % b;
    DivisionParts(x, a);
    DivisionParts(q, b);
    TwoDigits(q', b, r', a, r);
    DivModUnique(x, a * b, q', r' * a + r);
  }

  lemma DivisionParts(x: nat, d: nat)
    requires d > 0
    ensures x == (x / d) * d + x % d && 0 <= x / d && 0 <= x % d < d
  {
  }

  // Two digits, of base b and of base a, are one of base a * b.
  lemma TwoDigits(q: nat, b: nat, s: nat, a: nat, r: nat)
    requires s < b && r < a
    ensures a * b > 0 && 0 <= s * a + r < a * b
    ensures (q * b + s) * a + r == q * (a * b) + (s * a + r)
  {
    MulKeepsOrder(s + 1, b, a);
    assert (s + 1) * a == s * a + a && b * a == a * b && 0 <= s * a;
    ThreeProduct(q, b, s, a);
  }

  lemma ThreeProduct(q: nat, b: nat, s: nat, a: nat)
    ensures (q * b + s) * a == q * (a * b) + s * a
  {
  }

  lemma DivBound(x: nat, d: nat, m: nat)
    requires d > 0 && x < m * d
    ensures x / d < m
  {
    assert (x / d) * d <= x;
    MulKeepsOrder(x / d, m, d);
  }

  // ----- Bit operations -----

  function Or(x: nat, y: nat): nat {
    if x == 0 then y
    else if y == 0 then x
    else 2 * Or(x / 2, y / 2) + (if x % 2 == 1 || y % 2 == 1 then 1 else 0)
  }

  function And(x: nat, y: nat): nat {
    if x == 0 || y == 0 then 0
    else 2 * And(x / 2, y / 2) + (if x % 2 == 1 && y % 2 == 1 then 1 else 0)
  }

  lemma {:induction false} OrZero(x: nat)
    ensures Or(x, 0) == x && Or(0, x) == x
  {
  }

  lemma {:induction false} OrSelf(x: nat)
    ensures Or(x, x) == x
  {
    if x > 0 {
      OrSelf(x / 2);
    }
  }

  lemma {:induction false} OrCommutes(x: nat, y: nat)
    ensures Or(x, y) == Or(y, x)
  {
    if x > 0 && y > 0 {
      OrCommutes(x / 2, y / 2);
    }
  }

  // Words without a common bit add up.
  lemma {:induction false} OrDisjoint(x: nat, y: nat, k: nat)
    requires x < Pow2(k)
    ensures Or(x, y * Pow2(k)) == x + y * Pow2(k)
    decreases k
  {
    if x > 0 && y > 0 && k > 0 {
      var z := y * Pow2(k - 1);
      assert y * Pow2(k) == 2 * z;
      OrDisjoint(x / 2, y, k - 1);
    }
  }

  lemma {:induction false} OrPositive(x: nat, y: nat)
    ensures Or(x, y) == 0 <==> x == 0 && y == 0
  {
    if x > 0 && y > 0 {
      OrPositive(x / 2, y / 2);
    }
  }

  lemma {:induction false} AndMask(x: nat, n: nat)
    ensures And(x, Pow2(n) - 1) == x % Pow2(n)
  {
    if n > 0 {
      var p := Pow2(n - 1);
      AndMask(x / 2, n - 1);
      DivDiv(x, 2, p);
      assert (Pow2(n) - 1) / 2 == p - 1;
      if x == 0 {
        assert 0 % Pow2(n) == 0;
      }
    }
  }

  // Setting the lowest bit.
  function WithBit(x: nat, bit: bool): nat {
    if bit && x % 2 == 0 then x + 1 else x
  }

  lemma OrBit(x: nat, b: nat)
    requires b <= 1
    ensures Or(x, b) == WithBit(x, b == 1)
  {
    if x > 0 && b == 1 {
      assert Or(x / 2, 0) == x / 2;
    }
  }

  function Xor(x: nat, y: nat): nat {
    if x == 0 then y
    else if y == 0 then x
    else 2 * Xor(x / 2, y / 2) + (if x % 2 != y % 2 then 1 else 0)
  }

  lemma {:induction false} XorZero(x: nat, y: nat)
    ensures Xor(x, y) == 0 <==> x == y
  {
    if x > 0 && y > 0 {
      XorZero(x / 2, y / 2);
    }
  }
}
