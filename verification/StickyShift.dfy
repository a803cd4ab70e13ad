// The two-word shifts of the fused multiply-add: exact shifts, the compressing right
// shift that remembers whether a set bit fell off, and rounding after it.

module StickyShift {
  import opened Bits

  // ----- The code's shifts -----

  // x << n and x >> n on a 64-bit word; a count of 64 or more leaves nothing.
  function ShlWord(x: Word, n: nat): Word {
    if n >= 64 then 0 else (x * Pow2(n)) % WORD
  }

  function ShrWord(x: Word, n: nat): nat {
    if n >= 64 then 0 else Quotient(x, Pow2(n))
  }

  // a - b on an unsigned word wraps around.
  function UintSub(a: Word, b: Word): Word {
    if a >= b then a - b else a + WORD - b
  }

  function Shl(u1: Word, u2: Word, n: Word): (nat, nat) {
    (Or(Or(ShlWord(u1, n), ShrWord(u2, UintSub(64, n))), ShlWord(u2, UintSub(n, 64))),
     ShlWord(u2, n))
  }

  function Shr(u1: Word, u2: Word, n: Word): (nat, nat) {
    (ShrWord(u1, n),
     Or(Or(ShrWord(u2, n), ShlWord(u1, UintSub(64, n))), ShrWord(u1, UintSub(n, 64))))
  }

  function Value(u1: nat, u2: nat): nat {
    u1 * WORD + u2
  }

  function Nonzero(x: nat): nat {
    if x != 0 then 1 else 0
  }

  // ----- They are exact -----

  lemma ShiftSplit(n: nat)
    requires n <= 64
    ensures Pow2(n) * Pow2(64 - n) == WORD
  {
    Pow2Add(n, 64 - n);
    Pow2Word();
  }

  // The part of a product that survives reduction modulo p * q.
  lemma ModProduct(x: nat, p: nat, q: nat)
    requires p > 0 && q > 0
    ensures p * q > 0 && (x * p) % (p * q) == (x % q) * p
  {
    var hi, lo := x / q, x % q;
    assert x * p == (hi * q + lo) * p == hi * (p * q) + lo * p;
    MulKeepsOrder(lo, q, p);
    assert q * p == p * q;
    assert lo * p >= 0;
    DivModUnique(x * p, p * q, hi, lo * p);
  }

  lemma ShlWordKeeps(x: Word, n: nat)
    requires n <= 64
    ensures ShlWord(x, n) == (x % Pow2(64 - n)) * Pow2(n)
  {
    ShiftSplit(n);
    if n == 64 {
      assert Pow2(0) == 1;
    } else {
      ModProduct(x, Pow2(n), Pow2(64 - n));
    }
  }

  // A word pair divided by p, when p * q is the word size.
  lemma PairQuotient(u1: nat, u2: nat, p: nat, q: nat)
    requires p > 0 && q > 0 && p * q == WORD
    ensures Value(u1, u2) / p == u1 * q + u2 / p
    ensures (u1 / p) * WORD + (u1 % p) * q == u1 * q
  {
    var r, s := u1 / p, u1 % p;
    assert u1 == r * p + s;
    assert u1 * q == (r * p + s) * q == r * (p * q) + s * q;
    var lo := u2 / p;
    assert (u1 * q + lo) * p == u1 * (p * q) + lo * p;
    DivModUnique(Value(u1, u2), p, u1 * q + lo, u2 % p);
  }

  lemma ShrSmall(u1: Word, u2: Word, n: Word)
    requires 0 < n < 64
    ensures var (r1, r2) := Shr(u1, u2, n);
            && r1 == u1 / Pow2(n)
            && r2 == u2 / Pow2(n) + (u1 % Pow2(n)) * Pow2(64 - n)
            && Value(r1, r2) == Value(u1, u2) / Pow2(n)
  {
    hide Or, Pow2;
    var p, q := Pow2(n), Pow2(64 - n);
    ShiftSplit(n);
    ShlWordKeeps(u1, 64 - n);
    var lo := Quotient(u2, p);
    assert q * p == WORD;
    DivBound(u2, p, q);
    OrDisjoint(lo, u1 % p, 64 - n);
    OrZero(lo + (u1 % p) * q);
    PairQuotient(u1, u2, p, q);
  }

  lemma ShrLarge(u1: Word, u2: Word, n: Word)
    requires n > 64
    ensures var (r1, r2) := Shr(u1, u2, n);
            r1 == 0 && r2 == ShrWord(u1, n - 64) && Value(r1, r2) == Value(u1, u2) / Pow2(n)
  {
    OrZero(ShrWord(u1, n - 64));
    var m := n - 64;
    Pow2Add(64, m);
    Pow2Word();
    DivDiv(Value(u1, u2), WORD, Pow2(m));
    DivModUnique(Value(u1, u2), WORD, u1, u2);
    if m >= 64 {
      Pow2Monotone(64, m);
      DivModUnique(u1, Pow2(m), 0, u1);
    }
  }

  lemma ShrNone(u1: Word, u2: Word)
    ensures Shr(u1, u2, 0) == (u1, u2) && Value(u1, u2) / Pow2(0) == Value(u1, u2)
  {
    hide Or;
    assert Pow2(0) == 1;
    OrZero(u2);
  }

  lemma ShrWhole(u1: Word, u2: Word)
    ensures Shr(u1, u2, 64) == (0, u1) && Value(u1, u2) / Pow2(64) == u1
  {
    hide Or;
    assert Pow2(0) == 1;
    assert ShrWord(u2, 64) == 0 && ShlWord(u1, 0) == u1 && ShrWord(u1, 0) == u1;
    OrZero(u1);
    OrSelf(u1);
    hide Pow2;
    Pow2Word();
    DivModUnique(Value(u1, u2), WORD, u1, u2);
  }

  // The right shift of a pair is division by a power of two, for every count.
  lemma ShrExact(u1: Word, u2: Word, n: Word)
    ensures var (r1, r2) := Shr(u1, u2, n); Value(r1, r2) == Value(u1, u2) / Pow2(n)
  {
    hide Or, Pow2, Shr;
    if n == 0 {
      ShrNone(u1, u2);
    } else if n < 64 {
      ShrSmall(u1, u2, n);
    } else if n == 64 {
      ShrWhole(u1, u2);
    } else {
      ShrLarge(u1, u2, n);
    }
  }

  // ----- The left shift -----

  lemma ShlSmall(u1: Word, u2: Word, n: Word)
    requires 0 < n < 64
    ensures var (r1, r2) := Shl(u1, u2, n);
            && r1 == (u1 % Pow2(64 - n)) * Pow2(n) + u2 / Pow2(64 - n)
            && r2 == (u2 % Pow2(64 - n)) * Pow2(n)
  {
    hide Or, Pow2;
    var p, q := Pow2(n), Pow2(64 - n);
    ShiftSplit(n);
    ShlWordKeeps(u1, n);
    ShlWordKeeps(u2, n);
    var hi := Quotient(u2, q);
    DivBound(u2, q, p);
    OrDisjoint(hi, u1 % q, n);
    OrCommutes(hi, (u1 % q) * p);
    OrZero(hi + (u1 % q) * p);
  }

  // A pair multiplied by p, when p * q is the word size: what stays and what is lost.
  lemma PairProduct(u1: nat, u2: nat, p: nat, q: nat)
    requires p > 0 && q > 0 && p * q == WORD
    ensures ((u1 % q) * p + u2 / q) * WORD + (u2 % q) * p + (u1 / q) * (WORD * WORD) == Value(u1, u2) * p
  {
    var a, b, c, e := u1 / q, u1 % q, u2 / q, u2 % q;
    assert u1 == a * q + b && u2 == c * q + e;
    assert u2 * p == (c * q + e) * p == c * (p * q) + e * p;
    assert u1 * p == (a * q + b) * p == a * (p * q) + b * p;
    assert Value(u1, u2) * p == (u1 * p) * WORD + u2 * p;
  }

  lemma ShlExactSmall(u1: Word, u2: Word, n: Word)
    requires n < 64
    ensures var (r1, r2) := Shl(u1, u2, n);
            && r1 < WORD && r2 < WORD
            && Value(r1, r2) == (Value(u1, u2) * Pow2(n)) % (WORD * WORD)
  {
    if n == 0 {
      ShlNone(u1, u2);
    } else {
      hide Or, Pow2, Shl;
      var p, q := Pow2(n), Pow2(64 - n);
      ShiftSplit(n);
      ShlSmall(u1, u2, n);
      PairProduct(u1, u2, p, q);
      WordParts(u1 % q, u2 / q, p, q);
      WordParts(u2 % q, 0, p, q);
      var (r1, r2) := Shl(u1, u2, n);
      DivBound(u2, q, p);
      WordParts(u1 % q, Quotient(u2, q), p, q);
      DivModUnique(Value(u1, u2) * p, WORD * WORD, u1 / q, Value(r1, r2));
    }
  }

  lemma ShlNone(u1: Word, u2: Word)
    ensures Shl(u1, u2, 0) == (u1, u2)
    ensures Value(u1, u2) == (Value(u1, u2) * Pow2(0)) % (WORD * WORD)
  {
    hide Or;
    assert Pow2(0) == 1;
    OrZero(u1);
    DivModUnique(Value(u1, u2), WORD * WORD, 0, Value(u1, u2));
  }

  lemma WordParts(b: nat, c: nat, p: nat, q: nat)
    requires p > 0 && q > 0 && p * q == WORD && b < q
    ensures c < p ==> b * p + c < WORD
    ensures b * p < WORD
  {
    assert (b + 1) * p == b * p + p;
    MulKeepsOrder(b + 1, q, p);
    assert q * p == p * q;
  }

  // A word shifted left, for every count.
  lemma ShlWordMod(x: Word, n: nat)
    ensures ShlWord(x, n) == (x * Pow2(n)) % WORD
  {
    hide Pow2;
    if n >= 64 {
      Pow2Add(64, n - 64);
      Pow2Word();
      WordMultiple(x, Pow2(n - 64));
    }
  }

  lemma WordMultiple(x: nat, h: nat)
    ensures (x * (WORD * h)) % WORD == 0
  {
    assert x * (WORD * h) == (x * h) * WORD;
    DivModUnique(x * (WORD * h), WORD, x * h, 0);
  }

  lemma LargeProduct(u1: nat, u2: nat, p: nat)
    ensures (Value(u1, u2) * (WORD * p)) % (WORD * WORD) == ((u2 * p) % WORD) * WORD
  {
    var y := u2 * p;
    var h, x := y / WORD, y % WORD;
    assert y * WORD == h * (WORD * WORD) + x * WORD;
    assert (u1 * WORD) * (WORD * p) == (u1 * p) * (WORD * WORD);
    assert u2 * (WORD * p) == y * WORD;
    assert Value(u1, u2) * (WORD * p) == (u1 * WORD) * (WORD * p) + u2 * (WORD * p);
    assert (u1 * p + h) * (WORD * WORD) == (u1 * p) * (WORD * WORD) + h * (WORD * WORD);
    DivModUnique(Value(u1, u2) * (WORD * p), WORD * WORD, u1 * p + h, x * WORD);
  }

  lemma ShlExactLarge(u1: Word, u2: Word, n: Word)
    requires n >= 64
    ensures var (r1, r2) := Shl(u1, u2, n);
            && r1 == ShlWord(u2, n - 64) && r2 == 0
            && Value(r1, r2) == (Value(u1, u2) * Pow2(n)) % (WORD * WORD)
  {
    var m := n - 64;
    assert Pow2(0) == 1;
    assert Quotient(u2, 1) == u2;
    assert n == 64 ==> ShrWord(u2, 0) == u2 && ShlWord(u2, 0) == u2;
    Pow2Add(64, m);
    hide Or, Pow2, ShlWord, ShrWord, Quotient;
    Pow2Word();
    ShlFull(u1, n);
    ShlFull(u2, n);
    if n > 64 {
      ShrWrapped(u2, n);
    }
    OrZero(ShlWord(u2, m));
    OrSelf(ShlWord(u2, m));
    ShlWordMod(u2, m);
    LargeProduct(u1, u2, Pow2(m));
  }

  lemma ShlFull(x: Word, n: nat)
    requires n >= 64
    ensures ShlWord(x, n) == 0
  {
  }

  // Past 64 the complementary count wraps around to a huge one.
  lemma ShrWrapped(x: Word, n: Word)
    requires n > 64
    ensures ShrWord(x, UintSub(64, n)) == 0
  {
  }

  // The left shift of a pair is multiplication by a power of two modulo 2^128.
  lemma ShlExact(u1: Word, u2: Word, n: Word)
    ensures var (r1, r2) := Shl(u1, u2, n);
            && r1 < WORD && r2 < WORD
            && Value(r1, r2) == (Value(u1, u2) * Pow2(n)) % (WORD * WORD)
  {
    hide Or, Pow2, Shl;
    if n < 64 {
      ShlExactSmall(u1, u2, n);
    } else {
      ShlExactLarge(u1, u2, n);
    }
  }

  // ----- The compressing shift -----

  function ShrCompress(u1: Word, u2: Word, n: Word): (nat, nat) {
    if n == 0 then (u1, u2)
    else if n == 64 then (0, Or(u1, Nonzero(u2)))
    else if n >= 128 then (0, Nonzero(Or(u1, u2)))
    else if n < 64 then
      var (r1, r2) := Shr(u1, u2, n);
      (r1, Or(r2, Nonzero(And(u2, UintSub(ShlWord(1, n), 1)))))
    else
      var (r1, r2) := Shr(u1, u2, n);
      (r1, Or(r2, Nonzero(Or(And(u1, UintSub(ShlWord(1, n - 64), 1)), u2))))
  }

  // The quotient by 2^n, its lowest bit set as well when the division was not exact.
  function Sticky(u: nat, n: nat): nat {
    WithBit(Quotient(u, Pow2(n)), u % Pow2(n) != 0)
  }

  lemma EvenPlus(h: nat, x: nat)
    ensures (2 * h + x) % 2 == x % 2
  {
  }

  lemma ValueWithBit(r1: nat, r2: nat, bit: bool)
    requires r2 < WORD
    ensures Value(r1, WithBit(r2, bit)) == WithBit(Value(r1, r2), bit)
    ensures WithBit(r2, bit) < WORD
  {
    EvenPlus(r1 * 0x8000_0000_0000_0000, r2);
  }

  lemma OneShifted(n: nat)
    requires n < 64
    ensures ShlWord(1, n) == Pow2(n) && UintSub(ShlWord(1, n), 1) == Pow2(n) - 1
  {
    Pow2Monotone(n, 63);
    Pow2Word();
  }

  lemma PairBounds(u1: Word, u2: Word, p: nat, q: nat)
    requires p > 0 && q > 0 && p * q == WORD
    ensures u1 / p < WORD && u2 / p + (u1 % p) * q < WORD
  {
    assert q * p == WORD;
    DivBound(u2, p, q);
    WordParts(u1 % p, u2 / p, q, p);
    MulKeepsOrder(1, p, WORD);
    assert p >= 1 && u1 < p * WORD && p * WORD == WORD * p;
    DivBound(u1, p, WORD);
  }

  lemma CompressSmall(u1: Word, u2: Word, n: Word)
    requires 0 < n < 64
    ensures var (r1, r2) := ShrCompress(u1, u2, n);
            r1 < WORD && r2 < WORD && Value(r1, r2) == Sticky(Value(u1, u2), n)
  {
    hide Pow2, Or, And, Shr, ShlWord, UintSub, WithBit, Value;
    OneShifted(n);
    AndMask(u2, n);
    ShiftSplit(n);
    ShrSmall(u1, u2, n);
    var p, q := Pow2(n), Pow2(64 - n);
    PairBounds(u1, u2, p, q);
    var (s1, s2) := Shr(u1, u2, n);
    ValueWithBit(s1, s2, u2 % p != 0);
    OrBit(s2, Nonzero(u2 % p));
    PairRemainder(u1, u2, p, q);
  }

  lemma PairRemainder(u1: nat, u2: nat, p: nat, q: nat)
    requires p > 0 && q > 0 && p * q == WORD
    ensures Value(u1, u2) % p == u2 % p
  {
    assert (u1 * q + u2 / p) * p == u1 * (p * q) + (u2 / p) * p;
    DivModUnique(Value(u1, u2), p, u1 * q + u2 / p, u2 % p);
  }

  lemma CompressWhole(u1: Word, u2: Word)
    ensures var (r1, r2) := ShrCompress(u1, u2, 64);
            r1 < WORD && r2 < WORD && Value(r1, r2) == Sticky(Value(u1, u2), 64)
  {
    hide Or, Pow2;
    Pow2Word();
    DivModUnique(Value(u1, u2), WORD, u1, u2);
    OrBit(u1, Nonzero(u2));
    ValueWithBit(0, u1, u2 != 0);
  }

  lemma CompressLarge(u1: Word, u2: Word, n: Word)
    requires 64 < n < 128
    ensures var (r1, r2) := ShrCompress(u1, u2, n);
            r1 < WORD && r2 < WORD && Value(r1, r2) == Sticky(Value(u1, u2), n)
  {
    hide Or, Pow2, And, Shr, WithBit, ShlWord, ShrWord;
    var m := n - 64;
    Pow2Add(64, m);
    Pow2Word();
    OneShifted(m);
    AndMask(u1, m);
    ShrLarge(u1, u2, n);
    DivDiv(Value(u1, u2), WORD, Pow2(m));
    DivModUnique(Value(u1, u2), WORD, u1, u2);
    var x := Quotient(u1, Pow2(m));
    var lost := And(u1, UintSub(ShlWord(1, m), 1));
    OrPositive(lost, u2);
    MulKeepsOrder(0, u1 % Pow2(m), WORD);
    assert (u1 % Pow2(m)) * WORD + u2 != 0 <==> u1 % Pow2(m) != 0 || u2 != 0;
    OrBit(x, Nonzero(Or(lost, u2)));
    assert u1 < WORD * Pow2(m) by { MulKeepsOrder(1, Pow2(m), WORD); }
    DivBound(u1, Pow2(m), WORD);
    ValueWithBit(0, x, Or(lost, u2) != 0);
  }

  lemma CompressAll(u1: Word, u2: Word, n: Word)
    requires n >= 128
    ensures var (r1, r2) := ShrCompress(u1, u2, n);
            r1 < WORD && r2 < WORD && Value(r1, r2) == Sticky(Value(u1, u2), n)
  {
    hide Or, Pow2;
    Pow2Monotone(128, n);
    Pow2Add(64, 64);
    Pow2Word();
    OrPositive(u1, u2);
    DivModUnique(Value(u1, u2), Pow2(n), 0, Value(u1, u2));
  }

  // The compressing shift is the sticky quotient of the pair, for every count.
  lemma CompressIsSticky(u1: Word, u2: Word, n: Word)
    ensures var (r1, r2) := ShrCompress(u1, u2, n);
            r1 < WORD && r2 < WORD && Value(r1, r2) == Sticky(Value(u1, u2), n)
  {
    if n == 0 {
      assert Pow2(0) == 1;
    } else {
      hide ShrCompress, Sticky, Pow2;
      if n < 64 {
        CompressSmall(u1, u2, n);
      } else if n == 64 {
        CompressWhole(u1, u2);
      } else if n < 128 {
        CompressLarge(u1, u2, n);
      } else {
        CompressAll(u1, u2, n);
      }
    }
  }

  // ----- Composing sticky shifts -----

  lemma TwiceProduct(q: nat, d: nat)
    ensures q * (2 * d) == 2 * (q * d) && q * d >= 0
  {
  }

  lemma BitDropped(x: nat, bit: bool, d: nat)
    requires d > 0
    ensures WithBit(x, bit) / (2 * d) == x / (2 * d)
    ensures WithBit(x, bit) % (2 * d) != 0 <==> x % (2 * d) != 0 || bit
  {
    var q, r := x / (2 * d), x % (2 * d);
    DivisionParts(x, 2 * d);
    TwiceProduct(q, d);
    EvenPlus(q * d, r);
    if bit && x % 2 == 0 {
      assert r + 1 < 2 * d by {
        assert r % 2 == 0;
      }
      DivModUnique(x + 1, 2 * d, q, r + 1);
    }
  }

  // Shifting in two steps loses no more than shifting once.
  lemma StickyCompose(u: nat, a: nat, b: nat)
    ensures Sticky(Sticky(u, a), b) == Sticky(u, a + b)
  {
    Pow2Add(a, b);
    if b == 0 {
      assert Pow2(0) == 1;
    } else {
      assert Pow2(b) == 2 * Pow2(b - 1);
      hide Pow2;
      var p, d := Pow2(a), Pow2(b);
      BitDropped(u / p, u % p != 0, Pow2(b - 1));
      DivDiv(u, p, d);
      assert p * d == Pow2(a + b);
      var hi, lo := (u / p) % d, u % p;
      assert hi * p + lo != 0 <==> hi != 0 || lo != 0 by {
        MulKeepsOrder(0, hi, p);
      }
    }
  }
}
