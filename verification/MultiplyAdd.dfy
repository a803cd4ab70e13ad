// FMA of math/fma.go on all operands. The machine's own multiplication and addition,
// which the code uses for special operands, are any two that follow IEEE 754-2019.

module MultiplyAdd {
  import opened Bits
  import opened FusedMultiplyAdd

  predicate IsNaN(b: Word) {
    BiasedExp(b) == 2047 && Frac(b) != 0
  }

  predicate IsInf(b: Word) {
    BiasedExp(b) == 2047 && Frac(b) == 0
  }

  predicate IsZero(b: Word) {
    BiasedExp(b) == 0 && Frac(b) == 0
  }

  // The sign of a product or quotient, section 6.3 of IEEE 754-2019.
  function FactorSign(x: Word, y: Word): (s: nat)
    ensures s <= 1
  {
    if Sign(x) == Sign(y) then 0 else 1
  }

  function Infinity(s: nat): Word
    requires s <= 1
  {
    s * 0x8000_0000_0000_0000 + INFINITY
  }

  function SignedZero(s: nat): Word
    requires s <= 1
  {
    s * 0x8000_0000_0000_0000
  }

  // ----- The operations of the standard: sections 5.4.1, 6.1, 6.2, 6.3 and 7.2 -----

  ghost predicate IsProduct(x: Word, y: Word, r: Word) {
    var s := FactorSign(x, y);
    if IsNaN(x) || IsNaN(y) || (IsInf(x) && IsZero(y)) || (IsZero(x) && IsInf(y)) then IsNaN(r)
    else if IsInf(x) || IsInf(y) then r == Infinity(s)
    else if IsZero(x) || IsZero(y) then r == SignedZero(s)
    else r == Rounded(Signed(x) * Signed(y))
  }

  ghost predicate IsSum(x: Word, y: Word, r: Word) {
    if IsNaN(x) || IsNaN(y) || (IsInf(x) && IsInf(y) && Sign(x) != Sign(y)) then IsNaN(r)
    else if IsInf(x) then r == x
    else if IsInf(y) then r == y
    else if Signed(x) + Signed(y) == 0 then
      r == if IsZero(x) && IsZero(y) && Sign(x) == Sign(y) then x else 0
    else r == Rounded((Signed(x) + Signed(y)) * Pow2(2000))
  }

  // The fused multiply-add: the product is never rounded by itself.
  ghost predicate IsFused(x: Word, y: Word, z: Word, r: Word) {
    var s := FactorSign(x, y);
    if IsNaN(x) || IsNaN(y) || IsNaN(z) || (IsInf(x) && IsZero(y)) || (IsZero(x) && IsInf(y)) then IsNaN(r)
    else if IsInf(x) || IsInf(y) then
      if IsInf(z) && Sign(z) != s then IsNaN(r) else r == Infinity(s)
    else if IsInf(z) then r == z
    else if Signed(x) * Signed(y) + Signed(z) * Pow2(2000) == 0 then
      r == if (IsZero(x) || IsZero(y)) && IsZero(z) && Sign(z) == s then z else 0
    else r == RoundedSum(x, y, z)
  }

  // ----- Zero, infinite and other operands -----

  lemma InfinityParts(s: nat)
    requires s <= 1
    ensures IsInf(Infinity(s)) && Sign(Infinity(s)) == s
    ensures IsZero(SignedZero(s)) && Sign(SignedZero(s)) == s
  {
  }

  lemma PartsOf(b: Word)
    ensures b == Sign(b) * 0x8000_0000_0000_0000 + BiasedExp(b) * 0x10_0000_0000_0000 + Frac(b)
    ensures Sign(b) <= 1 && BiasedExp(b) <= 2047
  {
  }

  lemma OneOfFour(b: Word)
    ensures IsNaN(b) || IsInf(b) || IsZero(b) || FiniteNonzero(b)
    ensures BiasedExp(b) == 2047 <==> IsNaN(b) || IsInf(b)
  {
    PartsOf(b);
  }

  lemma ZeroWorth(b: Word)
    requires IsZero(b)
    ensures Signed(b) == 0
  {
    hide Pow2;
  }

  lemma NonzeroWorth(b: Word)
    requires FiniteNonzero(b)
    ensures Signed(b) != 0
  {
    hide Pow2;
    if BiasedExp(b) == 0 {
      MulKeepsOrder(0, Frac(b), Pow2(926));
    } else {
      MulKeepsOrder(0, Frac(b) + 0x10_0000_0000_0000, Pow2(925 + BiasedExp(b)));
    }
  }

  lemma SignOfWorth(b: Word)
    requires FiniteNonzero(b)
    ensures if Sign(b) == 0 then Signed(b) > 0 else Signed(b) < 0
  {
    NonzeroWorth(b);
    PartsOf(b);
    if BiasedExp(b) == 0 {
      NonNegativeProduct(Frac(b), Pow2(926));
    } else {
      NonNegativeProduct(Frac(b) + 0x10_0000_0000_0000, Pow2(925 + BiasedExp(b)));
    }
  }

  // The sign of a product by the operands' signs is the sign of the exact product.
  lemma SignOfProduct(x: Word, y: Word)
    requires FiniteNonzero(x) && FiniteNonzero(y)
    ensures FactorSign(x, y) == if Signed(x) * Signed(y) < 0 then 1 else 0
  {
    hide FiniteNonzero, Signed, Sign;
    SignOfWorth(x);
    SignOfWorth(y);
    SignsMultiply(Signed(x), Signed(y));
    SignBit(x);
    SignBit(y);
  }

  lemma SignBit(b: Word)
    ensures Sign(b) <= 1
  {
    PartsOf(b);
  }

  lemma SignsMultiply(a: int, b: int)
    requires a != 0 && b != 0
    ensures a * b < 0 <==> (a < 0 <==> b > 0)
  {
  }

  lemma NonzeroProduct(a: int, b: int)
    requires a != 0 && b != 0
    ensures a * b != 0
  {
  }

  lemma RoundedFits(n: int)
    ensures 0 <= Rounded(n) < 0x1_0000_0000_0000_0000
  {
    hide Spacing, RoundHalfEven;
  }

  lemma TimesZero(a: int)
    ensures a * 0 == 0 && 0 * a == 0
  {
  }

  // A zero, infinite or undefined factor: the machine multiplies and adds.
  lemma SpecialFactor(x: Word, y: Word, z: Word, p: Word, r: Word)
    requires !FiniteNonzero(x) || !FiniteNonzero(y)
    requires IsProduct(x, y, p) && IsSum(p, z, r)
    ensures IsFused(x, y, z, r)
  {
    var s := FactorSign(x, y);
    OneOfFour(x);
    OneOfFour(y);
    InfinityParts(s);
    hide Pow2, Rounded, Infinity, SignedZero, Sign, BiasedExp, Frac;
    if (IsZero(x) || IsZero(y)) && !IsNaN(x) && !IsNaN(y) && !IsInf(x) && !IsInf(y) {
      ZeroFactor(x, y, z, p, r);
    }
  }

  lemma ZeroProduct(x: Word, y: Word)
    requires IsZero(x) || IsZero(y)
    ensures Signed(x) * Signed(y) == 0
  {
    if IsZero(x) {
      ZeroWorth(x);
    } else {
      ZeroWorth(y);
    }
    hide Signed;
    TimesZero(Signed(x));
    TimesZero(Signed(y));
  }

  lemma ZeroFactor(x: Word, y: Word, z: Word, p: Word, r: Word)
    requires IsZero(x) || IsZero(y)
    requires !IsNaN(x) && !IsNaN(y) && !IsInf(x) && !IsInf(y)
    requires IsProduct(x, y, p) && IsSum(p, z, r)
    ensures IsFused(x, y, z, r)
  {
    var s := FactorSign(x, y);
    InfinityParts(s);
    ZeroProduct(x, y);
    ZeroWorth(p);
    OneOfFour(z);
    hide IsFused, Signed, Rounded, SignedZero, Sign, BiasedExp, Frac, Pow2;
    if IsNaN(z) || IsInf(z) {
      ZeroAndSpecial(x, y, z, p, r);
    } else if IsZero(z) {
      ZeroAndZero(x, y, z, p, r);
    } else if FiniteNonzero(z) {
      NonzeroWorth(z);
      ZeroAndFinite(x, y, z, r);
    }
  }

  lemma ZeroAndSpecial(x: Word, y: Word, z: Word, p: Word, r: Word)
    requires IsZero(x) || IsZero(y)
    requires !IsNaN(x) && !IsNaN(y) && !IsInf(x) && !IsInf(y)
    requires (IsNaN(z) || IsInf(z)) && IsZero(p) && IsSum(p, z, r)
    ensures IsFused(x, y, z, r)
  {
    hide Signed, Rounded, Pow2, Sign;
  }

  lemma ZeroAndFinite(x: Word, y: Word, z: Word, r: Word)
    requires IsZero(x) || IsZero(y)
    requires !IsNaN(x) && !IsNaN(y) && !IsInf(x) && !IsInf(y)
    requires FiniteNonzero(z) && r == Rounded((0 + Signed(z)) * Pow2(2000))
    ensures IsFused(x, y, z, r)
  {
    ZeroProduct(x, y);
    ScaledNonzero(z);
    hide Signed, Rounded, Sign, Pow2;
  }

  lemma ZeroAndZero(x: Word, y: Word, z: Word, p: Word, r: Word)
    requires IsZero(x) || IsZero(y)
    requires !IsNaN(x) && !IsNaN(y) && !IsInf(x) && !IsInf(y)
    requires IsZero(z) && p == SignedZero(FactorSign(x, y)) && IsSum(p, z, r)
    ensures IsFused(x, y, z, r)
  {
    InfinityParts(FactorSign(x, y));
    ZeroProduct(x, y);
    ZeroWorth(p);
    ZeroWorth(z);
    TimesZero(Pow2(2000));
    if Sign(z) == FactorSign(x, y) {
      SameZero(p, z);
    }
    hide Signed, Rounded, SignedZero, Sign, Pow2;
  }

  lemma SameZero(a: Word, b: Word)
    requires IsZero(a) && IsZero(b) && Sign(a) == Sign(b)
    ensures a == b
  {
    PartsOf(a);
    PartsOf(b);
  }

  lemma ScaledNonzero(z: Word)
    requires FiniteNonzero(z)
    ensures Signed(z) != 0 && Signed(z) * Pow2(2000) != 0
  {
    hide Pow2;
    NonzeroWorth(z);
    NonzeroProduct(Signed(z), Pow2(2000));
  }

  // A zero addend: the machine multiplies.
  lemma ZeroAddend(x: Word, y: Word, z: Word, r: Word)
    requires FiniteNonzero(x) && FiniteNonzero(y) && IsZero(z) && IsProduct(x, y, r)
    ensures IsFused(x, y, z, r)
  {
    hide Pow2, Rounded, Signed;
    NonzeroWorth(x);
    NonzeroWorth(y);
    NonzeroProduct(Signed(x), Signed(y));
    ZeroWorth(z);
    TimesZero(Pow2(2000));
  }

  // An infinite or undefined addend is the result.
  lemma SpecialAddend(x: Word, y: Word, z: Word)
    requires FiniteNonzero(x) && FiniteNonzero(y) && BiasedExp(z) == 2047
    ensures IsFused(x, y, z, z)
  {
    hide Pow2, Rounded, Signed;
  }

  lemma FiniteOperands(x: Word, y: Word, z: Word, r: Word)
    requires FiniteNonzero(x) && FiniteNonzero(y) && FiniteNonzero(z) && r == RoundedSum(x, y, z)
    ensures IsFused(x, y, z, r)
  {
    hide Pow2, Signed, RoundedMagnitude;
  }

  ghost predicate Multiplies(mul: (Word, Word) -> Word) {
    forall x: Word, y: Word :: IsProduct(x, y, mul(x, y))
  }

  ghost predicate Adds(add: (Word, Word) -> Word) {
    forall x: Word, y: Word :: IsSum(x, y, add(x, y))
  }

  // For every machine that multiplies and adds by the standard, and for all operands, the
  // result is the fused multiply-add of the standard.
  method FMA(x: Word, y: Word, z: Word, mul: (Word, Word) -> Word, add: (Word, Word) -> Word) returns (r: Word)
    requires Multiplies(mul) && Adds(add)
    ensures IsFused(x, y, z, r)
  {
    OneOfFour(x);
    OneOfFour(y);
    OneOfFour(z);
    hide IsFused, IsProduct, IsSum, BiasedExp, Frac, RoundedSum;
    if IsZero(x) || IsZero(y) || BiasedExp(x) == 2047 || BiasedExp(y) == 2047 {
      var p := mul(x, y);
      r := add(p, z);
      NotBoth(x, y);
      SpecialFactor(x, y, z, p, r);
      return;
    }
    if IsZero(z) {
      r := mul(x, y);
      ZeroAddend(x, y, z, r);
      return;
    }
    if BiasedExp(z) == 2047 {
      SpecialAddend(x, y, z);
      return z;
    }
    var sum := RoundOnce(x, y, z);
    SumFits(x, y, z);
    r := sum;
    FiniteOperands(x, y, z, r);
  }

  lemma NotBoth(x: Word, y: Word)
    requires IsZero(x) || IsZero(y) || BiasedExp(x) == 2047 || BiasedExp(y) == 2047
    ensures !FiniteNonzero(x) || !FiniteNonzero(y)
  {
  }

  lemma SumFits(x: Word, y: Word, z: Word)
    ensures 0 <= RoundedSum(x, y, z) < 0x1_0000_0000_0000_0000
  {
    hide Rounded, Signed, Pow2;
    RoundedFits(Signed(x) * Signed(y) + Signed(z) * Pow2(2000));
  }
}
