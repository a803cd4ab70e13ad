// The fused multiply-add of math/fma.go on finite nonzero operands: one rounding of
// the exact product plus addend.

module FusedMultiplyAdd {
  import opened Bits
  import opened StickyShift

  // ----- Rounding half to even -----

  function RoundHalfEven(u: nat, d: nat): nat
    requires d > 0
  {
    var q, r := Quotient(u, d), u % d;
    if 2 * r < d then q else if 2 * r > d then q + 1 else q + q % 2
  }

  // a is the multiple of d just below u, which is a + r, and m any multiple.
  lemma NearestGap(a: nat, r: nat, d: nat, m: nat, up: bool)
    requires r < d && (m <= a || m >= a + d)
    requires if up then 2 * r >= d else 2 * r <= d
    ensures var e := (if up then a + d else a) - (a + r);
            && -(d as int) <= 2 * e <= d
            && (if e >= 0 then e else -e) <= (if m >= a + r then m - (a + r) else (a + r) - m)
  {
  }

  lemma RoundCases(u: nat, d: nat)
    requires d > 0
    ensures RoundHalfEven(u, d) == u / d || RoundHalfEven(u, d) == u / d + 1
    ensures if RoundHalfEven(u, d) == u / d then 2 * (u % d) <= d else 2 * (u % d) >= d
    ensures 2 * (u % d) == d ==> RoundHalfEven(u, d) % 2 == 0
  {
  }

  // What it means: no multiple of d is nearer to u, and an even one is chosen on a tie.
  lemma NearestMultiple(u: nat, d: nat, k: nat)
    requires d > 0
    ensures var e := RoundHalfEven(u, d) * d - u;
            && -(d as int) <= 2 * e <= d
            && (2 * e == d || 2 * e == -(d as int) ==> RoundHalfEven(u, d) % 2 == 0)
            && (if e >= 0 then e else -e) <= (if k * d >= u then k * d - u else u - k * d)
  {
    RoundCases(u, d);
    MultipleGap(k, u / d, d);
    ChosenMultiple(RoundHalfEven(u, d), u / d, d);
    hide RoundHalfEven;
    DivisionParts(u, d);
    NearestGap((u / d) * d, u % d, d, k * d, RoundHalfEven(u, d) != u / d);
  }

  lemma MultipleGap(k: nat, q: nat, d: nat)
    requires d > 0
    ensures k * d <= q * d || k * d >= q * d + d
  {
    assert (q + 1) * d == q * d + d;
    MulKeepsOrder(k, q, d);
    MulKeepsOrder(q + 1, k, d);
  }

  lemma ChosenMultiple(n: nat, q: nat, d: nat)
    requires n == q || n == q + 1
    ensures n * d == if n == q then q * d else q * d + d
  {
  }

  function Zero(x: nat): nat {
    if x == 0 then 1 else 0
  }

  // ((m + 1<<9) >> 10) & ^zero((m & (1<<10 - 1)) ^ 1<<9): the mask clears the lowest
  // bit of the quotient exactly on a tie.
  function FinalRound(m: Word): nat {
    var r := ((m + 512) % WORD) / 1024;
    if Zero(Xor(And(m, 1023), 512)) == 1 then r - r % 2 else r
  }

  lemma AddHalf(m: nat)
    ensures (m + 512) / 1024 == m / 1024 + (if m % 1024 >= 512 then 1 else 0)
  {
  }

  lemma FinalRoundCorrect(m: Word)
    requires m + 512 < WORD
    ensures FinalRound(m) == RoundHalfEven(m, 1024)
  {
    hide And, Xor, Pow2;
    TenBits(m);
    XorZero(And(m, 1023), 512);
    AddHalf(m);
  }

  lemma TenBits(m: nat)
    ensures And(m, 1023) == m % 1024
  {
    PowSmall();
    AndMask(m, 10);
  }

  // A sticky quotient cut at ten bits rounds as the number it came from.
  lemma RoundAfterSticky(u: nat, p: nat)
    requires p > 0
    ensures RoundHalfEven(WithBit(Quotient(u, p), u % p != 0), 1024) == RoundHalfEven(u, 1024 * p)
  {
    var q, r := u / p, u % p;
    var m := WithBit(q, r != 0);
    BitDropped(q, r != 0, 512);
    DivDiv(u, p, 1024);
    assert p * 1024 == 1024 * p;
    var t := q % 1024;
    assert u % (1024 * p) == t * p + r;
    StickyTail(q, r != 0);
    assert m % 1024 == WithBit(t, r != 0);
    CompareTails(t, r, p);
  }

  lemma StickyTail(q: nat, bit: bool)
    ensures WithBit(q, bit) % 1024 == WithBit(q % 1024, bit)
  {
    var h, t := q / 1024, q % 1024;
    assert q == 1024 * h + t;
    assert q % 2 == t % 2;
    if bit && q % 2 == 0 {
      DivModUnique(q + 1, 1024, h, t + 1);
    }
  }

  // A tail is below, at or above one half exactly when its sticky form is.
  lemma CompareTails(t: nat, r: nat, p: nat)
    requires t < 1024 && r < p
    ensures 2 * WithBit(t, r != 0) < 1024 <==> 2 * (t * p + r) < 1024 * p
    ensures 2 * WithBit(t, r != 0) > 1024 <==> 2 * (t * p + r) > 1024 * p
  {
    MulKeepsOrder(t, 512, p);
    MulKeepsOrder(t + 1, 512, p);
    MulKeepsOrder(512, t, p);
    assert (t + 1) * p == t * p + p;
  }

  lemma RoundSticky(u: nat, k: nat)
    ensures RoundHalfEven(Sticky(u, k), 1024) == RoundHalfEven(u, Pow2(k + 10))
  {
    Pow2Add(k, 10);
    Pow2Word();
    RoundAfterSticky(u, Pow2(k));
    assert Pow2(k) * 1024 == 1024 * Pow2(k);
  }

  // ----- Sticky quotients of shifted, added and subtracted numbers -----

  lemma ScaledParts(q: nat, d: nat, r: nat, p: nat)
    ensures (q * d + r) * p == q * (p * d) + r * p
  {
    Distribute(q * d, r, p);
    Reassociate(q, d, p);
    assert d * p == p * d;
  }

  lemma ScaledRemainder(r: nat, d: nat, p: nat)
    requires r < d && p > 0
    ensures 0 <= r * p < p * d && (r * p != 0 <==> r != 0)
  {
    MulKeepsOrder(r, d, p);
    MulKeepsOrder(0, r, p);
    assert d * p == p * d;
  }

  lemma StickyScale(u: nat, c: nat, k: nat)
    ensures Sticky(Scale(u, c), c + k) == Sticky(u, k)
  {
    Pow2Add(c, k);
    hide Pow2;
    var p, d := Pow2(c), Pow2(k);
    var q, r := Quotient(u, d), u % d;
    DivisionParts(u, d);
    ScaledParts(q, d, r, p);
    ScaledRemainder(r, d, p);
    DivModUnique(Scale(u, c), p * d, q, r * p);
  }

  lemma StickyExact(u: nat, k: nat)
    ensures Sticky(Scale(u, k), k) == u
  {
    hide Pow2;
    DivModUnique(u * Pow2(k), Pow2(k), u, 0);
  }

  // Adding an even number of units before or after the sticky shift is the same.
  lemma StickyAdd(p: nat, z: nat, k: nat)
    requires p % 2 == 0
    ensures p + Sticky(z, k) == Sticky(Scale(p, k) + z, k)
  {
    hide Pow2;
    var d := Pow2(k);
    var q, r := Quotient(z, d), z % d;
    DivisionParts(z, d);
    Distribute(p, q, d);
    DivModUnique(p * d + z, d, p + q, r);
    SameParity(p, q);
  }

  lemma Distribute(a: int, b: int, d: int)
    ensures (a + b) * d == a * d + b * d
  {
  }

  lemma SubParts(p: nat, q: nat, d: nat, r: nat)
    requires d > 0 && r < d && q * d + r <= p * d
    ensures r == 0 ==> q <= p && (p * d - (q * d + r)) / d == p - q && (p * d - (q * d + r)) % d == 0
    ensures r > 0 ==> q < p && (p * d - (q * d + r)) / d == p - q - 1 && (p * d - (q * d + r)) % d == d - r
  {
    if r == 0 {
      MulKeepsOrder(q, p, d);
      assert p * d - q * d == (p - q) * d;
      DivModUnique(p * d - q * d, d, p - q, 0);
    } else {
      MulKeepsOrder(q, p, d);
      assert p * d - (q * d + r) == (p - q - 1) * d + (d - r);
      DivModUnique(p * d - (q * d + r), d, p - q - 1, d - r);
    }
  }

  lemma StickySub(p: nat, z: nat, k: nat)
    requires p % 2 == 0 && z <= Scale(p, k)
    ensures Sticky(z, k) <= p
    ensures p - Sticky(z, k) == Sticky(Scale(p, k) - z, k)
  {
    hide Pow2;
    var d := Pow2(k);
    var q, r := Quotient(z, d), z % d;
    DivisionParts(z, d);
    SubParts(p, q, d, r);
    SameParity(p, q);
  }

  lemma SameParity(p: nat, q: nat)
    requires p % 2 == 0
    ensures (p + q) % 2 == q % 2 && (p - q) % 2 == q % 2 && (p - q - 1) % 2 != q % 2
  {
  }

  // ----- Lengths -----

  function BitLen(x: nat): (n: nat)
    ensures x < Pow2(n)
    ensures x > 0 ==> n > 0 && Pow2(n - 1) <= x
  {
    if x == 0 then 0 else 1 + BitLen(x / 2)
  }

  lemma BitLenIs(x: nat, n: nat)
    requires n > 0 && Pow2(n - 1) <= x < Pow2(n)
    ensures BitLen(x) == n
  {
    var b := BitLen(x);
    if b < n {
      Pow2Monotone(b, n - 1);
    } else if b > n {
      Pow2Monotone(n, b - 1);
    }
  }

  lemma BitLenWord(x: Word)
    ensures BitLen(x) <= 64
  {
    if BitLen(x) > 64 {
      Pow2Monotone(64, BitLen(x) - 1);
      hide Pow2;
      Pow2Word();
    }
  }

  function LeadingZeros64(x: Word): nat {
    BitLenWord(x);
    64 - BitLen(x)
  }

  // lz of a word pair.
  function Lz(u1: Word, u2: Word): nat {
    if LeadingZeros64(u1) == 64 then 64 + LeadingZeros64(u2) else LeadingZeros64(u1)
  }

  lemma HighWordRange(u1: Word, u2: Word, lo: nat, hi: nat)
    requires lo <= u1 < hi
    ensures lo * WORD <= Value(u1, u2) < hi * WORD
  {
  }

  lemma BitLenZero()
    ensures BitLen(0) == 0
  {
  }

  lemma LzExact(u1: Word, u2: Word)
    requires Value(u1, u2) > 0
    ensures Lz(u1, u2) == 128 - BitLen(Value(u1, u2))
  {
    hide Pow2, BitLen;
    var n := BitLen(u1);
    if u1 > 0 {
      Pow2Add(n - 1, 64);
      Pow2Add(n, 64);
      Pow2Word();
      HighWordRange(u1, u2, Pow2(n - 1), Pow2(n));
      BitLenIs(Value(u1, u2), 64 + n);
    } else {
      BitLenZero();
    }
  }

  // ----- What a finite number is worth -----

  // All values are counted in units of 2^-2000, so that every finite number, and in
  // units of 2^-4000 every product, is an integer.

  function Sign(b: Word): nat {
    b / 0x8000_0000_0000_0000
  }

  function BiasedExp(b: Word): nat {
    b / 0x10_0000_0000_0000 % 2048
  }

  function Frac(b: Word): nat {
    b % 0x10_0000_0000_0000
  }

  predicate FiniteNonzero(b: Word) {
    BiasedExp(b) < 2047 && (BiasedExp(b) != 0 || Frac(b) != 0)
  }

  // Sections 3.3 and 3.4 of IEEE 754-2019: a binary64 magnitude is an integer times a
  // power of two, without the hidden bit when the exponent field is zero.
  ghost function Magnitude(b: Word): nat {
    if BiasedExp(b) == 0 then Frac(b) * Pow2(926)
    else (Frac(b) + 0x10_0000_0000_0000) * Pow2(925 + BiasedExp(b))
  }

  ghost function Signed(b: Word): int {
    if Sign(b) == 1 then -(Magnitude(b) as int) else Magnitude(b)
  }

  // Rounding an exact magnitude, in units of 2^-4000, to the nearest binary64, ties to
  // even, overflowing to infinity (sections 4.3.1 and 7.4 of IEEE 754-2019). The
  // spacing is that of 53 significant bits, or of the subnormal numbers.
  ghost function Spacing(a: nat): nat {
    if BitLen(a) < 2979 then 2926 else BitLen(a) - 53
  }

  const INFINITY: nat := 2047 * 0x10_0000_0000_0000

  ghost function RoundedMagnitude(a: nat): nat {
    var bits := (Spacing(a) - 2926) * 0x10_0000_0000_0000 + RoundHalfEven(a, Pow2(Spacing(a)));
    if bits < INFINITY then bits else INFINITY
  }

  ghost function Rounded(n: int): nat {
    if n == 0 then 0
    else if n < 0 then 0x8000_0000_0000_0000 + RoundedMagnitude(-n)
    else RoundedMagnitude(n)
  }

  // x * y + z, rounded once.
  ghost function RoundedSum(x: Word, y: Word, z: Word): nat {
    Rounded(Signed(x) * Signed(y) + Signed(z) * Pow2(2000))
  }

  // ----- Taking numbers apart -----

  const TWO52: nat := 0x10_0000_0000_0000
  const TWO53: nat := 0x20_0000_0000_0000

  lemma Powers()
    ensures Pow2(1) == 2 && Pow2(11) == 2048 && Pow2(21) == 0x20_0000
    ensures Pow2(52) == TWO52 && Pow2(53) == TWO53 && Pow2(62) == 0x4000_0000_0000_0000
    ensures Pow2(63) == 0x8000_0000_0000_0000 && Pow2(64) == WORD
    ensures Pow2(74) == 1024 * WORD
    ensures Pow2(126) == 0x4000_0000_0000_0000 * WORD && Pow2(127) == 0x8000_0000_0000_0000 * WORD
  {
    hide Pow2;
    Pow2Word();
    PowSmall();
    Pow2Add(11, 10);
    Pow2Add(21, 21);
    Pow2Add(42, 10);
    Pow2Add(52, 1);
    Pow2Add(53, 9);
    Pow2Add(53, 10);
    Pow2Add(64, 10);
    Pow2Add(62, 64);
    Pow2Add(63, 64);
  }

  lemma PowSmall()
    ensures Pow2(1) == 2 && Pow2(9) == 512 && Pow2(10) == 1024 && Pow2(11) == 2048
  {
  }

  lemma FracLen(b: Word)
    ensures BitLen(Frac(b)) <= 52
  {
    hide Pow2;
    Powers();
    var n := BitLen(Frac(b));
    if n > 52 {
      Pow2Monotone(52, n - 1);
    }
  }

  datatype Parts = Parts(sign: nat, exp: int, mant: nat)

  // Sign, biased exponent and mantissa with its leading bit in place 52.
  function Split(b: Word): Parts {
    var exp := BiasedExp(b);
    var mant := Frac(b);
    if exp == 0 then
      FracLen(b);
      var shift := LeadingZeros64(mant) - 11;
      Parts(Sign(b), 1 - shift, ShlWord(mant, shift))
    else Parts(Sign(b), exp, Or(mant, TWO52))
  }

  ghost predicate Normalised(p: Parts) {
    p.sign <= 1 && TWO52 <= p.mant < TWO53 && -51 <= p.exp <= 2046
  }

  lemma SplitNormal(b: Word)
    requires 0 < BiasedExp(b) < 2047
    ensures Normalised(Split(b)) && Magnitude(b) == Split(b).mant * Pow2(925 + Split(b).exp)
  {
    hide Or, Pow2;
    Powers();
    OrDisjoint(Frac(b), 1, 52);
  }

  lemma SplitSubnormal(b: Word)
    requires BiasedExp(b) == 0 && Frac(b) != 0
    ensures Normalised(Split(b)) && Magnitude(b) == Split(b).mant * Pow2(925 + Split(b).exp)
  {
    hide Or, Pow2, BitLen;
    Powers();
    var f := Frac(b);
    var n := BitLen(f);
    FracLen(b);
    assert 1 <= n <= 52;
    var shift := 53 - n;
    Pow2Add(n, shift);
    Pow2Add(n - 1, shift);
    Pow2Add(shift, 926 - shift);
    assert f * Pow2(926) == (f * Pow2(shift)) * Pow2(926 - shift);
    MulKeepsOrder(f, Pow2(n), Pow2(shift));
    MulKeepsOrder(Pow2(n - 1), f, Pow2(shift));
    assert TWO52 <= f * Pow2(shift) < TWO53;
    DivModUnique(f * Pow2(shift), WORD, 0, f * Pow2(shift));
  }

  lemma SplitExact(b: Word)
    requires FiniteNonzero(b)
    ensures Normalised(Split(b)) && Magnitude(b) == Split(b).mant * Pow2(925 + Split(b).exp)
    ensures Split(b).sign == Sign(b)
  {
    hide Pow2, Split, Normalised;
    if BiasedExp(b) == 0 {
      SplitSubnormal(b);
    } else {
      SplitNormal(b);
    }
    SplitSign(b);
  }

  lemma SplitSign(b: Word)
    ensures Split(b).sign == Sign(b) <= 1
  {
  }

  // ----- The two operands of the addition, as sign, exponent and word pair -----

  datatype Wide = Wide(sign: nat, exp: int, hi: nat, lo: nat) {
    ghost function V(): nat { Value(hi, lo) }
  }

  // The leading bit is in place 126 of the pair and the last bit is clear.
  ghost predicate Aligned(w: Wide) {
    && w.sign <= 1
    && w.hi < WORD && w.lo < WORD
    && Pow2(126) <= w.V() < Pow2(127)
    && w.V() % 2 == 0
    && -1200 <= w.exp <= 3100
  }

  // Worth in units of 2^-4000.
  ghost function Worth(w: Wide): nat
    requires w.exp >= -1200
  {
    w.V() * Pow2(w.exp + 2851)
  }

  function Mul64(x: Word, y: Word): (nat, nat) {
    ((x * y) / WORD, (x * y) % WORD)
  }

  function Product(x: Parts, y: Parts): Wide
    requires x.mant < TWO53 && y.mant < TWO53
  {
    var (pm1, pm2) := Mul64(ShlWord(x.mant, 10), ShlWord(y.mant, 11));
    var is62zero := 1 - pm1 / 0x4000_0000_0000_0000 % 2;
    MulWords(ShlWord(x.mant, 10), ShlWord(y.mant, 11));
    var (s1, s2) := Shl(pm1, pm2, is62zero);
    Wide(if x.sign == y.sign then 0 else 1, x.exp + y.exp - 1023 + 1 - is62zero, s1, s2)
  }

  lemma MulWords(x: Word, y: Word)
    ensures 0 <= Mul64(x, y).0 < WORD && 0 <= Mul64(x, y).1 < WORD
    ensures Value(Mul64(x, y).0, Mul64(x, y).1) == x * y
  {
    ProductBelow(x, y, WORD);
    DivBound(x * y, WORD, WORD);
  }

  lemma ProductBelow(x: nat, y: nat, b: nat)
    requires x < b && y < b
    ensures 0 <= x * y < b * b
  {
    if x > 0 {
      MulKeepsOrder(y, b, x);
      MulKeepsOrder(x, b, b);
      assert y * x == x * y && b * x == x * b;
    }
  }

  // The double-word product before normalisation.
  lemma ProductRange(a: nat, b: nat)
    requires TWO52 <= a < TWO53 && TWO52 <= b < TWO53
    ensures 0x2000_0000_0000_0000 * WORD <= (a * 1024) * (b * 2048) < 0x8000_0000_0000_0000 * WORD
    ensures (a * 1024) * (b * 2048) == (a * b) * 0x20_0000
  {
    MulKeepsOrder(TWO52, a, TWO52);
    MulKeepsOrder(TWO52, b, a);
    MulKeepsOrder(a, TWO53, b);
    MulKeepsOrder(b, TWO53, TWO53);
    assert TWO52 * TWO52 <= a * b < TWO53 * TWO53;
    assert (a * 1024) * (b * 2048) == (a * b) * 0x20_0000;
  }

  // A pair with leading bit in place 125 or 126, brought to place 126.
  lemma NormaliseShift(hi: Word, lo: Word)
    requires Pow2(125) <= Value(hi, lo) < Pow2(127)
    ensures var s := 1 - hi / 0x4000_0000_0000_0000 % 2;
            var (r1, r2) := Shl(hi, lo, s);
            && 0 <= s <= 1
            && r1 < WORD && r2 < WORD
            && Value(r1, r2) == Value(hi, lo) * Pow2(s)
            && Pow2(126) <= Value(r1, r2) < Pow2(127)
  {
    hide Pow2, Shl;
    Powers();
    Pow2Add(125, 1);
    Pow2Add(126, 1);
    Pow2Add(0, 1);
    var s := 1 - hi / 0x4000_0000_0000_0000 % 2;
    assert hi < 0x8000_0000_0000_0000;
    assert hi / 0x4000_0000_0000_0000 == (if hi >= 0x4000_0000_0000_0000 then 1 else 0);
    ShlExact(hi, lo, s);
    var v := Value(hi, lo) * Pow2(s);
    assert Pow2(0) == 1;
    assert v < WORD * WORD;
    DivModUnique(v, WORD * WORD, 0, v);
  }

  lemma ProductExact(x: Parts, y: Parts)
    requires Normalised(x) && Normalised(y)
    ensures Aligned(Product(x, y))
    ensures Worth(Product(x, y)) == (x.mant * Pow2(925 + x.exp)) * (y.mant * Pow2(925 + y.exp))
    ensures Product(x, y).exp <= 3100
  {
    hide Pow2, Shl;
    Powers();
    Pow2Add(125, 1);
    Pow2Add(125, 2);
    var a, b := ShlWord(x.mant, 10), ShlWord(y.mant, 11);
    ShlMant(x.mant);
    ShlMant(y.mant);
    ProductRange(x.mant, y.mant);
    MulWords(a, b);
    var (pm1, pm2) := Mul64(a, b);
    NormaliseShift(pm1, pm2);
    var w := Product(x, y);
    var s := 1 - pm1 / 0x4000_0000_0000_0000 % 2;
    var ab := x.mant * y.mant;
    assert w.V() == (ab * 0x20_0000) * Pow2(s);
    assert w.exp + 2851 == x.exp + y.exp + 1829 - s;
    WorthOfProduct(x.mant, y.mant, x.exp, y.exp, s);
    EvenMultiple(ab, Pow2(s));
  }

  lemma ShlMant(m: nat)
    requires m < TWO53
    ensures ShlWord(m, 10) == m * 1024 && ShlWord(m, 11) == m * 2048
  {
    PowSmall();
    hide Pow2;
  }

  lemma EvenMultiple(ab: nat, p: nat)
    ensures ((ab * 0x20_0000) * p) % 2 == 0
  {
    assert (ab * 0x20_0000) * p == 2 * ((ab * 0x10_0000) * p);
  }

  lemma WorthOfProduct(a: nat, b: nat, xe: int, ye: int, s: int)
    requires -51 <= xe <= 2046 && -51 <= ye <= 2046 && 0 <= s <= 1
    ensures ((a * b * 0x20_0000) * Pow2(s)) * Pow2(xe + ye + 1829 - s) == (a * Pow2(925 + xe)) * (b * Pow2(925 + ye))
  {
    hide Pow2;
    Powers();
    Pow2Add(925 + xe, 925 + ye);
    Pow2Add(21, xe + ye + 1829);
    Pow2Add(s, xe + ye + 1829 - s);
    var p, q, e, f := Pow2(925 + xe), Pow2(925 + ye), Pow2(s), Pow2(xe + ye + 1829 - s);
    assert ((a * b * 0x20_0000) * e) * f == (a * b) * (0x20_0000 * (e * f));
    assert (a * p) * (b * q) == (a * b) * (p * q);
  }

  function Addend(z: Parts): Wide
    requires z.mant < TWO53
  {
    Wide(z.sign, z.exp, ShlWord(z.mant, 10), 0)
  }

  lemma AddendExact(z: Parts)
    requires Normalised(z)
    ensures Aligned(Addend(z)) && Addend(z).lo == 0
    ensures Worth(Addend(z)) == (z.mant * Pow2(925 + z.exp)) * Pow2(2000)
  {
    hide Pow2;
    Powers();
    ShlMant(z.mant);
    Pow2Add(74, z.exp + 2851);
    Pow2Add(925 + z.exp, 2000);
    assert Value(z.mant * 1024, 0) == z.mant * (1024 * WORD);
    Reassociate(z.mant, 1024 * WORD, Pow2(z.exp + 2851));
    Reassociate(z.mant, Pow2(925 + z.exp), Pow2(2000));
  }

  lemma Reassociate(a: int, b: int, c: int)
    ensures (a * b) * c == a * (b * c)
  {
  }

  // ----- Which operand is larger -----

  // The code compares exponents and high words only.
  predicate Swaps(p: Wide, z: Wide) {
    p.exp < z.exp || (p.exp == z.exp && p.hi < z.hi)
  }

  // After the exchange: at least as large, in exponent and in worth.
  ghost predicate Ordered(p: Wide, z: Wide) {
    && Aligned(p) && Aligned(z)
    && p.exp >= z.exp
    && (p.exp == z.exp ==> p.V() >= z.V())
  }

  lemma OrderedAfterSwap(p: Wide, z: Wide)
    requires Aligned(p) && Aligned(z) && z.lo == 0
    ensures if Swaps(p, z) then Ordered(z, p) else Ordered(p, z)
  {
    hide Pow2;
  }

  // Worth of both operands over the common exponent of the smaller one.
  lemma CommonScale(p: Wide, z: Wide)
    requires Ordered(p, z)
    ensures var k, c := p.exp - z.exp, z.exp + 2851;
            && k >= 0 && c >= 0 && k + c == p.exp + 2851
            && Worth(p) == Scale(Scale(p.V(), k), c)
            && Worth(z) == Scale(z.V(), c)
  {
    hide Pow2;
    var k, c := p.exp - z.exp, z.exp + 2851;
    Pow2Add(k, c);
    assert p.V() * (Pow2(k) * Pow2(c)) == (p.V() * Pow2(k)) * Pow2(c);
  }

  lemma LargerWorth(p: Wide, z: Wide)
    requires Ordered(p, z)
    ensures z.V() <= Scale(p.V(), p.exp - z.exp)
    ensures z.V() == Scale(p.V(), p.exp - z.exp) ==> p.exp == z.exp && z.V() == p.V()
  {
    hide Pow2;
    var k := p.exp - z.exp;
    Powers();
    PowZero();
    if k > 0 {
      Pow2Monotone(1, k);
      MulKeepsOrder(2, Pow2(k), p.V());
      assert Pow2(k) * p.V() == p.V() * Pow2(k);
    }
  }

  lemma PowZero()
    ensures Pow2(0) == 1
  {
  }

  // ----- Adding and subtracting pairs -----

  function Add64(x: Word, y: Word, carry: Word): (Word, Word)
    requires carry <= 1
  {
    ((x + y + carry) % WORD, (x + y + carry) / WORD)
  }

  function Sub64(x: Word, y: Word, borrow: Word): (Word, Word)
    requires borrow <= 1
  {
    if x >= y + borrow then (x - y - borrow, 0) else (x + WORD - y - borrow, 1)
  }

  lemma PairAdd(u1: Word, u2: Word, v1: Word, v2: Word)
    requires Value(u1, u2) + Value(v1, v2) < WORD * WORD
    ensures var (lo, c) := Add64(u2, v2, 0);
            c <= 1 && Value(Add64(u1, v1, c).0, lo) == Value(u1, u2) + Value(v1, v2)
  {
  }

  lemma PairSub(u1: Word, u2: Word, v1: Word, v2: Word)
    requires Value(u1, u2) >= Value(v1, v2)
    ensures var (lo, c) := Sub64(u2, v2, 0);
            c <= 1 && Value(Sub64(u1, v1, c).0, lo) == Value(u1, u2) - Value(v1, v2)
  {
  }

  // ----- Equal signs: the sum -----

  datatype Result = Result(m: nat, exp: int)

  function SumPair(p: Wide, z: Wide): (Word, Word)
    requires p.hi < WORD && p.lo < WORD && z.hi < WORD && z.lo < WORD && 0 <= p.exp - z.exp < WORD
  {
    CompressIsSticky(z.hi, z.lo, p.exp - z.exp);
    var (z1, z2) := ShrCompress(z.hi, z.lo, p.exp - z.exp);
    var (lo, c) := Add64(p.lo, z2, 0);
    (Add64(p.hi, z1, c).0, lo)
  }

  function Sum(p: Wide, z: Wide): Result
    requires p.hi < WORD && p.lo < WORD && z.hi < WORD && z.lo < WORD && 0 <= p.exp - z.exp < WORD
  {
    var (hi, lo) := SumPair(p, z);
    var top := hi / 0x8000_0000_0000_0000;
    Result(ShrCompress(hi, lo, 64 + top).1, p.exp - (1 - top))
  }

  lemma BitBound(q: nat, bit: bool, b: nat)
    requires q < 2 * b
    ensures q <= WithBit(q, bit) < 2 * b
  {
  }

  lemma QuotientAtMost(u: nat, d: nat)
    requires d > 0
    ensures u / d <= u
  {
    MulKeepsOrder(1, d, u / d + 1);
    assert d * (u / d + 1) == (u / d) * d + d;
    if u / d > 0 {
      MulKeepsOrder(1, d, u / d);
      assert d * (u / d) == (u / d) * d;
    }
  }

  lemma StickyBound(u: nat, k: nat, b: nat)
    requires u < 2 * b
    ensures Sticky(u, k) < 2 * b
  {
    hide Pow2;
    QuotientAtMost(u, Pow2(k));
    BitBound(Quotient(u, Pow2(k)), u % Pow2(k) != 0, b);
  }

  lemma QuotientRange(u: nat, d: nat, lo: nat, hi: nat)
    requires d > 0 && lo * d <= u < hi * d
    ensures lo <= u / d < hi
  {
    var q := u / d;
    DivBound(u, d, hi);
    assert (q + 1) * d == q * d + d > u;
    MulKeepsOrder(lo, q + 1, d);
  }

  // A number with leading bit 62 + n becomes a word with leading bit 62.
  lemma TopRange(u: nat, n: nat)
    requires Pow2(62 + n) <= u < Pow2(63 + n)
    ensures Pow2(62) <= Sticky(u, n) < Pow2(63)
  {
    hide Pow2;
    Powers();
    Pow2Add(62, n);
    Pow2Add(63, n);
    QuotientRange(u, Pow2(n), Pow2(62), Pow2(63));
    BitBound(Quotient(u, Pow2(n)), u % Pow2(n) != 0, 0x4000_0000_0000_0000);
  }

  lemma OrderedRange(p: Wide, z: Wide)
    requires Ordered(p, z)
    ensures p.hi < WORD && p.lo < WORD && z.hi < WORD && z.lo < WORD && 0 <= p.exp - z.exp < WORD
    ensures 0x4000_0000_0000_0000 * WORD <= p.V() < 0x8000_0000_0000_0000 * WORD
    ensures z.V() < 0x8000_0000_0000_0000 * WORD && p.V() % 2 == 0
  {
    hide Pow2;
    Powers();
  }

  // Both operands over one exponent, cut stickily.
  lemma SumWorth(p: Wide, z: Wide)
    requires Ordered(p, z)
    ensures var k := p.exp - z.exp;
            Sticky(Scale(p.V(), k) + z.V(), k) == Sticky(Worth(p) + Worth(z), p.exp + 2851)
  {
    hide Pow2, Sticky, Worth;
    var k, c := p.exp - z.exp, z.exp + 2851;
    CommonScale(p, z);
    StickyScale(Scale(p.V(), k) + z.V(), c, k);
    Distribute(Scale(p.V(), k), z.V(), Pow2(c));
  }

  // The 128-bit sum does not overflow, and is the exact sum cut once.
  lemma SumValue(p: Wide, z: Wide)
    requires Ordered(p, z)
    ensures p.hi < WORD && p.lo < WORD && z.hi < WORD && z.lo < WORD && 0 <= p.exp - z.exp < WORD
    ensures p.exp + 2851 >= 0 && p.V() <= Value(SumPair(p, z).0, SumPair(p, z).1)
    ensures Value(SumPair(p, z).0, SumPair(p, z).1) == Sticky(Worth(p) + Worth(z), p.exp + 2851)
  {
    OrderedRange(p, z);
    SumWorth(p, z);
    hide Pow2, ShrCompress, Sticky, Worth;
    var k := p.exp - z.exp;
    CompressIsSticky(z.hi, z.lo, k);
    var (z1, z2) := ShrCompress(z.hi, z.lo, k);
    StickyBound(z.V(), k, 0x4000_0000_0000_0000 * WORD);
    PairAdd(p.hi, p.lo, z1, z2);
    StickyAdd(p.V(), z.V(), k);
  }

  // Cut down to a word with leading bit 62.
  lemma SumWord(hi: Word, lo: Word, w: nat, e: nat)
    requires Pow2(126) <= Value(hi, lo) == Sticky(w, e)
    ensures var top := hi / 0x8000_0000_0000_0000;
            var m := ShrCompress(hi, lo, 64 + top).1;
            Pow2(62) <= m < Pow2(63) && m == Sticky(w, e + (64 + top))
  {
    hide Pow2, ShrCompress, Sticky;
    Powers();
    Pow2Add(127, 1);
    var s, top := Value(hi, lo), hi / 0x8000_0000_0000_0000;
    assert top == if s >= Pow2(127) then 1 else 0;
    CompressIsSticky(hi, lo, 64 + top);
    TopRange(s, 64 + top);
    StickyCompose(w, e, 64 + top);
    LowWord(ShrCompress(hi, lo, 64 + top).0, ShrCompress(hi, lo, 64 + top).1);
  }

  lemma SumExact(p: Wide, z: Wide)
    requires Ordered(p, z)
    ensures var r := Sum(p, z);
            && Pow2(62) <= r.m < Pow2(63)
            && r.exp >= p.exp - 1 && r.exp + 2916 >= 0
            && r.m == Sticky(Worth(p) + Worth(z), r.exp + 2916)
  {
    hide Pow2, ShrCompress, Sticky, Worth, SumPair;
    SumValue(p, z);
    OrderedRange(p, z);
    Powers();
    var (hi, lo) := SumPair(p, z);
    SumWord(hi, lo, Worth(p) + Worth(z), p.exp + 2851);
  }

  lemma LowWord(r1: nat, r2: nat)
    ensures Value(r1, r2) < WORD ==> r1 == 0 && r2 == Value(r1, r2)
  {
  }

  // ----- Opposite signs: the difference -----

  function Difference(p: Wide, z: Wide): Result
    requires p.hi < WORD && p.lo < WORD && z.hi < WORD && z.lo < WORD && 0 <= p.exp - z.exp < WORD
  {
    CompressIsSticky(z.hi, z.lo, p.exp - z.exp);
    var (z1, z2) := ShrCompress(z.hi, z.lo, p.exp - z.exp);
    var (lo, b) := Sub64(p.lo, z2, 0);
    var (hi, _) := Sub64(p.hi, z1, b);
    var nz := Lz(hi, lo);
    var (m, rest) := Shl(hi, lo, UintSub(nz, 1));
    Result(Or(m, Nonzero(rest)), p.exp - nz)
  }

  lemma StickyPositive(u: nat, k: nat)
    requires u > 0
    ensures Sticky(u, k) > 0
  {
    hide Pow2;
    if u / Pow2(k) == 0 {
      assert u == (u / Pow2(k)) * Pow2(k) + u % Pow2(k);
    }
  }

  lemma ShortLen(d: nat, n: nat)
    requires d < Pow2(n)
    ensures BitLen(d) <= n
  {
    if d > 0 {
      var b := BitLen(d) - 1;
      hide BitLen, Pow2;
      if n <= b {
        Pow2Monotone(n, b);
      }
    }
  }

  // What the cancelling shift leaves in the high word.
  lemma ShiftUp(hi: Word, lo: Word, j: nat)
    requires Value(hi, lo) > 0 && BitLen(Value(hi, lo)) + j == 127
    ensures Lz(hi, lo) == j + 1
    ensures var (m, rest) := Shl(hi, lo, j);
            && Pow2(62) <= Or(m, Nonzero(rest)) < Pow2(63)
            && Or(m, Nonzero(rest)) == Sticky(Scale(Value(hi, lo), j), 64)
  {
    hide Pow2, Shl, Or, BitLen, Lz, Sticky;
    Powers();
    var d := Value(hi, lo);
    var n := BitLen(d);
    LzExact(hi, lo);
    Pow2Add(n, j);
    Pow2Add(n - 1, j);
    MulKeepsOrder(d, Pow2(n), Pow2(j));
    MulKeepsOrder(Pow2(n - 1), d, Pow2(j));
    ShlExact(hi, lo, j);
    var v := Scale(d, j);
    DivModUnique(v, WORD * WORD, 0, v);
    var (m, rest) := Shl(hi, lo, j);
    OrBit(m, Nonzero(rest));
    TopRange(v, 64);
    PairSticky(m, rest);
  }

  lemma PairSticky(m: nat, rest: Word)
    ensures Sticky(Value(m, rest), 64) == WithBit(m, Nonzero(rest) == 1)
  {
    hide Pow2;
    Pow2Word();
    DivModUnique(Value(m, rest), WORD, m, rest);
  }

  // Operands two or more binary places apart cancel at most one bit.
  lemma FarApart(p: Wide, z: Wide)
    requires Ordered(p, z) && p.exp >= z.exp + 2
    ensures p.V() - Sticky(z.V(), p.exp - z.exp) >= Pow2(125)
  {
    hide Pow2;
    Powers();
    Pow2Add(1, 1);
    Pow2Add(125, 1);
    Pow2Add(125, 2);
    var d := Pow2(p.exp - z.exp);
    Pow2Monotone(2, p.exp - z.exp);
    DivBoundBy(z.V(), d, Pow2(125));
    BitBound(Quotient(z.V(), d), z.V() % d != 0, 0x1000_0000_0000_0000 * WORD);
  }

  // So if most bits cancel, nothing had been shifted out.
  lemma DeepCancellation(p: Wide, z: Wide)
    requires Ordered(p, z) && p.V() - Sticky(z.V(), p.exp - z.exp) < Pow2(125)
    ensures Sticky(z.V(), p.exp - z.exp) * Pow2(p.exp - z.exp) == z.V()
  {
    hide Pow2;
    Powers();
    PowZero();
    if p.exp >= z.exp + 2 {
      FarApart(p, z);
      assert false;
    }
  }

  lemma DivBoundBy(u: nat, d: nat, b: nat)
    requires d >= 4 && u < 4 * b
    ensures u / d < b
  {
    MulKeepsOrder(4, d, b);
    assert d * b == b * d;
    DivBound(u, d, b);
  }

  // Aligning the difference with the exact one.
  lemma DifferenceAligned(p: Wide, z: Wide)
    requires Ordered(p, z) && !(p.exp == z.exp && p.V() == z.V())
    ensures Worth(p) > Worth(z)
    ensures Sticky(z.V(), p.exp - z.exp) < p.V()
    ensures p.V() - Sticky(z.V(), p.exp - z.exp) == Sticky(Worth(p) - Worth(z), p.exp + 2851)
  {
    hide Pow2, Sticky, Worth;
    var k, c := p.exp - z.exp, z.exp + 2851;
    CommonScale(p, z);
    LargerWorth(p, z);
    var x := Scale(p.V(), k) - z.V();
    ScaledDifference(Scale(p.V(), k), z.V(), Pow2(c));
    StickySub(p.V(), z.V(), k);
    StickyPositive(x, k);
    StickyScale(x, c, k);
  }

  lemma ScaledDifference(a: nat, b: nat, e: nat)
    requires e > 0 && a > b
    ensures a * e > b * e && a * e - b * e == (a - b) * e
  {
    MulKeepsOrder(b, a, e);
  }

  lemma DifferenceWhole(p: Wide, z: Wide)
    requires Ordered(p, z) && !(p.exp == z.exp && p.V() == z.V())
    requires p.V() - Sticky(z.V(), p.exp - z.exp) < Pow2(125)
    ensures Worth(p) - Worth(z) == (p.V() - Sticky(z.V(), p.exp - z.exp)) * Pow2(p.exp + 2851)
  {
    hide Pow2, Sticky, Worth;
    var k, c := p.exp - z.exp, z.exp + 2851;
    CommonScale(p, z);
    DeepCancellation(p, z);
    Pow2Add(k, c);
    WholeAlgebra(p.V(), Sticky(z.V(), k), Pow2(k), Pow2(c));
  }

  lemma WholeAlgebra(v: int, s: int, d: int, e: int)
    ensures (v * d) * e - (s * d) * e == (v - s) * (d * e)
  {
    assert (v - s) * (d * e) == v * (d * e) - s * (d * e);
    assert v * (d * e) == (v * d) * e;
    assert s * (d * e) == (s * d) * e;
  }

  // Shifting the difference up and cutting 64 bits is cutting the exact difference.
  lemma CutDifference(a: nat, d: nat, e: nat, j: nat)
    requires d == Sticky(a, e) && (j > 64 ==> a == Scale(d, e)) && e + 64 >= j
    ensures Sticky(Scale(d, j), 64) == Sticky(a, e + 64 - j)
  {
    hide Pow2, Sticky;
    if j <= 64 {
      StickyScale(d, j, 64 - j);
      StickyCompose(a, e, 64 - j);
    } else {
      var g := Scale(d, j - 64);
      Pow2Add(j - 64, 64);
      assert d * (Pow2(j - 64) * Pow2(64)) == g * Pow2(64);
      StickyExact(g, 64);
      Pow2Add(j - 64, e + 64 - j);
      assert d * (Pow2(j - 64) * Pow2(e + 64 - j)) == g * Pow2(e + 64 - j);
      StickyExact(g, e + 64 - j);
    }
  }

  lemma DifferenceExact(p: Wide, z: Wide)
    requires Ordered(p, z) && !(p.exp == z.exp && p.V() == z.V())
    ensures Worth(p) > Worth(z)
    ensures var r := Difference(p, z);
            && Pow2(62) <= r.m < Pow2(63)
            && r.exp >= p.exp - 128 && r.exp + 2916 >= 0
            && r.m == Sticky(Worth(p) - Worth(z), r.exp + 2916)
  {
    hide Pow2, ShrCompress, Sticky, Shl, Or, Lz, BitLen, Worth;
    Powers();
    var k := p.exp - z.exp;
    DifferenceAligned(p, z);
    CompressIsSticky(z.hi, z.lo, k);
    var (z1, z2) := ShrCompress(z.hi, z.lo, k);
    PairSub(p.hi, p.lo, z1, z2);
    var (lo, b) := Sub64(p.lo, z2, 0);
    var (hi, _) := Sub64(p.hi, z1, b);
    var d := Value(hi, lo);
    ShortLen(d, 127);
    var j := 127 - BitLen(d);
    ShiftUp(hi, lo, j);
    if j > 64 {
      Pow2Monotone(BitLen(d), 125);
      DifferenceWhole(p, z);
    }
    CutDifference(Worth(p) - Worth(z), d, p.exp + 2851, j);
  }

  // ----- Rounding and packing -----

  // m>>n | nonzero(m&(1<<n-1)) on one word.
  function ShrSticky(m: Word, n: nat): nat {
    Or(ShrWord(m, n), Nonzero(And(m, UintSub(ShlWord(1, n), 1))))
  }

  lemma ShrStickyExact(m: Word, n: nat)
    ensures ShrSticky(m, n) == Sticky(m, n)
    ensures ShrSticky(m, n) <= m + 1
  {
    if n < 64 {
      hide Pow2, Or, And, ShlWord;
      OneShifted(n);
      AndMask(m, n);
      OrBit(Quotient(m, Pow2(n)), Nonzero(m % Pow2(n)));
      QuotientAtMost(m, Pow2(n));
    } else {
      hide Pow2, And;
      Pow2Monotone(64, n);
      Pow2Word();
      AndMask(m, 64);
      DivModUnique(m, WORD, 0, m);
      DivModUnique(m, Pow2(n), 0, m);
    }
  }

  function Pack(sign: nat, r: Result): nat
    requires r.m < WORD / 2
  {
    if r.exp > 2045 || (r.exp == 2045 && (r.m + 512) / 0x8000_0000_0000_0000 == 1) then
      sign * 0x8000_0000_0000_0000 + INFINITY
    else
      ShrStickyExact(r.m, if r.exp < 0 then -r.exp else 0);
      var m := if r.exp < 0 then ShrSticky(r.m, -r.exp) else r.m;
      var exp := if r.exp < 0 then 0 else r.exp;
      var rounded := FinalRound(m);
      var exp' := if Nonzero(rounded) == 1 then exp else 0;
      sign * 0x8000_0000_0000_0000 + exp' * TWO52 + rounded
  }

  // The leading bit of the word fixes the length of the number it stands for.
  lemma LengthFromTop(a: nat, e: nat)
    requires Pow2(62) <= Sticky(a, e) < Pow2(63)
    ensures BitLen(a) == e + 63
  {
    hide Pow2, BitLen;
    Powers();
    var d := Pow2(e);
    var q := Quotient(a, d);
    assert Pow2(62) <= q < Pow2(63);
    assert q * d <= a < (q + 1) * d by {
      assert (q + 1) * d == q * d + d;
    }
    Pow2Add(62, e);
    Pow2Add(63, e);
    MulKeepsOrder(Pow2(62), q, d);
    MulKeepsOrder(q + 1, Pow2(63), d);
    BitLenIs(a, e + 63);
  }

  lemma RoundRange(m: nat)
    requires m < Pow2(63)
    ensures RoundHalfEven(m, 1024) <= TWO53
    ensures m >= Pow2(62) ==> RoundHalfEven(m, 1024) >= TWO52
    ensures m + 512 >= Pow2(63) ==> RoundHalfEven(m, 1024) == TWO53
    ensures m + 512 < Pow2(63) ==> RoundHalfEven(m, 1024) < TWO53
  {
    hide Pow2;
    Powers();
  }

  lemma PackNormal(sign: nat, r: Result, a: nat)
    requires Pow2(62) <= r.m < Pow2(63) && r.exp >= 0 && r.m == Sticky(a, r.exp + 2916)
    ensures r.m < WORD / 2
    ensures Pack(sign, r) == sign * 0x8000_0000_0000_0000 + RoundedMagnitude(a)
  {
    hide Pow2, BitLen, FinalRound, RoundHalfEven, Sticky, ShrSticky;
    Powers();
    LengthFromTop(a, r.exp + 2916);
    RoundSticky(a, r.exp + 2916);
    RoundRange(r.m);
    FinalRoundCorrect(r.m);
  }

  lemma PackSubnormal(sign: nat, r: Result, a: nat)
    requires Pow2(62) <= r.m < Pow2(63) && r.exp < 0 && r.exp + 2916 >= 0 && r.m == Sticky(a, r.exp + 2916)
    ensures r.m < WORD / 2
    ensures Pack(sign, r) == sign * 0x8000_0000_0000_0000 + RoundedMagnitude(a)
  {
    hide Pow2, BitLen, FinalRound, RoundHalfEven, Sticky, ShrSticky;
    Powers();
    LengthFromTop(a, r.exp + 2916);
    ShrStickyExact(r.m, -r.exp);
    StickyCompose(a, r.exp + 2916, -r.exp);
    var m := ShrSticky(r.m, -r.exp);
    RoundSticky(a, 2916);
    StickyBound(r.m, -r.exp, 0x4000_0000_0000_0000);
    RoundRange(m);
    FinalRoundCorrect(m);
  }

  lemma PackExact(sign: nat, r: Result, a: nat)
    requires Pow2(62) <= r.m < Pow2(63) && r.exp + 2916 >= 0 && r.m == Sticky(a, r.exp + 2916)
    ensures r.m < WORD / 2
    ensures Pack(sign, r) == sign * 0x8000_0000_0000_0000 + RoundedMagnitude(a)
  {
    hide Pow2, Pack, RoundedMagnitude, Sticky;
    if r.exp >= 0 {
      PackNormal(sign, r, a);
    } else {
      PackSubnormal(sign, r, a);
    }
  }

  // ----- The whole operation -----

  ghost function SignedWorth(w: Wide): int
    requires w.exp >= -1200
  {
    if w.sign == 1 then -(Worth(w) as int) else Worth(w)
  }

  lemma OperandsExact(x: Word, y: Word, z: Word)
    requires FiniteNonzero(x) && FiniteNonzero(y) && FiniteNonzero(z)
    ensures Normalised(Split(x)) && Normalised(Split(y)) && Normalised(Split(z))
    ensures var p, w := Product(Split(x), Split(y)), Addend(Split(z));
            && Aligned(p) && Aligned(w) && w.lo == 0
            && SignedWorth(p) == Signed(x) * Signed(y)
            && SignedWorth(w) == Signed(z) * Pow2(2000)
  {
    hide Pow2, Split, Product, Addend, Worth, Magnitude;
    SplitExact(x);
    SplitExact(y);
    SplitExact(z);
    ProductExact(Split(x), Split(y));
    AddendExact(Split(z));
    ProductSign(Split(x), Split(y));
    AddendSign(Split(z));
    SignProduct(Magnitude(x), Magnitude(y));
    SignProduct(Magnitude(z), Pow2(2000));
  }

  lemma ProductSign(x: Parts, y: Parts)
    requires Normalised(x) && Normalised(y)
    ensures Product(x, y).sign == if x.sign == y.sign then 0 else 1
  {
  }

  lemma AddendSign(z: Parts)
    requires Normalised(z)
    ensures Addend(z).sign == z.sign
  {
  }

  lemma SignProduct(a: int, b: int)
    ensures (-a) * b == -(a * b) && a * (-b) == -(a * b) && (-a) * (-b) == a * b
  {
  }

  lemma SameSignSum(p: Wide, z: Wide)
    requires Ordered(p, z) && p.sign == z.sign
    ensures Sum(p, z).m < WORD / 2
    ensures Pack(p.sign, Sum(p, z)) == Rounded(SignedWorth(p) + SignedWorth(z))
  {
    hide Pow2, Sum, Pack, RoundedMagnitude, Sticky;
    SumExact(p, z);
    WorthPositive(p);
    PackExact(p.sign, Sum(p, z), Worth(p) + Worth(z));
  }

  lemma WorthPositive(w: Wide)
    requires Aligned(w)
    ensures Worth(w) > 0
  {
    hide Pow2;
    Powers();
    MulKeepsOrder(0, w.V(), Pow2(w.exp + 2851));
  }

  lemma OppositeSignSum(p: Wide, z: Wide)
    requires Ordered(p, z) && p.sign != z.sign && !(p.exp == z.exp && p.V() == z.V())
    ensures Difference(p, z).m < WORD / 2
    ensures Pack(p.sign, Difference(p, z)) == Rounded(SignedWorth(p) + SignedWorth(z))
  {
    hide Pow2, Difference, Pack, RoundedMagnitude, Sticky, Worth;
    DifferenceExact(p, z);
    PackExact(p.sign, Difference(p, z), Worth(p) - Worth(z));
  }

  // From the splitting of the operands on, all finite and nonzero: the exact product plus
  // the addend, rounded once. An exact cancellation gives plus zero.
  method RoundOnce(x: Word, y: Word, z: Word) returns (r: nat)
    requires FiniteNonzero(x) && FiniteNonzero(y) && FiniteNonzero(z)
    ensures r == RoundedSum(x, y, z)
  {
    hide Pow2, Split, Product, Addend, Sum, Difference, Pack, Rounded, Worth, Signed;
    OperandsExact(x, y, z);
    var p, w := Product(Split(x), Split(y)), Addend(Split(z));
    OrderedAfterSwap(p, w);
    if Swaps(p, w) {
      p, w := w, p;
    }
    if p.sign != w.sign && p.exp == w.exp && p.hi == w.hi && p.lo == w.lo {
      ExactCancellation(p, w);
      return 0;
    }
    if p.sign == w.sign {
      SameSignSum(p, w);
      return Pack(p.sign, Sum(p, w));
    } else {
      PairEqual(p, w);
      OppositeSignSum(p, w);
      return Pack(p.sign, Difference(p, w));
    }
  }

  lemma ExactCancellation(p: Wide, z: Wide)
    requires Aligned(p) && Aligned(z) && p.sign != z.sign && p.exp == z.exp && p.V() == z.V()
    ensures Rounded(SignedWorth(p) + SignedWorth(z)) == 0
  {
    hide Worth;
    assert Worth(p) == Worth(z) by { SameWorth(p, z); }
  }

  lemma SameWorth(p: Wide, z: Wide)
    requires Aligned(p) && Aligned(z) && p.exp == z.exp && p.V() == z.V()
    ensures Worth(p) == Worth(z)
  {
  }

  lemma PairEqual(p: Wide, z: Wide)
    requires Aligned(p) && Aligned(z)
    ensures p.V() == z.V() <==> p.hi == z.hi && p.lo == z.lo
  {
  }
}
