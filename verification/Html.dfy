// HTML character references: the escaper, a decoder stated on the text it reads, and
// the library's decoder, which writes into the buffer it is still reading.

module Html {
  import opened Bytes

  const AMP: Byte := 38
  const HASH: Byte := 35
  const SEMICOLON: Byte := 59

  // ----- UTF-8, section 3 of RFC 3629 -----

  const RUNE_ERROR: int := 0xFFFD

  predicate Scalar(x: int) {
    0 <= x <= 0x10FFFF && !(0xD800 <= x <= 0xDFFF)
  }

  function EncodeScalar(x: int): (r: seq<Byte>)
    requires Scalar(x)
    ensures 1 <= |r| <= 4
  {
    if x < 0x80 then [x]
    else if x < 0x800 then [0xC0 + x / 64, 0x80 + x % 64]
    else if x < 0x10000 then [0xE0 + x / 4096, 0x80 + x / 64 % 64, 0x80 + x % 64]
    else [0xF0 + x / 262144, 0x80 + x / 4096 % 64, 0x80 + x / 64 % 64, 0x80 + x % 64]
  }

  // Anything that is not a scalar value is written as the replacement character.
  function EncodeRune(x: int): (r: seq<Byte>)
    ensures 1 <= |r| <= 4
  {
    EncodeScalar(if Scalar(x) then x else RUNE_ERROR)
  }

  // The code point an encoding spells.
  function DecodeScalar(r: seq<int>): int
    requires 1 <= |r| <= 4
  {
    if |r| == 1 then r[0]
    else if |r| == 2 then (r[0] - 0xC0) * 64 + (r[1] - 0x80)
    else if |r| == 3 then (r[0] - 0xE0) * 4096 + (r[1] - 0x80) * 64 + (r[2] - 0x80)
    else (r[0] - 0xF0) * 262144 + (r[1] - 0x80) * 4096 + (r[2] - 0x80) * 64 + (r[3] - 0x80)
  }

  lemma SixBitGroups(x: nat)
    ensures x == x / 64 * 64 + x % 64
    ensures x / 64 == x / 4096 * 64 + x / 64 % 64
    ensures x / 4096 == x / 262144 * 64 + x / 4096 % 64
  {
    assert x / 4096 == x / 64 / 64;
    assert x / 262144 == x / 4096 / 64;
  }

  lemma EncodeDecode(x: int)
    requires Scalar(x)
    ensures DecodeScalar(EncodeScalar(x)) == x
  {
    SixBitGroups(x);
  }

  lemma EncodeScalarInjective(x: int, y: int)
    requires Scalar(x) && Scalar(y) && EncodeScalar(x) == EncodeScalar(y)
    ensures x == y
  {
    hide EncodeScalar, DecodeScalar;
    EncodeDecode(x);
    EncodeDecode(y);
  }

  // ----- Numeric references -----

  // Windows-1252 characters for the codes 0x80 to 0x9F.
  const REPLACEMENTS: seq<int> := [
    0x20AC, 0x0081, 0x201A, 0x0192, 0x201E, 0x2026, 0x2020, 0x2021,
    0x02C6, 0x2030, 0x0160, 0x2039, 0x0152, 0x008D, 0x017D, 0x008F,
    0x0090, 0x2018, 0x2019, 0x201C, 0x201D, 0x2022, 0x2013, 0x2014,
    0x02DC, 0x2122, 0x0161, 0x203A, 0x0153, 0x009D, 0x017E, 0x0178
  ]

  function Replaced(x: int): int {
    if 0x80 <= x <= 0x9F then REPLACEMENTS[x - 0x80]
    else if x == 0 || 0xD800 <= x <= 0xDFFF || x > 0x10FFFF then RUNE_ERROR
    else x
  }

  // The code computes on 32-bit signed integers.
  function Wrap32(v: int): int {
    var m := v % 0x1_0000_0000;
    if m >= 0x8000_0000 then m - 0x1_0000_0000 else m
  }

  // What the code writes for a reference whose digits spell v.
  function NumericText(v: nat): seq<Byte> {
    EncodeRune(Replaced(Wrap32(v)))
  }

  // What section 13.2.5.80 of the WHATWG HTML standard asks for.
  function StandardText(v: nat): seq<Byte> {
    EncodeRune(Replaced(v))
  }

  // A number too large for a code point that wraps around to the code of another character.
  predicate WrapsToCharacter(v: nat) {
    var w := Wrap32(v);
    v > 0x10FFFF && 0 < w && Scalar(w) && w != RUNE_ERROR
  }

  lemma ReplacedRange(x: int)
    ensures 0 < x && Scalar(x) ==> Scalar(Replaced(x)) && (x != RUNE_ERROR ==> Replaced(x) != RUNE_ERROR)
    ensures !(0 < x && Scalar(x)) ==> EncodeRune(Replaced(x)) == EncodeRune(RUNE_ERROR)
    ensures Replaced(RUNE_ERROR) == RUNE_ERROR
  {
  }

  // On the number alone, code and standard agree exactly when it does not wrap to a
  // character; in particular on every number below 2^31.
  lemma NumberFollowsStandard(v: nat)
    ensures NumericText(v) == StandardText(v) <==> !WrapsToCharacter(v)
    ensures v < 0x8000_0000 ==> !WrapsToCharacter(v)
  {
    hide Replaced, EncodeScalar;
    var w := Wrap32(v);
    ReplacedRange(w);
    ReplacedRange(v);
    if v > 0x10FFFF && 0 < w && Scalar(w) && w != RUNE_ERROR {
      if NumericText(v) == StandardText(v) {
        EncodeScalarInjective(Replaced(w), RUNE_ERROR);
      }
    }
  }

  lemma Spellings()
    ensures EncodeRune(65) == [65] && EncodeRune(RUNE_ERROR) == [0xEF, 0xBF, 0xBD]
  {
  }

  // ----- Runs of digits and letters -----

  datatype Class = Decimal | Hexadecimal | Alphanumeric

  predicate InClass(c: Byte, k: Class) {
    match k
    case Decimal => 48 <= c <= 57
    case Hexadecimal => 48 <= c <= 57 || 97 <= c <= 102 || 65 <= c <= 70
    case Alphanumeric => 97 <= c <= 122 || 65 <= c <= 90 || 48 <= c <= 57
  }

  function DigitValue(c: Byte): int {
    if 48 <= c <= 57 then c - 48
    else if 97 <= c <= 102 then c - 97 + 10
    else if 65 <= c <= 70 then c - 65 + 10
    else 0
  }

  // Where the run of class k that starts at i ends.
  function RunEnd(s: seq<Byte>, i: nat, k: Class): (j: nat)
    requires i <= |s|
    ensures i <= j <= |s|
    ensures forall m :: i <= m < j ==> InClass(s[m], k)
    ensures j < |s| ==> !InClass(s[j], k)
    decreases |s| - i
  {
    if i < |s| && InClass(s[i], k) then RunEnd(s, i + 1, k) else i
  }

  lemma RunEndIs(s: seq<Byte>, i: nat, j: nat, k: Class)
    requires i <= j <= |s| && (forall m :: i <= m < j ==> InClass(s[m], k)) && (j < |s| ==> !InClass(s[j], k))
    ensures RunEnd(s, i, k) == j
  {
  }

  // The number the digits of s[i..j] spell.
  function NumberIn(s: seq<Byte>, i: nat, j: nat, base: nat): int
    requires i <= j <= |s|
    decreases j - i
  {
    if i == j then 0 else base * NumberIn(s, i, j - 1, base) + DigitValue(s[j - 1])
  }

  lemma {:induction false} NumberNonNegative(s: seq<Byte>, i: nat, j: nat, base: nat)
    requires i <= j <= |s|
    ensures NumberIn(s, i, j, base) >= 0
    decreases j - i
  {
    if i < j {
      NumberNonNegative(s, i, j - 1, base);
    }
  }

  // Wrapping after every digit is wrapping once at the end.
  lemma WrapStep(v: int, base: int, d: int)
    ensures Wrap32(base * Wrap32(v) + d) == Wrap32(base * v + d)
  {
    var q := v / 0x1_0000_0000;
    var w := Wrap32(v);
    var q' := if v % 0x1_0000_0000 >= 0x8000_0000 then q + 1 else q;
    assert v == q' * 0x1_0000_0000 + w;
    assert base * v + d == (base * q') * 0x1_0000_0000 + (base * w + d) by {
      assert base * (q' * 0x1_0000_0000 + w) == (base * q') * 0x1_0000_0000 + base * w;
    }
    ModShift(base * w + d, base * q');
  }

  lemma ModShift(x: int, k: int)
    ensures (k * 0x1_0000_0000 + x) % 0x1_0000_0000 == x % 0x1_0000_0000
  {
  }

  // ----- One reference, stated on the text it starts -----

  // The tables of named references; a missing name reads as 0.
  datatype Tables = Tables(one: map<seq<Byte>, int>, two: map<seq<Byte>, (int, int)>) {
    function One(name: seq<Byte>): int { if name in one then one[name] else 0 }
    function Two(name: seq<Byte>): (int, int) { if name in two then two[name] else (0, 0) }

    // No expansion is longer than the reference it replaces.
    ghost predicate Fit() {
      && (forall name :: name in one ==> |EncodeRune(one[name])| <= 1 + |name|)
      && (forall name :: name in two ==> |EncodeRune(two[name].0)| + |EncodeRune(two[name].1)| <= 1 + |name|)
    }
  }

  const LONGEST_WITHOUT_SEMICOLON := 6

  // Index after the run that ends at j, including one semicolon.
  function AfterSemicolon(s: seq<Byte>, j: nat): (i: nat)
    requires j <= |s|
    ensures j <= i <= |s|
  {
    if j < |s| && s[j] == SEMICOLON then j + 1 else j
  }

  // Text written and bytes consumed for the numeric reference at the start of s.
  function NumericRef(s: seq<Byte>): (seq<Byte>, nat)
    requires |s| >= 2
  {
    if |s| <= 3 then (s[..1], 1)
    else
      var hex := s[2] == 120 || s[2] == 88;
      var from := if hex then 3 else 2;
      var j := RunEnd(s, from, if hex then Hexadecimal else Decimal);
      var i := AfterSemicolon(s, j);
      if i <= 3 then (s[..1], 1)
      else
        NumberNonNegative(s, from, j, if hex then 16 else 10);
        (NumericText(NumberIn(s, from, j, if hex then 16 else 10)), i)
  }

  // The longest prefix of name, of j bytes at most and two at least, that the table knows.
  function KnownPrefix(name: seq<Byte>, t: Tables, j: int): (k: int)
    requires j <= |name|
    ensures k == 0 || (2 <= k <= j && t.One(name[..k]) != 0)
    ensures forall m :: 2 <= m <= j && k < m ==> t.One(name[..m]) == 0
    decreases j
  {
    if j <= 1 then 0
    else if t.One(name[..j]) != 0 then j
    else KnownPrefix(name, t, j - 1)
  }

  function NamedRef(s: seq<Byte>, t: Tables): (seq<Byte>, nat)
    requires |s| >= 2
  {
    var i := AfterSemicolon(s, RunEnd(s, 1, Alphanumeric));
    var name := s[1..i];
    if name == [] then (s[..i], i)
    else if t.One(name) != 0 then (EncodeRune(t.One(name)), i)
    else if t.Two(name).0 != 0 then (EncodeRune(t.Two(name).0) + EncodeRune(t.Two(name).1), i)
    else
      var most := if |name| - 1 > LONGEST_WITHOUT_SEMICOLON then LONGEST_WITHOUT_SEMICOLON else |name| - 1;
      var k := KnownPrefix(name, t, most);
      if k > 0 then (EncodeRune(t.One(name[..k])), k + 1) else (s[..i], i)
  }

  function Reference(s: seq<Byte>, t: Tables): (seq<Byte>, nat)
    requires s != []
  {
    if |s| <= 1 then (s[..1], 1)
    else if s[1] == HASH then NumericRef(s)
    else NamedRef(s, t)
  }

  // Decoding a reference never makes the text longer.
  lemma ReferenceFits(s: seq<Byte>, t: Tables)
    requires s != [] && t.Fit()
    ensures 1 <= |Reference(s, t).0| <= Reference(s, t).1 <= |s|
  {
  }

  // ----- Numeric references as the standard reads them -----

  predicate IsHex(s: seq<Byte>) {
    |s| > 2 && (s[2] == 120 || s[2] == 88)
  }

  function DigitsFrom(s: seq<Byte>): (from: nat)
    requires |s| >= 2
    ensures from <= |s|
  {
    if IsHex(s) then 3 else 2
  }

  function DigitClass(s: seq<Byte>): Class {
    if IsHex(s) then Hexadecimal else Decimal
  }

  function DigitsEnd(s: seq<Byte>): (j: nat)
    requires |s| >= 2
    ensures DigitsFrom(s) <= j <= |s|
  {
    RunEnd(s, DigitsFrom(s), DigitClass(s))
  }

  function Number(s: seq<Byte>): nat
    requires |s| >= 2
  {
    NumberNonNegative(s, DigitsFrom(s), DigitsEnd(s), if IsHex(s) then 16 else 10);
    NumberIn(s, DigitsFrom(s), DigitsEnd(s), if IsHex(s) then 16 else 10)
  }

  // Sections 13.2.5.75 to 13.2.5.80 of the WHATWG HTML standard, for a text that starts
  // with &#. Without a digit the text stays as it is; otherwise any run of digits counts,
  // with or without a semicolon.
  function StandardRef(s: seq<Byte>): (seq<Byte>, nat)
    requires |s| >= 2
  {
    if DigitsEnd(s) == DigitsFrom(s) then (s[..1], 1)
    else (StandardText(Number(s)), AfterSemicolon(s, DigitsEnd(s)))
  }

  // One decimal digit and no semicolon, as in &#9x: the code takes it for no reference.
  predicate LoneDigit(s: seq<Byte>)
    requires |s| >= 2
  {
    var j := DigitsEnd(s);
    !IsHex(s) && j == 3 && (j == |s| || s[j] != SEMICOLON)
  }

  // &#x; has no digit, but the code reads it as the number 0.
  predicate HexWithoutDigit(s: seq<Byte>)
    requires |s| >= 2
  {
    IsHex(s) && DigitsEnd(s) == 3 && 3 < |s| && s[3] == SEMICOLON
  }

  predicate NumberWraps(s: seq<Byte>)
    requires |s| >= 2
  {
    DigitsEnd(s) > DigitsFrom(s) && WrapsToCharacter(Number(s))
  }

  // The code reads its numeric references with the digits the standard reads.
  lemma NumericRefByParts(s: seq<Byte>)
    requires |s| >= 2
    ensures NumericRef(s) ==
              if |s| <= 3 || AfterSemicolon(s, DigitsEnd(s)) <= 3 then (s[..1], 1)
              else (NumericText(Number(s)), AfterSemicolon(s, DigitsEnd(s)))
  {
  }

  lemma NoDigitsIsZero(s: seq<Byte>)
    requires |s| >= 2 && DigitsEnd(s) == DigitsFrom(s)
    ensures Number(s) == 0
  {
  }

  // One decimal digit spells a control character or the replacement character.
  lemma OneDigitText(s: seq<Byte>)
    requires |s| >= 3 && !IsHex(s) && DigitsEnd(s) == 3
    ensures 0 <= Number(s) <= 9
    ensures StandardText(Number(s)) != [] && StandardText(Number(s))[0] != AMP
  {
    assert InClass(s[2], Decimal);
    assert NumberIn(s, 2, 3, 10) == 10 * NumberIn(s, 2, 2, 10) + DigitValue(s[2]);
    SmallText(Number(s));
  }

  lemma SmallText(v: nat)
    requires v <= 9
    ensures StandardText(v) != [] && StandardText(v)[0] != AMP
  {
    Spellings();
  }

  // For every text that starts with &#: the code reads the reference as the standard does,
  // both in what it writes and in how much it consumes, but for these three families.
  lemma NumericRefFollowsStandard(s: seq<Byte>)
    requires |s| >= 2 && s[0] == AMP && s[1] == HASH
    ensures NumericRef(s) == StandardRef(s) <==> !LoneDigit(s) && !HexWithoutDigit(s) && !NumberWraps(s)
  {
    hide NumericRef, NumericText, StandardText, WrapsToCharacter, Number;
    NumericRefByParts(s);
    var j := DigitsEnd(s);
    assert s[..1] == [AMP];
    if j == DigitsFrom(s) {
      if HexWithoutDigit(s) {
        assert AfterSemicolon(s, j) == 4;
      }
    } else if !IsHex(s) && j == 3 {
      OneDigitText(s);
      NumberFollowsStandard(Number(s));
    } else {
      NumberFollowsStandard(Number(s));
    }
  }

  // ----- Three texts on which code and standard part -----

  // &#9x stays as it is, where the standard has a tab before the x.
  lemma LoneDigitExample(t: Tables)
    ensures Reference([38, 35, 57, 120], t) == ([38], 1) && StandardRef([38, 35, 57, 120]) == ([9], 3)
  {
    var s: seq<Byte> := [38, 35, 57, 120];
    RunEndIs(s, 2, 3, Decimal);
    assert NumberIn(s, 2, 2, 10) == 0 && NumberIn(s, 2, 3, 10) == 9;
    assert s[..1] == [38];
  }

  // &#x; becomes the replacement character, where the standard leaves it as it is.
  lemma HexWithoutDigitExample(t: Tables)
    ensures Reference([38, 35, 120, 59], t) == ([0xEF, 0xBF, 0xBD], 4) && StandardRef([38, 35, 120, 59]) == ([38], 1)
  {
    var s: seq<Byte> := [38, 35, 120, 59];
    RunEndIs(s, 3, 3, Hexadecimal);
    assert NumberIn(s, 3, 3, 16) == 0;
    assert s[..1] == [38];
    Spellings();
    hide EncodeRune;
  }

  // &#4294967361; becomes the letter A, where the standard has the replacement character.
  const WRAPPING: seq<Byte> := [38, 35, 52, 50, 57, 52, 57, 54, 55, 51, 54, 49, 59]

  lemma WrappingNumber()
    ensures DigitsEnd(WRAPPING) == 12 && Number(WRAPPING) == 4294967361
  {
    RunEndIs(WRAPPING, 2, 12, Decimal);
    var s := WRAPPING;
    assert NumberIn(s, 2, 2, 10) == 0;
    assert NumberIn(s, 2, 3, 10) == 4;
    assert NumberIn(s, 2, 4, 10) == 42;
    assert NumberIn(s, 2, 5, 10) == 429;
    assert NumberIn(s, 2, 6, 10) == 4294;
    assert NumberIn(s, 2, 7, 10) == 42949;
    assert NumberIn(s, 2, 8, 10) == 429496;
    assert NumberIn(s, 2, 9, 10) == 4294967;
    assert NumberIn(s, 2, 10, 10) == 42949673;
    assert NumberIn(s, 2, 11, 10) == 429496736;
  }

  lemma WrapExample(t: Tables)
    ensures Reference(WRAPPING, t) == ([65], 13) && StandardRef(WRAPPING) == ([0xEF, 0xBF, 0xBD], 13)
  {
    WrappingNumber();
    NumericRefByParts(WRAPPING);
    WrappingText();
    hide NumericText, StandardText, Number, DigitsEnd, NumericRef;
  }

  lemma WrappingText()
    ensures NumericText(4294967361) == [65] && StandardText(4294967361) == [0xEF, 0xBF, 0xBD]
  {
    Spellings();
    assert Wrap32(4294967361) == 65;
    hide EncodeRune, Wrap32;
    assert Replaced(65) == 65 && Replaced(4294967361) == RUNE_ERROR;
  }

  // ----- The decoder -----

  // The decoder on the text it reads: plain bytes as they are, references expanded.
  ghost function Unescape(s: seq<Byte>, t: Tables): seq<Byte>
    requires t.Fit()
    decreases |s|
  {
    if s == [] then []
    else if s[0] != AMP then [s[0]] + Unescape(s[1..], t)
    else
      ReferenceFits(s, t);
      Reference(s, t).0 + Unescape(s[Reference(s, t).1..], t)
  }

  // ----- What digits are worth -----

  // The sixteen digits, in order of their worth, in either case.
  const LOWER: seq<Byte> := [48, 49, 50, 51, 52, 53, 54, 55, 56, 57, 97, 98, 99, 100, 101, 102]
  const UPPER: seq<Byte> := [48, 49, 50, 51, 52, 53, 54, 55, 56, 57, 65, 66, 67, 68, 69, 70]

  predicate Digit(c: Byte, d: nat, base: nat)
    requires base <= 16
  {
    d < base && (c == LOWER[d] || c == UPPER[d])
  }

  // ds is v in place-value notation: leading zeros and either case in any mixture.
  predicate Spells(ds: seq<Byte>, v: nat, base: nat)
    requires 2 <= base <= 16
  {
    if ds == [] then v == 0
    else Digit(ds[|ds| - 1], v % base, base) && Spells(ds[..|ds| - 1], v / base, base)
  }

  // The shortest spelling with at least one digit, in small letters.
  function Spelled(v: nat, base: nat): (ds: seq<Byte>)
    requires 2 <= base <= 16
    ensures ds != []
  {
    (if v < base then [] else Spelled(v / base, base)) + [LOWER[v % base]]
  }

  function ClassOf(base: nat): Class {
    if base == 16 then Hexadecimal else Decimal
  }

  lemma DigitWorth(c: Byte, d: nat, base: nat)
    requires (base == 10 || base == 16) && Digit(c, d, base)
    ensures InClass(c, ClassOf(base)) && DigitValue(c) == d
  {
  }

  // A byte of the class is a digit of some worth.
  lemma ClassDigit(c: Byte, base: nat)
    requires (base == 10 || base == 16) && InClass(c, ClassOf(base))
    ensures exists d :: 0 <= d < base && Digit(c, d, base)
  {
    assert Digit(c, DigitValue(c), base);
  }

  lemma {:induction false} SpelledRun(s: seq<Byte>, i: nat, j: nat, v: nat, base: nat)
    requires i <= j <= |s| && (base == 10 || base == 16) && Spells(s[i..j], v, base)
    ensures NumberIn(s, i, j, base) == v
    ensures forall m :: i <= m < j ==> InClass(s[m], ClassOf(base))
    decreases j - i
  {
    if i < j {
      var ds := s[i..j];
      assert ds[..|ds| - 1] == s[i..j - 1] && ds[|ds| - 1] == s[j - 1];
      SpelledRun(s, i, j - 1, v / base, base);
      DigitWorth(s[j - 1], v % base, base);
      Quotient(v, base);
    }
  }

  // No digit of the base stands first.
  ghost predicate NoDigitFirst(rest: seq<Byte>, base: nat)
    requires base <= 16
  {
    rest != [] ==> forall d :: 0 <= d < base ==> !Digit(rest[0], d, base)
  }

  // &# or &#x or &#X.
  predicate Introduces(head: seq<Byte>, base: nat) {
    (head == [38, 35] && base == 10) || ((head == [38, 35, 120] || head == [38, 35, 88]) && base == 16)
  }

  // However a number is spelled, it is the number the code reads, and the digits end where
  // the spelling ends.
  lemma SpelledNumber(head: seq<Byte>, ds: seq<Byte>, rest: seq<Byte>, v: nat, base: nat)
    requires Introduces(head, base) && ds != [] && Spells(ds, v, base) && NoDigitFirst(rest, base)
    ensures var s := head + ds + rest; DigitsEnd(s) == |head| + |ds| && Number(s) == v
    ensures DigitsFrom(head + ds + rest) == |head|
  {
    var s := head + ds + rest;
    var i, j := |head|, |head| + |ds|;
    assert s[i..j] == ds;
    SpelledRun(s, i, j, v, base);
    assert s[i] == ds[0];
    assert forall m :: 0 <= m < i ==> s[m] == head[m];
    assert IsHex(s) <==> base == 16;
    if j < |s| && InClass(s[j], ClassOf(base)) {
      assert s[j] == rest[0];
      ClassDigit(s[j], base);
    }
    hide InClass;
    RunEndIs(s, i, j, ClassOf(base));
  }

  // A character that stands for itself: no control or surrogate code, not zero.
  predicate Verbatim(v: nat) {
    0 < v <= 0x10FFFF && !(0xD800 <= v <= 0xDFFF) && !(0x80 <= v <= 0x9F)
  }

  lemma VerbatimText(v: nat)
    requires Verbatim(v)
    ensures Scalar(v) && NumericText(v) == EncodeScalar(v)
  {
    SmallWrap(v);
    hide Wrap32, EncodeScalar;
  }

  // Zero, surrogates and numbers past the last code point, as long as they do not wrap.
  lemma InvalidText(v: nat)
    requires v == 0 || 0xD800 <= v <= 0xDFFF || 0x10FFFF < v < 0x8000_0000
    ensures NumericText(v) == [0xEF, 0xBF, 0xBD]
  {
    SmallWrap(v);
    Spellings();
    hide Wrap32, EncodeRune;
  }

  // Five codes from 0x80 to 0x9F are undefined in Windows-1252 and stay, all others stand
  // for characters beyond Latin-1.
  lemma Windows1252(v: nat)
    requires 0x80 <= v <= 0x9F
    ensures if v in {0x81, 0x8D, 0x8F, 0x90, 0x9D} then REPLACEMENTS[v - 0x80] == v
            else 0xFF < REPLACEMENTS[v - 0x80] < 0xD800
  {
  }

  lemma WindowsText(v: nat)
    requires 0x80 <= v <= 0x9F
    ensures Scalar(REPLACEMENTS[v - 0x80]) && NumericText(v) == EncodeScalar(REPLACEMENTS[v - 0x80])
    ensures if v in {0x81, 0x8D, 0x8F, 0x90, 0x9D} then REPLACEMENTS[v - 0x80] == v
            else 0xFF < REPLACEMENTS[v - 0x80] < 0xD800
  {
    SmallWrap(v);
    Windows1252(v);
    hide Wrap32, EncodeScalar, REPLACEMENTS;
  }

  lemma SpelledReference(head: seq<Byte>, ds: seq<Byte>, rest: seq<Byte>, v: nat, base: nat, t: Tables)
    requires Introduces(head, base) && ds != [] && Spells(ds, v, base) && NoDigitFirst(rest, base)
    requires |head| + |ds| > 3 || (rest != [] && rest[0] == SEMICOLON)
    ensures var s := head + ds + rest;
            var n := |head| + |ds| + (if rest != [] && rest[0] == SEMICOLON then 1 else 0);
            Reference(s, t) == (NumericText(v), n)
  {
    var s := head + ds + rest;
    SpelledNumber(head, ds, rest, v, base);
    assert s[1] == head[1] == 35;
    assert rest != [] ==> s[|head| + |ds|] == rest[0];
    hide DigitsEnd, Number, NumericText, NumericRef, Spells, NoDigitFirst;
    NumericRefByParts(s);
  }

  // Every character that stands for itself, by its number in either base and in any
  // spelling: the decoder writes its UTF-8 encoding and goes on behind the semicolon.
  lemma SpelledDecodes(head: seq<Byte>, ds: seq<Byte>, rest: seq<Byte>, v: nat, base: nat, t: Tables)
    requires t.Fit() && Introduces(head, base) && ds != [] && Spells(ds, v, base) && Verbatim(v)
    ensures Scalar(v) && Unescape(head + ds + [59] + rest, t) == EncodeScalar(v) + Unescape(rest, t)
  {
    var s := head + ds + [59] + rest;
    var tail := [59] + rest;
    assert s == head + ds + tail;
    assert NoDigitFirst(tail, base) by {
      hide Spells, EncodeScalar;
    }
    hide Spells, NoDigitFirst, EncodeScalar, NumericText, Reference, Verbatim;
    SpelledReference(head, ds, tail, v, base, t);
    VerbatimText(v);
    var n := |head| + |ds| + 1;
    assert s[n..] == rest;
    assert s[0] == head[0] == AMP;
    ReferenceFits(s, t);
  }

  lemma OneDigitMore(u: nat, d: nat, base: nat)
    requires (base == 10 || base == 16) && d < base
    ensures (base * u + d) / base == u && (base * u + d) % base == d
  {
    if base == 10 {
      assert (10 * u + d) / 10 == u;
    } else {
      assert (16 * u + d) / 16 == u;
    }
  }

  lemma SpellsMore(ds: seq<Byte>, u: nat, c: Byte, d: nat, base: nat)
    requires (base == 10 || base == 16) && Spells(ds, u, base) && Digit(c, d, base)
    ensures Spells(ds + [c], base * u + d, base)
  {
    OneDigitMore(u, d, base);
    SpellsSnoc(ds, c, base * u + d, u, d, base);
  }

  lemma SpellsSnoc(ds: seq<Byte>, c: Byte, v: nat, u: nat, d: nat, base: nat)
    requires 2 <= base <= 16 && Spells(ds, u, base) && Digit(c, d, base) && v / base == u && v % base == d
    ensures Spells(ds + [c], v, base)
  {
    assert (ds + [c])[..|ds|] == ds;
    hide Digit;
  }

  lemma SpellsNothing(base: nat)
    requires 2 <= base <= 16
    ensures Spells([], 0, base)
  {
  }

  // Every number has a spelling.
  lemma {:induction false} SpelledSpells(v: nat, base: nat)
    requires base == 10 || base == 16
    ensures Spells(Spelled(v, base), v, base)
  {
    hide Spells, Digit;
    var u, d := v / base, v % base;
    SmallDigit(d, base);
    Quotient(v, base);
    var c, front := LOWER[d], if v < base then [] else Spelled(u, base);
    if v < base {
      SpellsNothing(base);
    } else {
      SpelledSpells(u, base);
    }
    SpellsMore(front, u, c, d, base);
  }

  lemma SmallDigit(d: nat, base: nat)
    requires d < base <= 16
    ensures Digit(LOWER[d], d, base)
  {
  }

  lemma Quotient(v: nat, base: nat)
    requires base == 10 || base == 16
    ensures v == base * (v / base) + v % base && (v < base ==> v / base == 0) && (v >= base ==> v / base < v)
  {
    if base == 10 {
      assert v == 10 * (v / 10) + v % 10;
    } else {
      assert v == 16 * (v / 16) + v % 16;
    }
  }

  // E1 and 225 spell the same number.
  lemma HexadecimalOf225()
    ensures Spells([69, 49], 225, 16)
  {
    assert Digit(69, 14, 16) && Digit(49, 1, 16);
    hide Spells, Digit;
    SpellsNothing(16);
    SpellsMore([], 0, 69, 14, 16);
    assert [] + [69] == [69];
    SpellsMore([69], 14, 49, 1, 16);
    assert [69] + [49] == [69, 49];
  }

  lemma DecimalOf225()
    ensures Spells([50, 50, 53], 225, 10)
  {
    assert Digit(50, 2, 10) && Digit(53, 5, 10);
    hide Spells, Digit;
    SpellsNothing(10);
    SpellsMore([], 0, 50, 2, 10);
    assert [] + [50] == [50];
    SpellsMore([50], 2, 50, 2, 10);
    assert [50] + [50] == [50, 50];
    SpellsMore([50, 50], 22, 53, 5, 10);
    assert [50, 50] + [53] == [50, 50, 53];
  }

  // &#xE1; and &#225; are both the letter a with an acute accent.
  lemma AacuteExample(rest: seq<Byte>, t: Tables)
    requires t.Fit()
    ensures Unescape([38, 35, 120, 69, 49, 59] + rest, t) == [0xC3, 0xA1] + Unescape(rest, t)
    ensures Unescape([38, 35, 50, 50, 53, 59] + rest, t) == [0xC3, 0xA1] + Unescape(rest, t)
  {
    hide Spells, Unescape, Tables.Fit;
    HexadecimalOf225();
    DecimalOf225();
    assert [38, 35, 120] + [69, 49] + [59] == [38, 35, 120, 69, 49, 59];
    assert [38, 35] + [50, 50, 53] + [59] == [38, 35, 50, 50, 53, 59];
    SpelledDecodes([38, 35, 120], [69, 49], rest, 225, 16, t);
    SpelledDecodes([38, 35], [50, 50, 53], rest, 225, 10, t);
  }

  // ----- Named references -----

  predicate IsLetterOrDigit(c: Byte) {
    'a' as int <= c <= 'z' as int || 'A' as int <= c <= 'Z' as int || '0' as int <= c <= '9' as int
  }

  predicate IsName(name: seq<Byte>) {
    name != [] && forall k :: 0 <= k < |name| ==> IsLetterOrDigit(name[k])
  }

  // The name as it may stand in a text, with a semicolon or without.
  function Written(name: seq<Byte>, semicolon: bool): seq<Byte> {
    if semicolon then name + [';' as int] else name
  }

  // With a semicolon anything may follow; without, no letter, digit or semicolon.
  predicate NameEnds(rest: seq<Byte>, semicolon: bool) {
    !semicolon && rest != [] ==> !IsLetterOrDigit(rest[0]) && rest[0] != ';' as int
  }

  lemma ClassOfNames(c: Byte)
    ensures InClass(c, Alphanumeric) <==> IsLetterOrDigit(c)
  {
  }

  // The name that the code looks up first: letters and digits and one semicolon, if any.
  lemma NameRead(name: seq<Byte>, rest: seq<Byte>, semicolon: bool)
    requires IsName(name) && NameEnds(rest, semicolon)
    ensures var s := [AMP] + Written(name, semicolon) + rest;
            var i := AfterSemicolon(s, RunEnd(s, 1, Alphanumeric));
            |s| >= 2 && s[0] == AMP && s[1] != HASH && i <= |s| && s[1..i] == Written(name, semicolon)
  {
    var s := [AMP] + Written(name, semicolon) + rest;
    var j := 1 + |name|;
    assert forall k :: 1 <= k < j ==> s[k] == name[k - 1];
    forall k | 1 <= k < j
      ensures InClass(s[k], Alphanumeric)
    {
      ClassOfNames(s[k]);
    }
    if j < |s| {
      ClassOfNames(s[j]);
    }
    assert IsLetterOrDigit(s[1]);
    RunEndIs(s, 1, j, Alphanumeric);
  }

  // A name in the table is replaced by its character, with its semicolon or, where
  // nothing goes on, without one.
  lemma KnownName(name: seq<Byte>, rest: seq<Byte>, semicolon: bool, t: Tables)
    requires IsName(name) && NameEnds(rest, semicolon) && t.One(Written(name, semicolon)) != 0
    ensures var full := Written(name, semicolon);
            Reference([AMP] + full + rest, t) == (EncodeRune(t.One(full)), 1 + |full|)
  {
    NameRead(name, rest, semicolon);
    hide RunEnd, EncodeRune, Tables.One, Tables.Two, Written, KnownPrefix;
  }

  // Names of more than six bytes are in the table with their semicolon only.
  ghost predicate ShortWithoutSemicolon(t: Tables) {
    forall name :: name in t.one && |name| > 6 ==> name[|name| - 1] == SEMICOLON
  }

  // The longest proper beginning of at least two bytes that the table knows.
  ghost predicate LongestKnown(full: seq<Byte>, t: Tables, k: nat) {
    && 2 <= k < |full| && t.One(full[..k]) != 0
    && forall m :: k < m < |full| ==> t.One(full[..m]) == 0
  }

  lemma KnownPrefixIs(full: seq<Byte>, t: Tables, j: nat, k: nat)
    requires LongestKnown(full, t, k) && k <= j < |full|
    ensures KnownPrefix(full, t, j) == k
  {
    hide Tables.One;
  }

  lemma ShortBeginning(name: seq<Byte>, semicolon: bool, t: Tables, k: nat)
    requires IsName(name) && ShortWithoutSemicolon(t) && LongestKnown(Written(name, semicolon), t, k)
    ensures k <= LONGEST_WITHOUT_SEMICOLON
  {
    var full := Written(name, semicolon);
    assert full[..k] in t.one && full[..k][k - 1] == name[k - 1];
  }

  // A name that is in neither table gives way to its longest beginning that is: the bound
  // on how far the code looks costs nothing.
  lemma KnownBeginning(name: seq<Byte>, rest: seq<Byte>, semicolon: bool, t: Tables, k: nat)
    requires IsName(name) && NameEnds(rest, semicolon) && ShortWithoutSemicolon(t)
    requires t.One(Written(name, semicolon)) == 0 && t.Two(Written(name, semicolon)).0 == 0
    requires LongestKnown(Written(name, semicolon), t, k)
    ensures var full := Written(name, semicolon);
            Reference([AMP] + full + rest, t) == (EncodeRune(t.One(full[..k])), 1 + k)
  {
    hide Written, NameEnds, IsName, LongestKnown, ShortWithoutSemicolon, RunEnd, NamedRef, EncodeRune, KnownPrefix;
    var full := Written(name, semicolon);
    NameRead(name, rest, semicolon);
    ShortBeginning(name, semicolon, t, k);
    LongestBounds(full, t, k);
    var most := if |full| - 1 > LONGEST_WITHOUT_SEMICOLON then LONGEST_WITHOUT_SEMICOLON else |full| - 1;
    KnownPrefixIs(full, t, most, k);
    UnknownName([AMP] + full + rest, full, t, k, most);
  }

  lemma LongestBounds(full: seq<Byte>, t: Tables, k: nat)
    requires LongestKnown(full, t, k)
    ensures 2 <= k < |full|
  {
  }

  lemma UnknownName(s: seq<Byte>, full: seq<Byte>, t: Tables, k: nat, most: int)
    requires |s| >= 2 && s[1..AfterSemicolon(s, RunEnd(s, 1, Alphanumeric))] == full
    requires t.One(full) == 0 && t.Two(full).0 == 0
    requires most == if |full| - 1 > LONGEST_WITHOUT_SEMICOLON then LONGEST_WITHOUT_SEMICOLON else |full| - 1
    requires 2 <= k < |full| && KnownPrefix(full, t, most) == k
    ensures NamedRef(s, t) == (EncodeRune(t.One(full[..k])), 1 + k)
  {
    hide EncodeRune, RunEnd, KnownPrefix, Tables.One, Tables.Two, AfterSemicolon;
  }

  // ----- The decoder the standard asks for, as far as numeric references go -----

  function StandardReference(s: seq<Byte>, t: Tables): (seq<Byte>, nat)
    requires s != []
  {
    if |s| >= 2 && s[1] == HASH then StandardRef(s) else Reference(s, t)
  }

  lemma StandardAdvances(s: seq<Byte>, t: Tables)
    requires s != [] && t.Fit()
    ensures 1 <= StandardReference(s, t).1 <= |s|
  {
    ReferenceFits(s, t);
  }

  ghost function StandardUnescape(s: seq<Byte>, t: Tables): seq<Byte>
    requires t.Fit()
    decreases |s|
  {
    if s == [] then []
    else if s[0] != AMP then [s[0]] + StandardUnescape(s[1..], t)
    else
      StandardAdvances(s, t);
      StandardReference(s, t).0 + StandardUnescape(s[StandardReference(s, t).1..], t)
  }

  predicate OffStandard(s: seq<Byte>) {
    |s| >= 2 && s[1] == HASH && (LoneDigit(s) || HexWithoutDigit(s) || NumberWraps(s))
  }

  // No reference met on the way through the text belongs to one of the three families.
  ghost predicate OnStandard(s: seq<Byte>, t: Tables)
    requires t.Fit()
    decreases |s|
  {
    if s == [] then true
    else if s[0] != AMP then OnStandard(s[1..], t)
    else
      ReferenceFits(s, t);
      !OffStandard(s) && OnStandard(s[Reference(s, t).1..], t)
  }

  // The first byte of an encoding tells its length, so no encoding begins another.
  lemma LengthFromLead(x: int)
    requires Scalar(x)
    ensures var r := EncodeScalar(x);
            |r| == if r[0] < 0x80 then 1 else if r[0] < 0xE0 then 2 else if r[0] < 0xF0 then 3 else 4
  {
  }

  lemma PrefixFree(x: int, y: int, a: seq<Byte>, b: seq<Byte>)
    requires Scalar(x) && Scalar(y) && EncodeScalar(x) + a == EncodeScalar(y) + b
    ensures x == y
  {
    LengthFromLead(x);
    LengthFromLead(y);
    hide EncodeScalar;
    var r, q := EncodeScalar(x), EncodeScalar(y);
    assert (r + a)[0] == r[0] && (q + b)[0] == q[0];
    assert r == (r + a)[..|r|] && q == (q + b)[..|q|];
    EncodeScalarInjective(x, y);
  }

  lemma WrappedDiffers(v: nat, a: seq<Byte>, b: seq<Byte>)
    requires WrapsToCharacter(v)
    ensures NumericText(v) + a != StandardText(v) + b
  {
    hide Replaced, EncodeScalar, Wrap32;
    var w := Wrap32(v);
    ReplacedRange(w);
    ReplacedRange(v);
    if NumericText(v) + a == StandardText(v) + b {
      PrefixFree(Replaced(w), RUNE_ERROR, a, b);
    }
  }

  lemma ZeroText()
    ensures NumericText(0) == [0xEF, 0xBF, 0xBD]
  {
    Spellings();
  }

  // A reference of one of the families is decoded differently whatever follows it.
  lemma OffStandardDiffers(s: seq<Byte>, a: seq<Byte>, b: seq<Byte>)
    requires OffStandard(s) && s[0] == AMP
    ensures NumericRef(s).0 + a != StandardRef(s).0 + b
  {
    hide NumericRef, NumericText, StandardText, WrapsToCharacter, Number;
    NumericRefByParts(s);
    assert s[..1] == [AMP];
    var j := DigitsEnd(s);
    if LoneDigit(s) {
      OneDigitText(s);
      assert ([AMP] + a)[0] == AMP && (StandardText(Number(s)) + b)[0] == StandardText(Number(s))[0];
    } else if HexWithoutDigit(s) {
      NoDigitsIsZero(s);
      ZeroText();
      assert ([AMP] + b)[0] == AMP && (NumericText(0) + a)[0] == 0xEF;
    } else {
      WrappedDiffers(Number(s), a, b);
    }
  }

  // For every text and every fitting table: the whole result is the one the standard's
  // rule for numeric references gives if and only if no reference met is in a family.
  lemma {:induction false} DecoderFollowsStandard(s: seq<Byte>, t: Tables)
    requires t.Fit()
    ensures Unescape(s, t) == StandardUnescape(s, t) <==> OnStandard(s, t)
    decreases |s|
  {
    hide Reference, StandardRef, NumericRef, OffStandard, Tables.Fit;
    if s != [] && s[0] != AMP {
      DecoderFollowsStandard(s[1..], t);
      SamePrefix([s[0]], Unescape(s[1..], t), StandardUnescape(s[1..], t));
    } else if s != [] {
      ReferenceFits(s, t);
      StandardAdvances(s, t);
      var (out, n) := Reference(s, t);
      var (out', n') := StandardReference(s, t);
      if OffStandard(s) {
        HashReference(s, t);
        OffStandardDiffers(s, Unescape(s[n..], t), StandardUnescape(s[n'..], t));
      } else {
        SameReference(s, t);
        DecoderFollowsStandard(s[n..], t);
        SamePrefix(out, Unescape(s[n..], t), StandardUnescape(s[n..], t));
      }
    }
  }

  lemma SamePrefix(p: seq<Byte>, a: seq<Byte>, b: seq<Byte>)
    ensures p + a == p + b <==> a == b
  {
    assert (p + a)[|p|..] == a && (p + b)[|p|..] == b;
  }

  lemma HashReference(s: seq<Byte>, t: Tables)
    requires OffStandard(s)
    ensures |s| >= 2 && Reference(s, t) == NumericRef(s) && StandardReference(s, t) == StandardRef(s)
  {
  }

  lemma SameReference(s: seq<Byte>, t: Tables)
    requires s != [] && s[0] == AMP && !OffStandard(s)
    ensures Reference(s, t) == StandardReference(s, t)
  {
    if |s| >= 2 && s[1] == HASH {
      NumericRefFollowsStandard(s);
    }
  }

  // ----- Escaping -----

  // The five escaped characters: ampersand, apostrophe, less, greater, quotation mark.
  function EscapeByte(c: Byte): seq<Byte> {
    if c == 38 then [38, 97, 109, 112, 59]
    else if c == 39 then [38, 35, 51, 57, 59]
    else if c == 60 then [38, 108, 116, 59]
    else if c == 62 then [38, 103, 116, 59]
    else if c == 34 then [38, 35, 51, 52, 59]
    else [c]
  }

  function Escape(s: seq<Byte>): seq<Byte> {
    if s == [] then [] else EscapeByte(s[0]) + Escape(s[1..])
  }

  // The table knows the three names the escaper uses: amp; lt; gt;
  ghost predicate KnowsEscapes(t: Tables) {
    t.One([97, 109, 112, 59]) == 38 && t.One([108, 116, 59]) == 60 && t.One([103, 116, 59]) == 62
  }

  // The four characters other than the ampersand.
  predicate Unsafe(c: Byte) {
    c == 39 || c == 60 || c == 62 || c == 34
  }

  // No escaped text holds one of the four.
  lemma {:induction false} EscapeHides(s: seq<Byte>, c: Byte)
    requires Unsafe(c)
    ensures c !in Escape(s)
  {
    if s != [] {
      EscapeHides(s[1..], c);
      assert c !in EscapeByte(s[0]);
      hide EscapeByte;
    }
  }

  // A text without the five stays as it is.
  lemma {:induction false} EscapePlain(s: seq<Byte>)
    requires AMP !in s && forall c :: c in s ==> !Unsafe(c)
    ensures Escape(s) == s
  {
    if s != [] {
      assert s == [s[0]] + s[1..];
      assert s[0] in s;
      assert EscapeByte(s[0]) == [s[0]];
      hide EscapeByte;
      EscapePlain(s[1..]);
    }
  }

  // &amp; or &#39; or &lt; or &gt; or &#34;
  ghost predicate StartsEscape(s: seq<Byte>) {
    || [38, 97, 109, 112, 59] <= s || [38, 35, 51, 57, 59] <= s || [38, 108, 116, 59] <= s
    || [38, 103, 116, 59] <= s || [38, 35, 51, 52, 59] <= s
  }

  lemma EscapeStarts(c: Byte, rest: seq<Byte>, i: nat)
    requires i < |EscapeByte(c)| && EscapeByte(c)[i] == AMP
    ensures i == 0 && StartsEscape(EscapeByte(c) + rest)
  {
  }

  // An ampersand left in an escaped text starts one of the five references.
  lemma {:induction false} EscapeAmpersands(s: seq<Byte>, i: nat)
    requires i < |Escape(s)| && Escape(s)[i] == AMP
    ensures StartsEscape(Escape(s)[i..])
  {
    hide EscapeByte, StartsEscape;
    var e, rest := EscapeByte(s[0]), Escape(s[1..]);
    if i < |e| {
      EscapeStarts(s[0], rest, i);
      assert (e + rest)[0..] == e + rest;
    } else {
      EscapeAmpersands(s[1..], i - |e|);
      assert (e + rest)[i..] == rest[i - |e|..];
    }
  }

  lemma TwoDigits(d: Byte, rest: seq<Byte>)
    requires 48 <= d <= 57
    ensures var s := [38, 35, 51, d, 59] + rest; DigitsEnd(s) == 4 && Number(s) == 30 + (d - 48)
  {
    var s := [38, 35, 51, d, 59] + rest;
    RunEndIs(s, 2, 4, Decimal);
    assert NumberIn(s, 2, 2, 10) == 0;
    assert NumberIn(s, 2, 3, 10) == 3;
    assert NumberIn(s, 2, 4, 10) == 30 + (d - 48);
  }

  lemma ThirtiesText(v: nat)
    requires 30 <= v < 40
    ensures NumericText(v) == [v]
  {
    SmallWrap(v);
    AsciiText(v);
    hide EncodeRune, Wrap32;
  }

  lemma SmallWrap(v: nat)
    requires v < 0x8000_0000
    ensures Wrap32(v) == v
  {
  }

  lemma AsciiText(v: nat)
    requires v < 0x80
    ensures EncodeRune(v) == [v]
  {
  }

  lemma NumericEscape(d: Byte, rest: seq<Byte>, t: Tables)
    requires 48 <= d <= 57
    ensures Reference([38, 35, 51, d, 59] + rest, t) == ([30 + (d - 48)], 5)
  {
    var s := [38, 35, 51, d, 59] + rest;
    TwoDigits(d, rest);
    NumericRefByParts(s);
    ThirtiesText(Number(s));
    hide DigitsEnd, Number, NumericRef, NumericText;
  }

  lemma ReferenceOfEscape(c: Byte, rest: seq<Byte>, t: Tables)
    requires KnowsEscapes(t) && EscapeByte(c)[0] == AMP
    ensures Reference(EscapeByte(c) + rest, t) == ([c], |EscapeByte(c)|)
  {
    hide Reference;
    if c == 38 {
      assert Written([97, 109, 112], true) == [97, 109, 112, 59];
      KnownName([97, 109, 112], rest, true, t);
      assert [AMP] + [97, 109, 112, 59] == EscapeByte(c);
    } else if c == 60 {
      assert Written([108, 116], true) == [108, 116, 59];
      KnownName([108, 116], rest, true, t);
      assert [AMP] + [108, 116, 59] == EscapeByte(c);
    } else if c == 62 {
      assert Written([103, 116], true) == [103, 116, 59];
      KnownName([103, 116], rest, true, t);
      assert [AMP] + [103, 116, 59] == EscapeByte(c);
    } else if c == 39 {
      NumericEscape(57, rest, t);
    } else {
      NumericEscape(52, rest, t);
    }
  }

  // Decoding undoes escaping, for every text.
  lemma {:induction false} UnescapeEscape(s: seq<Byte>, t: Tables)
    requires t.Fit() && KnowsEscapes(t)
    ensures Unescape(Escape(s), t) == s
  {
    if s != [] {
      hide Reference, Tables.Fit, KnowsEscapes;
      var e, rest := EscapeByte(s[0]), Escape(s[1..]);
      UnescapeEscape(s[1..], t);
      assert Escape(s) == e + rest;
      assert (e + rest)[|e|..] == rest;
      if e[0] == AMP {
        ReferenceOfEscape(s[0], rest, t);
      }
      assert Unescape(e + rest, t) == [s[0]] + Unescape(rest, t);
    }
  }
}
