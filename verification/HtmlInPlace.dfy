// The library's decoder: it reads references from the same buffer it writes the decoded
// text to, the write cursor always at or behind the read cursor.

module HtmlInPlace {
  import opened Bytes
  import opened Html

  // ----- Writing into the buffer -----

  // From b0 to b1: out was written at dst; everything from keep on is untouched.
  ghost predicate Wrote(b0: seq<Byte>, b1: seq<Byte>, dst: nat, out: seq<Byte>, keep: nat) {
    && dst + |out| <= keep <= |b0| == |b1|
    && b1[..dst + |out|] == b0[..dst] + out
    && b1[keep..] == b0[keep..]
  }

  method Put(b: array<Byte>, dst: nat, out: seq<Byte>, ghost keep: nat)
    requires dst + |out| <= keep <= b.Length
    modifies b
    ensures Wrote(old(b[..]), b[..], dst, out, keep)
  {
    forall k | 0 <= k < |out| {
      b[dst + k] := out[k];
    }
  }

  method PutTwo(b: array<Byte>, dst: nat, out1: seq<Byte>, out2: seq<Byte>, ghost keep: nat)
    requires dst + |out1| + |out2| <= keep <= b.Length
    modifies b
    ensures Wrote(old(b[..]), b[..], dst, out1 + out2, keep)
  {
    Put(b, dst, out1, keep);
    Put(b, dst + |out1|, out2, keep);
  }

  // copy(b[dst:dst+n], b[src:src+n]) with dst at or below src.
  method MoveDown(b: array<Byte>, dst: nat, src: nat, n: nat)
    requires dst <= src && src + n <= b.Length
    modifies b
    ensures Wrote(old(b[..]), b[..], dst, old(b[src..])[..n], src + n)
  {
    ghost var s := b[src..];
    forall k | 0 <= k < n {
      b[dst + k] := b[src + k];
    }
    assert b[dst..dst + n] == s[..n];
  }

  // ----- Reading a reference -----

  // The digit loop of a numeric reference.
  method ReadNumber(b: array<Byte>, src: nat, from: nat, hex: bool) returns (x: int, i: nat)
    requires src + from <= b.Length
    ensures var s := b[src..];
            var j := RunEnd(s, from, if hex then Hexadecimal else Decimal);
            && i == AfterSemicolon(s, j)
            && x == Wrap32(NumberIn(s, from, j, if hex then 16 else 10))
  {
    hide Wrap32;
    ghost var s := b[src..];
    var k := if hex then Hexadecimal else Decimal;
    var base := if hex then 16 else 10;
    WrapZero();
    x, i := 0, from;
    while i < b.Length - src
      invariant from <= i <= |s|
      invariant forall m :: from <= m < i ==> InClass(s[m], k)
      invariant x == Wrap32(NumberIn(s, from, i, base))
    {
      var c := b[src + i];
      assert c == s[i];
      if InClass(c, k) {
        WrapStep(NumberIn(s, from, i, base), base, DigitValue(c));
        x := Wrap32(base * x + DigitValue(c));
        i := i + 1;
        continue;
      }
      RunEndIs(s, from, i, k);
      if c == SEMICOLON {
        i := i + 1;
      }
      return;
    }
    RunEndIs(s, from, i, k);
  }

  lemma WrapZero()
    ensures Wrap32(0) == 0
  {
  }

  // The loop over the letters and digits of a name.
  method ReadName(b: array<Byte>, src: nat) returns (i: nat)
    requires src + 1 <= b.Length
    ensures i == AfterSemicolon(b[src..], RunEnd(b[src..], 1, Alphanumeric))
  {
    ghost var s := b[src..];
    i := 1;
    while i < b.Length - src
      invariant 1 <= i <= |s|
      invariant forall m :: 1 <= m < i ==> InClass(s[m], Alphanumeric)
    {
      var c := b[src + i];
      assert c == s[i];
      if InClass(c, Alphanumeric) {
        i := i + 1;
        continue;
      }
      RunEndIs(s, 1, i, Alphanumeric);
      if c == SEMICOLON {
        i := i + 1;
      }
      return;
    }
    RunEndIs(s, 1, i, Alphanumeric);
  }

  // The search for the longest known prefix, from long to short.
  method FindPrefix(name: seq<Byte>, t: Tables) returns (k: nat)
    requires name != []
    ensures var most := if |name| - 1 > LONGEST_WITHOUT_SEMICOLON then LONGEST_WITHOUT_SEMICOLON else |name| - 1;
            k == KnownPrefix(name, t, most)
    ensures k < |name|
  {
    var maxLen := |name| - 1;
    if maxLen > LONGEST_WITHOUT_SEMICOLON {
      maxLen := LONGEST_WITHOUT_SEMICOLON;
    }
    var j := maxLen;
    while j > 1
      invariant 0 <= j <= maxLen
      invariant KnownPrefix(name, t, maxLen) == KnownPrefix(name, t, j)
    {
      if t.One(name[..j]) != 0 {
        return j;
      }
      j := j - 1;
    }
    return 0;
  }

  // ----- One reference, decoded in place -----

  method UnescapeNumber(b: array<Byte>, dst: nat, src: nat) returns (dst1: nat, src1: nat)
    requires dst <= src && src + 2 <= b.Length
    modifies b
    ensures var (out, n) := NumericRef(old(b[src..]));
            dst1 == dst + |out| && src1 == src + n && Wrote(old(b[..]), b[..], dst, out, src1)
  {
    ghost var s := b[src..];
    if b.Length - src <= 3 {
      MoveDown(b, dst, src, 1);
      return dst + 1, src + 1;
    }
    var c := b[src + 2];
    assert c == s[2];
    var hex := c == 120 || c == 88;
    var x, i := ReadNumber(b, src, if hex then 3 else 2, hex);
    if i <= 3 {
      MoveDown(b, dst, src, 1);
      return dst + 1, src + 1;
    }
    var rune := Replaced(x);
    Put(b, dst, EncodeRune(rune), src + i);
    return dst + |EncodeRune(rune)|, src + i;
  }

  // What the tables say about the name, and how many bytes it takes up.
  datatype Found = Literal(n: nat) | OneRune(n: nat, x: int) | TwoRunes(n: nat, x: int, y: int)

  ghost predicate Finds(s: seq<Byte>, t: Tables, f: Found)
    requires |s| >= 2
  {
    && f.n <= |s|
    && NamedRef(s, t) == (match f
                          case Literal(n) => (s[..n], n)
                          case OneRune(n, x) => (EncodeRune(x), n)
                          case TwoRunes(n, x, y) => (EncodeRune(x) + EncodeRune(y), n))
  }

  method LookUp(b: array<Byte>, src: nat, t: Tables) returns (f: Found)
    requires src + 2 <= b.Length
    ensures Finds(b[src..], t, f)
  {
    hide RunEnd, EncodeRune, KnownPrefix;
    var i := ReadName(b, src);
    var entityName := b[src + 1..src + i];
    assert entityName == b[src..][1..i];
    if |entityName| > 0 {
      var x := t.One(entityName);
      if x != 0 {
        return OneRune(i, x);
      }
      var xx := t.Two(entityName);
      if xx.0 != 0 {
        return TwoRunes(i, xx.0, xx.1);
      }
      var k := FindPrefix(entityName, t);
      if k > 0 {
        return OneRune(k + 1, t.One(entityName[..k]));
      }
    }
    return Literal(i);
  }

  method UnescapeName(b: array<Byte>, dst: nat, src: nat, t: Tables) returns (dst1: nat, src1: nat)
    requires dst <= src && src + 2 <= b.Length && t.Fit()
    modifies b
    ensures var (out, n) := NamedRef(old(b[src..]), t);
            dst1 == dst + |out| && src1 == src + n && Wrote(old(b[..]), b[..], dst, out, src1)
  {
    hide NamedRef, EncodeRune, Wrote;
    NamedFits(b[src..], t);
    var f := LookUp(b, src, t);
    match f {
      case Literal(n) =>
        MoveDown(b, dst, src, n);
        return dst + n, src + n;
      case OneRune(n, x) =>
        Put(b, dst, EncodeRune(x), src + n);
        return dst + |EncodeRune(x)|, src + n;
      case TwoRunes(n, x, y) =>
        PutTwo(b, dst, EncodeRune(x), EncodeRune(y), src + n);
        return dst + |EncodeRune(x)| + |EncodeRune(y)|, src + n;
    }
  }

  lemma NamedFits(s: seq<Byte>, t: Tables)
    requires |s| >= 2 && t.Fit()
    ensures |NamedRef(s, t).0| <= NamedRef(s, t).1 <= |s|
  {
  }

  method UnescapeEntity(b: array<Byte>, dst: nat, src: nat, t: Tables) returns (dst1: nat, src1: nat)
    requires dst <= src < b.Length && b[src] == AMP && t.Fit()
    modifies b
    ensures var (out, n) := Reference(old(b[src..]), t);
            dst1 == dst + |out| && src1 == src + n && Wrote(old(b[..]), b[..], dst, out, src1)
  {
    hide Wrote, NumericRef, NamedRef;
    ghost var s := b[src..];
    if b.Length - src <= 1 {
      MoveDown(b, dst, src, 1);
      return dst + 1, src + 1;
    }
    assert b[src + 1] == s[1];
    if b[src + 1] == HASH {
      dst1, src1 := UnescapeNumber(b, dst, src);
    } else {
      dst1, src1 := UnescapeName(b, dst, src, t);
    }
  }

  // ----- The whole text -----

  method IndexAmp(s: seq<Byte>, from: nat) returns (i: int)
    requires from <= |s|
    ensures i < 0 ==> AMP !in s[from..]
    ensures i >= 0 ==> from + i < |s| && s[from + i] == AMP && AMP !in s[from..from + i]
  {
    i := 0;
    while from + i < |s|
      invariant 0 <= i && from + i <= |s|
      invariant forall k :: from <= k < from + i ==> s[k] != AMP
    {
      if s[from + i] == AMP {
        return;
      }
      i := i + 1;
    }
    return -1;
  }

  lemma {:induction false} UnescapePlain(plain: seq<Byte>, rest: seq<Byte>, t: Tables)
    requires t.Fit() && AMP !in plain
    ensures Unescape(plain + rest, t) == plain + Unescape(rest, t)
  {
    if plain == [] {
      assert plain + rest == rest;
    } else {
      var tail := plain[1..] + rest;
      assert (plain + rest)[1..] == tail;
      assert plain[0] in plain;
      forall x | x in plain[1..]
        ensures x in plain
      {
      }
      UnescapePlain(plain[1..], rest, t);
      assert [plain[0]] + (plain[1..] + Unescape(rest, t)) == plain + Unescape(rest, t);
    }
  }

  // Decoding reached src with the text before dst written; the rest of the buffer is
  // still the rest of the original text.
  ghost predicate Decoded(b: seq<Byte>, s: seq<Byte>, t: Tables, dst: nat, src: nat)
    requires t.Fit()
  {
    && dst <= src <= |s| == |b|
    && b[src..] == s[src..]
    && b[..dst] + Unescape(s[src..], t) == Unescape(s, t)
  }

  lemma TailOf(b: seq<Byte>, s: seq<Byte>, src: nat, n: nat)
    requires src + n <= |s| == |b| && b[src..] == s[src..]
    ensures b[src + n..] == s[src + n..] && s[src..] == s[src..src + n] + s[src + n..] && s[src..][n..] == s[src + n..]
  {
    assert b[src + n..] == b[src..][n..];
  }

  lemma DecodedPlain(b: seq<Byte>, s: seq<Byte>, t: Tables, dst: nat, src: nat, n: nat, b': seq<Byte>)
    requires t.Fit() && Decoded(b, s, t, dst, src) && src + n <= |s| && |b'| == |b|
    requires AMP !in s[src..src + n]
    requires b'[..dst + n] == b[..dst] + s[src..src + n] && b'[src + n..] == b[src + n..]
    ensures Decoded(b', s, t, dst + n, src + n)
  {
    hide Unescape, Tables.Fit;
    TailOf(b, s, src, n);
    UnescapePlain(s[src..src + n], s[src + n..], t);
    Regroup(b[..dst], s[src..src + n], Unescape(s[src + n..], t));
  }

  lemma UnescapeReference(s: seq<Byte>, t: Tables)
    requires t.Fit() && s != [] && s[0] == AMP
    ensures var (out, n) := Reference(s, t);
            n <= |s| && Unescape(s, t) == out + Unescape(s[n..], t)
  {
    ReferenceFits(s, t);
  }

  lemma DecodedReference(b: seq<Byte>, s: seq<Byte>, t: Tables, dst: nat, src: nat, b': seq<Byte>)
    requires t.Fit() && Decoded(b, s, t, dst, src) && src < |s| && s[src] == AMP && |b'| == |b|
    requires var (out, n) := Reference(s[src..], t);
             && src + n <= |s| && dst + |out| <= src + n
             && b'[..dst + |out|] == b[..dst] + out && b'[src + n..] == b[src + n..]
    ensures var (out, n) := Reference(s[src..], t); Decoded(b', s, t, dst + |out|, src + n)
  {
    hide Unescape, Reference, Tables.Fit;
    var (out, n) := Reference(s[src..], t);
    UnescapeReference(s[src..], t);
    TailOf(b, s, src, n);
    Regroup(b[..dst], out, Unescape(s[src + n..], t));
  }

  // The in-place decoder computes what the decoder reading the original text computes.
  method UnescapeString(s: seq<Byte>, t: Tables) returns (r: seq<Byte>)
    requires t.Fit()
    ensures r == Unescape(s, t)
    ensures |r| <= |s|
  {
    hide Decoded, Unescape, Reference, Tables.Fit;
    var i := IndexAmp(s, 0);
    if i < 0 {
      NoReference(s, t);
      return s;
    }
    var b := new Byte[|s|](k requires 0 <= k < |s| => s[k]);
    assert b[..] == s;
    DecodedNothing(s, t);
    DecodedPlain(s, s, t, 0, 0, i, s);
    var dst: nat, src: nat := Step(b, s, t, i, i);
    while src < |s|
      invariant b.Length == |s| && src <= |s|
      invariant Decoded(b[..], s, t, dst, src)
      decreases |s| - src
    {
      dst, src := Advance(b, s, t, dst, src);
    }
    DecodedAll(b[..], s, t, dst);
    return b[..dst];
  }

  // The body of the loop: plain text up to the next reference, then the reference.
  method Advance(b: array<Byte>, s: seq<Byte>, t: Tables, dst: nat, src: nat) returns (dst1: nat, src1: nat)
    requires t.Fit() && b.Length == |s| && Decoded(b[..], s, t, dst, src) && src < |s|
    modifies b
    ensures src < src1 <= |s| && Decoded(b[..], s, t, dst1, src1)
  {
    hide Decoded, Unescape, Reference, Tables.Fit;
    var i := 0;
    if s[src] != AMP {
      i := IndexAmp(s, src);
    }
    DecodedMeans(b[..], s, t, dst, src);
    ghost var b0 := b[..];
    if i < 0 {
      var n := |s| - src;
      assert s[src..src + n] == s[src..];
      CopyFrom(b, dst, s, src, n);
      DecodedPlain(b0, s, t, dst, src, n, b[..]);
      return dst + n, |s|;
    }
    if i > 0 {
      CopyFrom(b, dst, s, src, i);
    }
    DecodedPlain(b0, s, t, dst, src, i, b[..]);
    dst1, src1 := Step(b, s, t, dst + i, src + i);
  }

  // copy(b[dst:], s[src:src+n]).
  method CopyFrom(b: array<Byte>, dst: nat, s: seq<Byte>, src: nat, n: nat)
    requires dst <= src && src + n <= |s| == b.Length
    modifies b
    ensures b[..dst + n] == old(b[..dst]) + s[src..src + n]
    ensures b[src + n..] == old(b[src + n..])
  {
    forall k | 0 <= k < n {
      b[dst + k] := s[src + k];
    }
  }

  // One call of the entity decoder, seen from the original text.
  method Step(b: array<Byte>, s: seq<Byte>, t: Tables, dst: nat, src: nat) returns (dst1: nat, src1: nat)
    requires t.Fit() && b.Length == |s| && Decoded(b[..], s, t, dst, src) && src < |s| && s[src] == AMP
    modifies b
    ensures src < src1 <= |s| && Decoded(b[..], s, t, dst1, src1)
  {
    hide Unescape, Reference;
    ghost var b0 := b[..];
    assert b[src..] == s[src..];
    assert b[src] == s[src..][0] == AMP;
    ReferenceFits(s[src..], t);
    dst1, src1 := UnescapeEntity(b, dst, src, t);
    DecodedReference(b0, s, t, dst, src, b[..]);
  }

  lemma DecodedMeans(b: seq<Byte>, s: seq<Byte>, t: Tables, dst: nat, src: nat)
    requires t.Fit() && Decoded(b, s, t, dst, src)
    ensures dst <= src <= |s| == |b|
  {
  }

  lemma DecodedNothing(s: seq<Byte>, t: Tables)
    requires t.Fit()
    ensures Decoded(s, s, t, 0, 0)
  {
  }

  lemma DecodedAll(b: seq<Byte>, s: seq<Byte>, t: Tables, dst: nat)
    requires t.Fit() && Decoded(b, s, t, dst, |s|)
    ensures dst <= |s| == |b| && b[..dst] == Unescape(s, t)
  {
  }

  lemma NoReference(s: seq<Byte>, t: Tables)
    requires t.Fit() && AMP !in s
    ensures Unescape(s, t) == s
  {
    UnescapePlain(s, [], t);
    assert s + [] == s;
  }

  // Escaping and decoding in place gives the text back.
  method EscapeThenUnescape(s: seq<Byte>, t: Tables) returns (r: seq<Byte>)
    requires t.Fit() && KnowsEscapes(t)
    ensures r == s
  {
    UnescapeEscape(s, t);
    r := UnescapeString(Escape(s), t);
  }
}
