/**
 * What solomon-core/src/bcd.rs packs of a text: digits as a number, blanks around them ignored, and
 * one left-over character dropped; characters given by their code points.
 */
module Iso8583Text {
  import opened Congruence
  import opened Basics
  import opened Iso8583
  import opened Iso8583Layout

  // ----- digits

  lemma {:induction false} DecimalConcat(a: Bytes, b: Bytes)
    ensures DecimalValue(a + b) == DecimalValue(a) * Pow(10, |b|) + DecimalValue(b)
    decreases |b|
  {
    hide LastDigit;
    if b == [] {
      assert a + b == a;
    } else {
      var front := b[..|b| - 1];
      DecimalConcat(a, front);
      assert (a + b)[..|a + b| - 1] == a + front;
      Carry(10, DecimalValue(a), Pow(10, |front|), DecimalValue(front));
    }
  }

  lemma {:induction false} PairConcat(a: Bytes, b: Bytes)
    ensures PairValue(a + b) == PairValue(a) * Pow(100, |b|) + PairValue(b)
    decreases |b|
  {
    hide LastPair;
    if b == [] {
      assert a + b == a;
    } else {
      var front := b[..|b| - 1];
      PairConcat(a, front);
      assert (a + b)[..|a + b| - 1] == a + front;
      Carry(100, PairValue(a), Pow(100, |front|), PairValue(front));
    }
  }

  lemma Carry(base: int, v: int, p: int, r: int)
    ensures base * (v * p + r) == v * (base * p) + base * r
  {
    assert base * (v * p) == v * (base * p);
  }

  /** p packs the digits d: two to a byte, the same number. */
  ghost predicate Packs(p: Option<Bytes>, d: Bytes)
  {
    p.Some? && |p.value| == (|d| + 1) / 2 && Pairs(p.value) && PairValue(p.value) == DecimalValue(d)
  }

  lemma {:induction false} PairsPacked(d: Bytes)
    requires Decimals(d) && |d| % 2 == 0
    ensures Packs(PackPairs(d), d)
    decreases |d|
  {
    hide BcdDigits, DecimalValue, PairValue;
    if d == [] {
      NothingPacked();
    } else {
      var rest := d[2..];
      PairsPacked(rest);
      TypeByte(d[0], d[1]);
      FrontPacked([BcdDigits(d[0], d[1])], d[..2], PackPairs(rest).value, rest);
      Pair1([BcdDigits(d[0], d[1])]);
      Decimal2(d[..2]);
      assert d == d[..2] + rest;
    }
  }

  lemma NothingPacked()
    ensures DecimalValue([]) == 0 && PairValue([]) == 0
  {}

  /** Values that agree in front and behind agree. */
  lemma FrontPacked(x: Bytes, c: Bytes, p: Bytes, rest: Bytes)
    requires 2 * |p| == |rest| && PairValue(p) == DecimalValue(rest)
    ensures PairValue(x) == DecimalValue(c) ==> PairValue(x + p) == DecimalValue(c + rest)
  {
    hide DecimalValue, PairValue;
    PairConcat(x, p);
    DecimalConcat(c, rest);
    PowMul(10, 2, |p|);
    assert Pow(10, 2) == 100;
  }

  lemma DigitsPacked(d: Bytes)
    requires Decimals(d)
    ensures Packs(PackDigits(d), d)
  {
    hide PackPairs, DecimalValue, PairValue;
    if |d| % 2 == 0 {
      PairsPacked(d);
    } else {
      var rest := d[1..];
      PairsPacked(rest);
      FrontPacked(FirstDigit(d[0]), d[..1], PackPairs(rest).value, rest);
      OneDigit(d[..1]);
      assert d == d[..1] + rest;
    }
  }

  lemma OneDigit(c: Bytes)
    requires |c| == 1 && Decimals(c)
    ensures PairValue(FirstDigit(c[0])) == DecimalValue(c)
  {
    Pair1(FirstDigit(c[0]));
    assert c[..0] == [] && DecimalValue(c) == 10 * DecimalValue([]) + LastDigit(c[0]);
  }

  // ----- characters

  /** The bytes of a code point. */
  ghost function Utf8(c: nat): Bytes
    requires c < 0x11_0000
  {
    if c < 0x80 then [c]
    else if c < 0x800 then [0xC0 + c / 0x40, 0x80 + c % 0x40]
    else if c < 0x1_0000 then [0xE0 + c / 0x1000, 0x80 + c / 0x40 % 0x40, 0x80 + c % 0x40]
    else [0xF0 + c / 0x4_0000, 0x80 + c / 0x1000 % 0x40, 0x80 + c / 0x40 % 0x40, 0x80 + c % 0x40]
  }

  /** The code points with the property White_Space. */
  ghost predicate WhiteSpace(c: nat)
  {
    || 9 <= c <= 13 || 0x2000 <= c <= 0x200A
    || c in {0x20, 0x85, 0xA0, 0x1680, 0x2028, 0x2029, 0x202F, 0x205F, 0x3000}
  }

  /** The characters trimmed are the white-space characters. */
  lemma BlankIsWhiteSpace(c: nat)
    requires c < 0x11_0000
    ensures IsBlank(Utf8(c)) <==> WhiteSpace(c)
  {}

  /** The character that can be left over is one of two or of four bytes. */
  lemma LoneIsWide(c: nat)
    requires c < 0x11_0000
    ensures LoneChar(Utf8(c)) <==> 0x80 <= c < 0x800 || 0x1_0000 <= c
  {}

  // ----- what surrounds the digits

  ghost predicate AllBlank(xs: seq<Bytes>) { forall i | 0 <= i < |xs| :: IsBlank(xs[i]) }

  ghost function Text(xs: seq<Bytes>): Bytes
  {
    if xs == [] then [] else Text(xs[..|xs| - 1]) + xs[|xs| - 1]
  }

  lemma TrimFirst(x: Bytes, rest: Bytes)
    requires IsBlank(x)
    ensures TrimStart(x + rest) == TrimStart(rest)
  {
    hide IsBlank, BlankFront;
    FrontIs(x, rest);
    assert (x + rest)[|x|..] == rest;
  }

  lemma FrontIs(x: Bytes, rest: Bytes)
    requires IsBlank(x)
    ensures BlankFront(x + rest) == |x| > 0
  {
    hide IsBlank;
    BlankShape(x);
    var b := x + rest;
    assert b[..|x|] == x;
    if |x| >= 2 {
      NoShorter(x, 1);
      assert b[..1] == x[..1];
    }
    if |x| == 3 {
      NoShorter(x, 2);
      assert b[..2] == x[..2];
    }
  }

  /** No blank starts with another. */
  lemma NoShorter(x: Bytes, k: nat)
    requires IsBlank(x) && 1 <= k < |x|
    ensures !IsBlank(x[..k])
  {}

  lemma {:induction false} TrimFront(xs: seq<Bytes>, d: Bytes)
    requires AllBlank(xs)
    ensures TrimStart(Text(xs) + d) == TrimStart(d)
    decreases |xs|
  {
    hide IsBlank, TrimStart;
    if xs == [] {
      assert Text(xs) + d == d;
    } else {
      var front, x := xs[..|xs| - 1], xs[|xs| - 1];
      TrimFront(front, x + d);
      TrimFirst(x, d);
      assert Text(front) + (x + d) == Text(xs) + d;
    }
  }

  lemma BlankShape(x: Bytes)
    requires IsBlank(x)
    ensures 1 <= |x| <= 3 && forall i | 1 <= i < |x| :: Trail(x[i])
  {}

  lemma TrimLast(rest: Bytes, x: Bytes)
    requires IsBlank(x)
    ensures TrimEnd(rest + x) == TrimEnd(rest)
  {
    hide IsBlank, BlankBack;
    BackIs(rest, x);
    var b := rest + x;
    assert b[..|b| - |x|] == rest;
  }

  lemma BackIs(rest: Bytes, x: Bytes)
    requires IsBlank(x)
    ensures BlankBack(rest + x) == |x| > 0
  {
    hide IsBlank, LoneEnd, Ending;
    BlankShape(x);
    var b := rest + x;
    EndingIs(rest, x);
    if |x| >= 2 { NoEnd(b, 1); }
    if |x| == 3 { NoEnd(b, 2); }
  }

  lemma {:induction false} TrimBack(d: Bytes, xs: seq<Bytes>)
    requires AllBlank(xs)
    ensures TrimEnd(d + Text(xs)) == TrimEnd(d)
    decreases |xs|
  {
    hide IsBlank, TrimEnd;
    if xs == [] {
      assert d + Text(xs) == d;
    } else {
      var front, x := xs[..|xs| - 1], xs[|xs| - 1];
      TrimBack(d, front);
      TrimLast(d + Text(front), x);
      assert (d + Text(front)) + x == d + Text(xs);
    }
  }

  lemma EndingIs(rest: Bytes, x: Bytes)
    ensures Ending(rest + x, |x|) == x
  {}

  /** Neither a digit nor a trailing byte starts a blank or a wide character. */
  lemma NoStart(x: Bytes)
    requires x != [] && (48 <= x[0] <= 57 || Trail(x[0]))
    ensures !IsBlank(x) && !LoneChar(x)
  {}

  lemma NoFront(b: Bytes)
    requires b != [] && 48 <= b[0] <= 57
    ensures BlankFront(b) == 0
  {
    hide IsBlank, TrimStart;
    NoStart(b[..1]);
    if |b| >= 2 { NoStart(b[..2]); }
    if |b| >= 3 { NoStart(b[..3]); }
  }

  lemma StartStays(b: Bytes)
    requires b != [] && 48 <= b[0] <= 57
    ensures TrimStart(b) == b
  {
    hide BlankFront;
    NoFront(b);
  }

  /** The last k bytes are a blank, or a wide character. */
  ghost predicate BlankEnd(b: Bytes, k: nat) { k <= |b| && IsBlank(Ending(b, k)) }

  ghost predicate LoneEnd(b: Bytes, k: nat) { k <= |b| && LoneChar(Ending(b, k)) }

  lemma NoBack(b: Bytes)
    requires !BlankEnd(b, 1) && !BlankEnd(b, 2) && !BlankEnd(b, 3)
    ensures BlankBack(b) == 0
  {
    hide IsBlank, TrimEnd, Ending;
  }

  lemma NoTrim(b: Bytes)
    requires !BlankEnd(b, 1) && !BlankEnd(b, 2) && !BlankEnd(b, 3)
    ensures TrimEnd(b) == b
  {
    hide BlankEnd, BlankBack;
    NoBack(b);
  }

  lemma NoLone(b: Bytes)
    requires !LoneEnd(b, 2) && !LoneEnd(b, 4)
    ensures WithoutLone(b) == b
  {
    hide LoneChar, Ending;
  }

  lemma NoEnd(b: Bytes, k: nat)
    requires 1 <= k <= |b| && (48 <= b[|b| - k] <= 57 || Trail(b[|b| - k]))
    ensures !BlankEnd(b, k) && !LoneEnd(b, k)
  {
    hide IsBlank, LoneChar;
    NoStart(Ending(b, k));
  }

  lemma DigitEnd(d: Bytes, k: nat)
    requires Decimals(d) && k >= 1
    ensures !BlankEnd(d, k) && !LoneEnd(d, k)
  {
    hide IsBlank, LoneChar;
    if k <= |d| { NoEnd(d, k); }
  }

  lemma EndStays(d: Bytes)
    requires Decimals(d)
    ensures TrimEnd(d) == d && WithoutLone(d) == d
  {
    hide BlankEnd, LoneEnd, TrimEnd, WithoutLone, Decimals;
    DigitEnd(d, 1);
    DigitEnd(d, 2);
    DigitEnd(d, 3);
    DigitEnd(d, 4);
    NoTrim(d);
    NoLone(d);
  }

  /** Digits between blanks are packed as the number they say, two to a byte, an odd first one alone. */
  lemma PackedNumber(before: seq<Bytes>, d: Bytes, after: seq<Bytes>)
    requires AllBlank(before) && Decimals(d) && d != [] && AllBlank(after)
    ensures Packs(PackBcd(Text(before) + d + Text(after)), d)
  {
    hide TrimStart, TrimEnd, WithoutLone, PackDigits, IsBlank, Packs;
    assert Text(before) + d + Text(after) == Text(before) + (d + Text(after));
    TrimFront(before, d + Text(after));
    StartStays(d + Text(after));
    EndStays(d);
    TrimBack(d, after);
    DigitsPacked(d);
  }

  /** A character of two or four bytes behind the digits is dropped. */
  lemma LoneDropped(d: Bytes, c: nat)
    requires Decimals(d) && d != [] && (0x80 <= c < 0x800 || 0x1_0000 <= c < 0x11_0000)
    ensures Packs(PackBcd(d + Utf8(c)), d)
  {
    hide TrimStart, PackDigits, Packs, Utf8;
    var x := Utf8(c);
    LoneIsWide(c);
    StartStays(d + x);
    DigitsPacked(d);
    WideDropped(d, x);
  }

  lemma WideDropped(d: Bytes, x: Bytes)
    requires Decimals(d) && d != [] && LoneChar(x)
    ensures WithoutLone(TrimEnd(d + x)) == d
  {
    hide TrimEnd, IsBlank, BlankEnd, LoneEnd, WithoutLone;
    if IsBlank(x) {
      TrimLast(d, x);
      EndStays(d);
    } else {
      WideStays(d, x);
      LoneCut(d, x);
    }
  }

  lemma LoneCut(d: Bytes, x: Bytes)
    requires LoneChar(x)
    ensures WithoutLone(d + x) == d
  {
    hide Ending;
    var b := d + x;
    EndingIs(d, x);
    assert b[..|b| - |x|] == d;
    if |x| == 4 { NoEnd(b, 2); }
  }

  lemma WideStays(d: Bytes, x: Bytes)
    requires Decimals(d) && d != [] && LoneChar(x) && !IsBlank(x)
    ensures TrimEnd(d + x) == d + x
  {
    hide IsBlank, TrimEnd, LoneEnd, Ending;
    var b := d + x;
    EndingIs(d, x);
    NoEnd(b, 1);
    NoEnd(b, 3);
    if |x| == 4 { NoEnd(b, 2); }
    NoTrim(b);
  }
}
