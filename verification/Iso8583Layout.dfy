/**
 * The wire layout of solomon-core/src/iso8583.rs, stated from the schema of the data elements: the
 * width or the length header of every field, the bitmap as a number, and the order of the parts.
 */
module Iso8583Layout {
  import opened Congruence
  import opened Basics
  import opened Iso8583

  // ----- the schema

  /** The data elements of a fixed number of bytes. */
  ghost predicate IsFixed(n: nat, width: nat)
  {
    || (width == 2 && n in {25, 26, 39})
    || (width == 3 && (n == 19 || 22 <= n <= 24 || 49 <= n <= 51 || n == 70))
    || (width == 4 && 13 <= n <= 18)
    || (width == 6 && n in {3, 11, 12, 38})
    || (width == 8 && (n == 1 || 8 <= n <= 10 || n in {41, 52, 64, 128}))
    || (width == 9 && n == 28)
    || (width == 10 && n == 7)
    || (width == 12 && (4 <= n <= 6 || n == 37))
    || (width == 15 && n == 42)
    || (width == 16 && n == 53)
    || (width == 40 && n == 43)
    || (width == 42 && n == 90)
  }

  /** The data elements with a length of two, three or four digits in front, and their greatest length. */
  ghost predicate IsVariable(n: nat, digits: nat, max: nat)
  {
    || (digits == 2 && max == 11 && n in {32, 33, 100})
    || (digits == 2 && max == 19 && n == 2)
    || (digits == 2 && max == 25 && n == 44)
    || (digits == 2 && max == 28 && 102 <= n <= 103)
    || (digits == 2 && max == 37 && n == 35)
    || (digits == 2 && max == 76 && n == 45)
    || (digits == 3 && max == 120 && n == 54)
    || (digits == 3 && max == 255 && n == 55)
    || (digits == 3 && max == 999 && IsPrivate(n))
    || (digits == 4 && max == 9999 && n in {112, 123, 127})
  }

  /** The elements without an entry of their own, and 48 and 60 to 63. */
  ghost predicate IsPrivate(n: nat)
  {
    || n in {20, 21, 27, 34, 36, 40, 101} || 29 <= n <= 31 || 46 <= n <= 48 || 56 <= n <= 63 || 65 <= n <= 69
    || 71 <= n <= 89 || 91 <= n <= 99 || 104 <= n <= 111 || 113 <= n <= 122 || 124 <= n <= 126
  }

  /** Every data element has exactly one entry. */
  lemma SchemaComplete(n: nat)
    requires 1 <= n <= 128
    ensures (exists width :: IsFixed(n, width)) != (exists digits, max :: IsVariable(n, digits, max))
  {
    match FieldKind(n)
    case Fixed(len) => assert IsFixed(n, len);
    case Var(digits, max) => assert IsVariable(n, digits, max);
  }

  lemma KindOfFixed(n: nat, width: nat)
    requires IsFixed(n, width)
    ensures FieldKind(n) == Fixed(width)
  {}

  lemma KindOfVariable(n: nat, digits: nat, max: nat)
    requires IsVariable(n, digits, max)
    ensures FieldKind(n) == Var(digits, max) && 2 <= digits <= 4
  {}

  // ----- fixed fields

  /** A fixed field is written cut to its width, or with spaces behind. */
  lemma FixedWritten(w: Wire, n: nat, width: nat, data: Bytes)
    requires IsFixed(n, width)
    ensures |EncodeField(w, n, data)| == width
    ensures forall k | 0 <= k < width :: EncodeField(w, n, data)[k] == if k < |data| then data[k] else 32
  {
    hide FieldKind, IsFixed;
    KindOfFixed(n, width);
  }

  /** A fixed field is read if and only if its width is left, and is those bytes. */
  lemma FixedRead(w: Wire, n: nat, width: nat, buf: Bytes, offset: nat)
    requires IsFixed(n, width)
    ensures DecodeField(w, n, buf, offset)
            == if offset + width <= |buf| then Ok(Read(buf[offset..offset + width], offset + width))
               else Err(BufferTooShort)
  {
    hide FieldKind, IsFixed;
    KindOfFixed(n, width);
  }

  // ----- variable fields

  ghost predicate Decimals(b: Bytes) { forall i | 0 <= i < |b| :: 48 <= b[i] <= 57 }

  ghost predicate Pairs(b: Bytes) { forall i | 0 <= i < |b| :: b[i] / 16 <= 9 && b[i] % 16 <= 9 }

  /** Characters read as decimal digits, the highest first. */
  ghost function DecimalValue(b: Bytes): int
  {
    if b == [] then 0 else 10 * DecimalValue(b[..|b| - 1]) + LastDigit(b[|b| - 1])
  }

  ghost function LastDigit(c: int): int { c - 48 }

  /** Bytes read as two decimal digits each, the highest first. */
  ghost function PairValue(b: Bytes): int
  {
    if b == [] then 0 else 100 * PairValue(b[..|b| - 1]) + LastPair(b[|b| - 1])
  }

  ghost function LastPair(c: int): int { 10 * (c / 16) + c % 16 }

  /** h is a length header of so many digits that says len: text, or a byte for every two digits. */
  ghost predicate Says(w: Wire, digits: nat, h: Bytes, len: int)
  {
    match w
    case Ascii => |h| == digits && Decimals(h) && DecimalValue(h) == len
    case Bcd => |h| == (if digits == 2 then 1 else 2) && Pairs(h) && PairValue(h) == len
  }

  lemma Decimal2(b: Bytes)
    requires |b| == 2
    ensures DecimalValue(b) == 10 * LastDigit(b[0]) + LastDigit(b[1])
  {
    assert b[..1][..0] == [];
    assert DecimalValue(b[..1]) == 10 * DecimalValue([]) + LastDigit(b[0]);
  }

  lemma Decimal3(b: Bytes)
    requires |b| == 3
    ensures DecimalValue(b) == 100 * LastDigit(b[0]) + 10 * LastDigit(b[1]) + LastDigit(b[2])
  {
    Decimal2(b[..2]);
  }

  lemma Decimal4(b: Bytes)
    requires |b| == 4
    ensures DecimalValue(b)
            == 1000 * LastDigit(b[0]) + 100 * LastDigit(b[1]) + 10 * LastDigit(b[2]) + LastDigit(b[3])
  {
    Decimal3(b[..3]);
  }

  lemma DecimalRead(b: Bytes)
    requires 2 <= |b| <= 4 && Decimals(b)
    ensures ReadNumber(b) == Some(DecimalValue(b))
  {
    hide ReadDigits, DecimalValue, Digit;
    var d := seq(|b|, i requires 0 <= i < |b| => Value(b[i]));
    forall i | 0 <= i < |b| ensures Digit(d[i]) == b[i] && LastDigit(b[i]) == d[i] { DigitValue(b[i]); }
    if |b| == 2 {
      assert b == [Digit(d[0]), Digit(d[1])];
      ReadTwo(d[0], d[1], 0);
      Decimal2(b);
    } else if |b| == 3 {
      assert b == [Digit(d[0]), Digit(d[1]), Digit(d[2])];
      ReadThree(d[0], d[1], d[2]);
      Decimal3(b);
    } else {
      assert b == [Digit(d[0]), Digit(d[1]), Digit(d[2]), Digit(d[3])];
      ReadFour(d[0], d[1], d[2], d[3]);
      Decimal4(b);
    }
  }

  ghost function Value(c: int): (d: nat)
    ensures d < 10
  {
    if 48 <= c <= 57 then c - 48 else 0
  }

  lemma DigitValue(c: Byte)
    requires 48 <= c <= 57
    ensures Digit(Value(c)) == c && LastDigit(c) == Value(c)
  {}

  lemma Pair1(b: Bytes)
    requires |b| == 1
    ensures PairValue(b) == LastPair(b[0])
  {
    assert b[..0] == [];
  }

  lemma Pair2(b: Bytes)
    requires |b| == 2
    ensures PairValue(b) == 100 * LastPair(b[0]) + LastPair(b[1])
  {
    Pair1(b[..1]);
  }

  /** A header that says a length with at most that many digits is read as that length. */
  lemma HeaderRead(w: Wire, digits: nat, h: Bytes, len: int)
    requires 2 <= digits <= 4 && Says(w, digits, h, len) && (digits == 3 ==> len < 1000)
    ensures |h| == HeaderWidth(w, digits) && len >= 0 && UnpackLen(w, digits, h) == Ok(len)
  {
    hide ReadNumber, DecimalValue, PairValue, UnpackPair, LastPair;
    match w
    case Ascii => DecimalRead(h);
    case Bcd =>
      PairRead(h[0]);
      if digits == 2 {
        Pair1(h);
      } else {
        Pair2(h);
        PairRead(h[1]);
        if digits == 3 { LowPair(h[0]); }
      }
  }

  lemma PairRead(b: Byte)
    requires b / 16 <= 9 && b % 16 <= 9
    ensures UnpackPair(b) == Some(LastPair(b)) && LastPair(b) >= 0
  {}

  lemma LowPair(b: Byte)
    requires LastPair(b) < 10
    ensures b % 16 == b
  {}

  lemma HeaderWritten(w: Wire, digits: nat, len: nat)
    requires 2 <= digits <= 4 && Fits(digits, len)
    ensures Says(w, digits, PackLen(w, digits, len), len)
  {
    hide DecimalValue, PairValue, BcdPair;
    var h := PackLen(w, digits, len);
    match w
    case Ascii =>
      DigitsSum(len);
      if digits == 2 { Decimal2(h); } else if digits == 3 { Decimal3(h); } else { Decimal4(h); }
    case Bcd =>
      if digits == 2 {
        PairWritten(len);
        Pair1(h);
      } else {
        PairWritten(len / 100);
        PairWritten(len % 100);
        Pair2(h);
      }
  }

  lemma PairWritten(v: nat)
    requires v < 100
    ensures LastPair(BcdPair(v)) == v && BcdPair(v) / 16 <= 9 && BcdPair(v) % 16 <= 9
  {
    var tens, units := v / 10, v % 10;
    assert tens % 10 == tens;
    DivModUnique(tens * 16 + units, tens, units, 16);
  }

  /** A variable field is written as a header that says its length, cut to the greatest one, and the payload. */
  lemma VariableWritten(w: Wire, n: nat, digits: nat, max: nat, data: Bytes) returns (h: Bytes)
    requires IsVariable(n, digits, max)
    ensures var len := if |data| < max then |data| else max;
            Says(w, digits, h, len) && EncodeField(w, n, data) == h + data[..len]
  {
    hide FieldKind, PackLen, Says;
    KindOfVariable(n, digits, max);
    var len := if |data| < max then |data| else max;
    h := PackLen(w, digits, len);
    HeaderWritten(w, digits, len);
  }

  lemma DecodeAfter(w: Wire, n: nat, digits: nat, max: nat, before: Bytes, h: Bytes, after: Bytes)
    requires IsVariable(n, digits, max) && 2 <= digits <= 4 && |h| == HeaderWidth(w, digits)
    ensures DecodeField(w, n, before + h + after, |before|)
            == match UnpackLen(w, digits, h)
               case Err(e) => Err(e)
               case Ok(len) =>
                 if len > max then Err(FieldLengthExceeded)
                 else if len > |after| then Err(BufferTooShort)
                 else Ok(Read(after[..len], |before| + |h| + len))
  {
    hide FieldKind, UnpackLen, HeaderWidth, IsVariable;
    KindOfVariable(n, digits, max);
    var buf, at := before + h + after, |before| + |h|;
    assert buf[|before|..at] == h;
    var len := UnpackLen(w, digits, h);
    if len.Ok? && len.value <= |after| { assert buf[at..at + len.value] == after[..len.value]; }
  }

  /** After a header that says a length, the payload is read if and only if the length is at most the greatest one. */
  lemma VariableRead(w: Wire, n: nat, digits: nat, max: nat, before: Bytes, h: Bytes, after: Bytes, len: nat)
    requires IsVariable(n, digits, max) && Says(w, digits, h, len) && (digits == 3 ==> len < 1000)
    ensures DecodeField(w, n, before + h + after, |before|)
            == if len > max then Err(FieldLengthExceeded)
               else if len > |after| then Err(BufferTooShort)
               else Ok(Read(after[..len], |before| + |h| + len))
  {
    hide FieldKind, UnpackLen, Says, HeaderWidth, DecodeField;
    KindOfVariable(n, digits, max);
    HeaderRead(w, digits, h, len);
    DecodeAfter(w, n, digits, max, before, h, after);
  }

  /** Of a three-digit header in binary-coded form, the upper half of the first byte is not looked at. */
  lemma UpperHalfIgnored(n: nat, max: nat, before: Bytes, b: Byte, c: Byte, after: Bytes)
    requires IsVariable(n, 3, max)
    ensures DecodeField(Bcd, n, before + [b, c] + after, |before|)
            == DecodeField(Bcd, n, before + [b % 16, c] + after, |before|)
  {
    hide FieldKind, IsVariable, UnpackPair, DecodeField;
    DecodeAfter(Bcd, n, 3, max, before, [b, c], after);
    DecodeAfter(Bcd, n, 3, max, before, [b % 16, c], after);
    assert b % 16 % 16 == b % 16;
  }

  /** A binary-coded header with a half above 9 is refused. */
  lemma BadPairRefused(n: nat, digits: nat, max: nat, before: Bytes, h: Bytes, after: Bytes)
    requires IsVariable(n, digits, max) && |h| == (if digits == 2 then 1 else 2) && !Pairs(h)
    requires digits == 3 ==> h[0] / 16 == 0
    ensures DecodeField(Bcd, n, before + h + after, |before|) == Err(BcdError)
  {
    hide FieldKind, IsVariable, DecodeField;
    KindOfVariable(n, digits, max);
    DecodeAfter(Bcd, n, digits, max, before, h, after);
    BadPair(digits, h);
  }

  lemma BadPair(digits: nat, h: Bytes)
    requires 2 <= digits <= 4 && |h| == (if digits == 2 then 1 else 2) && !Pairs(h)
    requires digits == 3 ==> h[0] / 16 == 0
    ensures UnpackLen(Bcd, digits, h) == Err(BcdError)
  {
    var i :| 0 <= i < |h| && (h[i] / 16 > 9 || h[i] % 16 > 9);
    if digits == 3 { assert h[0] % 16 == h[0]; }
  }

  // ----- the bitmap as a number

  ghost function BigEndian(b: Bytes): int
  {
    if b == [] then 0 else 256 * BigEndian(b[..|b| - 1]) + Plain(b[|b| - 1])
  }

  ghost function Plain(b: int): int { b }

  /** The flag of field m: for 1, whether some field is above 64. */
  ghost predicate Flagged(fields: map<nat, Bytes>, m: nat)
  {
    if m == 1 then exists n :: n in fields && n > 64 else m in fields
  }

  ghost function FlagBit(fields: map<nat, Bytes>, m: nat): int { if Flagged(fields, m) then 1 else 0 }

  /** The first m flags as binary digits, the highest first. */
  ghost function FlagNumber(fields: map<nat, Bytes>, m: nat): int
  {
    hide FlagBit;
    if m == 0 then 0 else 2 * FlagNumber(fields, m - 1) + FlagBit(fields, m)
  }

  /** The sum of 2^(total - n) over the flagged fields n up to m. */
  ghost function FlagSum(fields: map<nat, Bytes>, m: nat, total: nat): int
    requires m <= total
  {
    if m == 0 then 0
    else FlagSum(fields, m - 1, total) + if Flagged(fields, m) then Pow(2, total - m) else 0
  }

  lemma {:induction false} FlagSumIs(fields: map<nat, Bytes>, m: nat, total: nat)
    requires m <= total
    ensures FlagNumber(fields, m) * Pow(2, total - m) == FlagSum(fields, m, total)
  {
    hide Flagged;
    if m > 0 {
      FlagSumIs(fields, m - 1, total);
      Weighted(FlagNumber(fields, m - 1), Flagged(fields, m), Pow(2, total - m));
      assert Pow(2, total - (m - 1)) == 2 * Pow(2, total - m);
    }
  }

  lemma Weighted(f: int, flag: bool, p: int)
    ensures (2 * f + if flag then 1 else 0) * p == f * (2 * p) + if flag then p else 0
  {}

  ghost function Bit(b: nat, k: nat): int { if TestBit(b, k) then 1 else 0 }

  lemma ByteBits(b: Byte)
    ensures b == 128 * Bit(b, 7) + 64 * Bit(b, 6) + 32 * Bit(b, 5) + 16 * Bit(b, 4) + 8 * Bit(b, 3) + 4 * Bit(b, 2)
                 + 2 * Bit(b, 1) + Bit(b, 0)
  {
    hide Shift;
    var v: int := b;
    LowBit(v, 0);
    LowBit(v, 1);
    LowBit(v, 2);
    LowBit(v, 3);
    LowBit(v, 4);
    LowBit(v, 5);
    LowBit(v, 6);
    LowBit(v, 7);
    ShiftZeroPlaces(v);
  }

  /** A shifted number is twice the next shift and its bit. */
  lemma {:induction false} LowBit(b: nat, k: nat)
    ensures Shift(b, k) == 2 * Shift(b, k + 1) + Bit(b, k)
    decreases k
  {
    if k > 0 { LowBit(b / 2, k - 1); }
  }

  lemma ShiftZeroPlaces(b: nat)
    requires b < 256
    ensures Shift(b, 0) == b && Shift(b, 8) == 0
  {
    assert Shift(b, 4) < 16 by { assert Shift(b, 2) < 64; }
    assert Shift(b, 8) == Shift(b / 16, 4);
  }

  /** Byte i of the bitmap holds flags 8i + 1 to 8i + 8. */
  lemma FlagByte(fields: map<nat, Bytes>, i: nat)
    requires i < 16
    ensures FlagNumber(fields, 8 * i + 8) == 256 * FlagNumber(fields, 8 * i) + Plain(BitmapOf(fields)[i])
  {
    hide BitmapOf, FlagBit, Bit, FlagNumber;
    var b := BitmapOf(fields)[i];
    ByteBits(b);
    FlagOfBit(fields, i, 1);
    FlagOfBit(fields, i, 2);
    FlagOfBit(fields, i, 3);
    FlagOfBit(fields, i, 4);
    FlagOfBit(fields, i, 5);
    FlagOfBit(fields, i, 6);
    FlagOfBit(fields, i, 7);
    FlagOfBit(fields, i, 8);
    EightFlags(fields, 8 * i);
  }

  lemma FlagOfBit(fields: map<nat, Bytes>, i: nat, j: nat)
    requires i < 16 && 1 <= j <= 8
    ensures FlagBit(fields, 8 * i + j) == Bit(BitmapOf(fields)[i], 8 - j)
  {
    hide BitmapOf, TestBit;
    var m := 8 * i + j;
    BitmapTests(fields, m);
    assert (m - 1) / 8 == i && 7 - (m - 1) % 8 == 8 - j;
  }

  lemma EightFlags(fields: map<nat, Bytes>, m: nat)
    ensures FlagNumber(fields, m + 8)
            == 256 * FlagNumber(fields, m) + 128 * FlagBit(fields, m + 1) + 64 * FlagBit(fields, m + 2)
               + 32 * FlagBit(fields, m + 3) + 16 * FlagBit(fields, m + 4) + 8 * FlagBit(fields, m + 5)
               + 4 * FlagBit(fields, m + 6) + 2 * FlagBit(fields, m + 7) + FlagBit(fields, m + 8)
  {
    hide FlagNumber, FlagBit;
    FourFlags(fields, m);
    FourFlags(fields, m + 4);
  }

  lemma FourFlags(fields: map<nat, Bytes>, m: nat)
    ensures FlagNumber(fields, m + 4)
            == 16 * FlagNumber(fields, m) + 8 * FlagBit(fields, m + 1) + 4 * FlagBit(fields, m + 2)
               + 2 * FlagBit(fields, m + 3) + FlagBit(fields, m + 4)
  {
    hide FlagBit;
    assert FlagNumber(fields, m + 2) == 2 * FlagNumber(fields, m + 1) + FlagBit(fields, m + 2);
    assert FlagNumber(fields, m + 4) == 2 * FlagNumber(fields, m + 3) + FlagBit(fields, m + 4);
  }

  lemma {:induction false} BitmapPrefix(fields: map<nat, Bytes>, k: nat)
    requires k <= 16
    ensures BigEndian(BitmapOf(fields)[..k]) == FlagNumber(fields, 8 * k)
    decreases k
  {
    hide BitmapOf, FlagNumber;
    var b := BitmapOf(fields);
    if k == 0 {
      NoFlags(fields);
    } else {
      BitmapPrefix(fields, k - 1);
      FlagByte(fields, k - 1);
      assert b[..k][..k - 1] == b[..k - 1];
    }
  }

  lemma NoFlags(fields: map<nat, Bytes>)
    ensures FlagNumber(fields, 0) == 0
  {}

  /**
   * The bitmap is a big-endian number: 2^(64 - n) for every field n up to 64 in eight bytes, or
   * 2^(128 - n) for every field in sixteen, with 2^127 when there is a field above 64.
   */
  lemma BitmapNumber(fields: map<nat, Bytes>)
    ensures BigEndian(BitmapOf(fields)[..8]) == FlagSum(fields, 64, 64)
    ensures BigEndian(BitmapOf(fields)) == FlagSum(fields, 128, 128)
    ensures |BitmapBytes(fields)| == (if Flagged(fields, 1) then 16 else 8)
    ensures BitmapBytes(fields) <= BitmapOf(fields)
  {
    hide BitmapOf, FlagNumber, FlagSum;
    BitmapPrefix(fields, 8);
    BitmapPrefix(fields, 16);
    assert BitmapOf(fields)[..16] == BitmapOf(fields);
    FlagSumIs(fields, 64, 64);
    FlagSumIs(fields, 128, 128);
  }

  // ----- the order of the parts

  /** The characters of hexadecimal text, 0 to 9 and A to F. */
  const HEX: Bytes := [48, 49, 50, 51, 52, 53, 54, 55, 56, 57, 65, 66, 67, 68, 69, 70]

  lemma HexCharacter(v: nat)
    requires v < 16
    ensures HexDigit(v) == HEX[v]
  {}

  /** Two characters for each byte, the upper half first. */
  lemma {:induction false} HexLayout(b: Bytes, i: nat)
    requires i < |b|
    ensures HexBytes(b)[2 * i] == HEX[b[i] / 16] && HexBytes(b)[2 * i + 1] == HEX[b[i] % 16]
  {
    hide HexDigit;
    HexCharacter(b[i] / 16);
    HexCharacter(b[i] % 16);
    if i > 0 { HexLayout(b[1..], i - 1); }
  }

  /** The fields follow each other in ascending order. */
  lemma {:induction false} FieldsAscend(w: Wire, fields: map<nat, Bytes>, from: nat, n: nat)
    requires 2 <= from <= n <= 128 && n in fields
    ensures EncodeFields(w, fields, from)
            == EncodeFields(w, Below(fields, n), from) + EncodeField(w, n, fields[n]) + EncodeFields(w, fields, n + 1)
    decreases n - from
  {
    hide EncodeField;
    if from == n {
      NothingFrom(w, Below(fields, n), n);
    } else {
      FieldsAscend(w, fields, from + 1, n);
    }
  }

  lemma {:induction false} NothingFrom(w: Wire, fields: map<nat, Bytes>, n: nat)
    requires 2 <= n <= 129 && forall k | k in fields :: k < n
    ensures EncodeFields(w, fields, n) == []
    decreases 129 - n
  {
    hide EncodeField;
    if n <= 128 { NothingFrom(w, fields, n + 1); }
  }

  /** Text form: the type, the bitmap in hexadecimal, the fields. */
  lemma TextLayout(m: Message, i: nat)
    requires |m.mti| == 4 && i < |BitmapBytes(m.fields)|
    ensures var b, s, width := BitmapBytes(m.fields), SerializeHex(m), if Flagged(m.fields, 1) then 32 else 16;
            && |s| >= 4 + width && s[..4] == m.mti && s[4 + width..] == EncodeFields(Ascii, m.fields, 2)
            && s[4 + 2 * i] == HEX[b[i] / 16] && s[5 + 2 * i] == HEX[b[i] % 16]
  {
    hide BitmapOf, EncodeFields, HexBytes;
    HexLayout(BitmapBytes(m.fields), i);
    var hex := HexBytes(BitmapBytes(m.fields));
    assert SerializeHex(m)[4..4 + |hex|] == hex;
  }

  /** Binary-coded form: the type in two bytes, the bitmap as it is, the fields. */
  lemma BcdLayout(m: Message)
    requires DigitMti(m.mti)
    ensures SerializeBcd(m).Some?
    ensures var s, width := SerializeBcd(m).value, if Flagged(m.fields, 1) then 16 else 8;
            && |s| >= 2 + width && s[2..2 + width] == BitmapBytes(m.fields)
            && s[2 + width..] == EncodeFields(Bcd, m.fields, 2)
            && Pairs(s[..2]) && PairValue(s[..2]) == DecimalValue(m.mti)
  {
    hide BitmapOf, EncodeFields, PairValue, DecimalValue, PackBcd;
    PackFourDigits(m.mti);
    var s := SerializeBcd(m).value;
    Pair2(s[..2]);
    Decimal4(m.mti);
    TypeByte(m.mti[0], m.mti[1]);
    TypeByte(m.mti[2], m.mti[3]);
  }

  lemma TypeByte(a: Byte, b: Byte)
    requires IsDigit(a) && IsDigit(b)
    ensures LastPair(BcdDigits(a, b)) == 10 * LastDigit(a) + LastDigit(b)
    ensures BcdDigits(a, b) / 16 <= 9 && BcdDigits(a, b) % 16 <= 9
  {}

  /** What is refused before any field is read. */
  lemma ParseRefuses(buf: Bytes)
    ensures |buf| < 12 ==> Parse(buf) == Err(BufferTooShort)
    ensures |buf| >= 12 && !Decimals(buf[..4]) ==> Parse(buf) == Err(InvalidMtiFormat)
    ensures |buf| < 10 ==> ParseBcd(buf) == Err(BufferTooShort)
  {
    hide ReadBitmap, ParseBody, LooksHex, UnpackMti;
  }
}
