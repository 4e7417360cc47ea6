/**
 * Exactly when the codec of solomon-core/src/iso8583.rs gives a message back: in hex and BCD form
 * for the well-formed messages and no others, in binary form when parse does not mistake the
 * message for a hex one; and exactly when the BCD parser stops the program.
 */
module Iso8583Exact {
  import opened Basics
  import opened Iso8583

  // ----- hex and BCD

  /** parse(serialize(m)) = m exactly for the well-formed messages. */
  lemma SerializeHexExact(m: Message)
    ensures Parse(SerializeHex(m)) == Ok(m) <==> WellFormed(m)
  {
    hide Parse, SerializeHex, WellFormed;
    ParseStable(SerializeHex(m));
    if WellFormed(m) { SerializeHexParses(m); }
  }

  /** The same in BCD form; a type with blanks is packed, but comes back as digits. */
  lemma SerializeBcdExact(m: Message)
    ensures SerializeBcd(m).Some? && ParseBcd(SerializeBcd(m).value) == Ok(m) <==> WellFormed(m)
  {
    hide ParseBcd, SerializeBcd, WellFormed;
    if WellFormed(m) {
      SerializeBcdParses(m);
    } else if SerializeBcd(m).Some? {
      ParseBcdStable(SerializeBcd(m).value);
    }
  }

  // ----- messages that do not fit

  /** What serialize makes of a payload: fixed fields cut or padded with spaces, variable ones cut. */
  function NormalData(n: nat, data: Bytes): Bytes
  {
    match FieldKind(n)
    case Fixed(len) => FixedBytes(data, len)
    case Var(_, max) => data[..Min(|data|, max)]
  }

  /** Every payload made to fit, and no field 1. */
  function Normal(m: Message): Message
  {
    Message(m.mti, map n | n in m.fields && n >= 2 :: NormalData(n, m.fields[n]))
  }

  lemma NormalDataFits(w: Wire, n: nat, data: Bytes)
    ensures FieldOk(n, NormalData(n, data)) && EncodeField(w, n, NormalData(n, data)) == EncodeField(w, n, data)
  {
    hide FieldKind, PackLen;
  }

  lemma {:induction false} NormalEncodes(w: Wire, m: Message, n: nat)
    requires 2 <= n <= 129
    ensures EncodeFields(w, Normal(m).fields, n) == EncodeFields(w, m.fields, n)
    decreases 129 - n
  {
    hide EncodeField, NormalData;
    if n <= 128 {
      NormalEncodes(w, m, n + 1);
      if n in m.fields { NormalDataFits(w, n, m.fields[n]); }
    }
  }

  lemma {:induction false} SameMarks(f: map<nat, Bytes>, g: map<nat, Bytes>, n: nat, bitmap: Bytes)
    requires IsBitmap(bitmap) && 2 <= n <= 129 && forall k | k >= 2 :: k in f <==> k in g
    ensures MarkFields(f, n, bitmap) == MarkFields(g, n, bitmap)
    decreases 129 - n
  {
    hide Mark;
    if n <= 128 { SameMarks(f, g, n + 1, if n in f then Mark(bitmap, n) else bitmap); }
  }

  lemma NormalBitmap(m: Message)
    ensures BitmapBytes(Normal(m).fields) == BitmapBytes(m.fields)
  {
    hide Mark, MarkFields, NormalData;
    var f, g := Normal(m).fields, m.fields;
    assert HasSecondary(f) <==> HasSecondary(g) by {
      if HasSecondary(g) {
        var k :| k in g && k > 64;
        assert k in f;
      }
    }
    SameMarks(f, g, 2, if HasSecondary(f) then Mark(ZeroBitmap(), 1) else ZeroBitmap());
  }

  /** A message as set_field can build it: field numbers from 1 to 128, payloads of any length. */
  predicate Settable(m: Message)
  {
    DigitMti(m.mti) && forall n | n in m.fields :: 1 <= n <= 128
  }

  /** Whatever the payloads, serializing and parsing yields the normal form, in both wire forms. */
  lemma SerializeNormalizes(m: Message)
    requires Settable(m)
    ensures WellFormed(Normal(m)) && Parse(SerializeHex(m)) == Ok(Normal(m))
    ensures SerializeBcd(m).Some? && ParseBcd(SerializeBcd(m).value) == Ok(Normal(m))
  {
    hide FieldOk, NormalData, EncodeFields, BitmapBytes, Parse, ParseBcd, DigitMti, PackBcd;
    var f := Normal(m);
    forall n | n in f.fields ensures 2 <= n <= 128 && FieldOk(n, f.fields[n]) { NormalDataFits(Ascii, n, m.fields[n]); }
    NormalEncodes(Ascii, m, 2);
    NormalEncodes(Bcd, m, 2);
    NormalBitmap(m);
    SerializeHexParses(f);
    SerializeBcdParses(f);
  }

  // ----- plus signs

  ghost predicate AllDigits(b: Bytes)
  {
    forall i | 0 <= i < |b| :: IsDigit(b[i])
  }

  lemma {:induction false} DigitsExact(b: Bytes, acc: nat)
    ensures ReadDigits(b, acc).Some? <==> AllDigits(b)
    decreases |b|
  {
    if b != [] && IsDigit(b[0]) {
      DigitsExact(b[1..], acc * 10 + (b[0] - 48));
      assert b == [b[0]] + b[1..];
    }
  }

  /** The length prefixes parse accepts: digits, with at most one plus sign in front. */
  lemma PrefixExact(b: Bytes)
    ensures ReadNumber(b).Some? <==> b != [] && (AllDigits(b) || (|b| > 1 && b[0] == 43 && AllDigits(b[1..])))
  {
    DigitsExact(b, 0);
    if b != [] { DigitsExact(b[1..], 0); }
  }

  /** "+5" is read as five, and so is "+5" in a bitmap; serialize writes neither. */
  lemma PlusWitness()
    ensures ReadNumber([43, 53]) == Some(5) && Decimal(5, 2) != [43, 53]
    ensures HexPair(43, 53) == Some(5) && HexBytes([5]) != [43, 53]
  {
    assert [43, 53][1..] == [53];
    ReadLast(5, 0);
  }

  // ----- how many bytes parsing takes

  /** A decoded field takes as many bytes as it encodes to. */
  lemma DecodedLength(w: Wire, n: nat, buf: Bytes, offset: nat)
    ensures var f := DecodeField(w, n, buf, offset);
            f.Ok? ==> f.value.next == offset + |EncodeField(w, n, f.value.data)|
  {
    hide FieldKind, UnpackLen, PackLen;
  }

  /** Parsing from field n on leaves the earlier fields alone. */
  lemma {:induction false} ParseKeeps(w: Wire, bitmap: Bytes, n: nat, last: nat, buf: Bytes, offset: nat,
                                      acc: map<nat, Bytes>)
    requires IsBitmap(bitmap) && 2 <= n && last <= 128
    ensures var r := ParseFields(w, bitmap, n, last, buf, offset, acc);
            r.Ok? ==> forall k | k < n :: (k in r.value <==> k in acc) && (k in acc ==> r.value[k] == acc[k])
    decreases 129 - n
  {
    hide DecodeField, BitAt;
    if n <= last {
      var f := DecodeField(w, n, buf, offset);
      if !BitAt(bitmap, n) {
        ParseKeeps(w, bitmap, n + 1, last, buf, offset, acc);
      } else if f.Ok? {
        ParseKeeps(w, bitmap, n + 1, last, buf, f.value.next, acc[n := f.value.data]);
      }
    }
  }

  ghost predicate AllBelow(fields: map<nat, Bytes>, n: nat)
  {
    forall k | k in fields :: k < n
  }

  lemma {:induction false} NothingFrom(w: Wire, fields: map<nat, Bytes>, n: nat, bound: nat)
    requires 2 <= n <= 129 && bound <= n && AllBelow(fields, bound)
    ensures EncodeFields(w, fields, n) == []
    decreases 129 - n
  {
    hide EncodeField;
    if n <= 128 { NothingFrom(w, fields, n + 1, bound); }
  }

  /** What is parsed from offset on fits, encoded, into the rest of the buffer. */
  lemma {:induction false} ParseConsumes(w: Wire, bitmap: Bytes, n: nat, last: nat, buf: Bytes, offset: nat,
                                         acc: map<nat, Bytes>)
    requires IsBitmap(bitmap) && 2 <= n <= 129 && last <= 128 && offset <= |buf| && AllBelow(acc, n)
    ensures var r := ParseFields(w, bitmap, n, last, buf, offset, acc);
            r.Ok? ==> offset + |EncodeFields(w, r.value, n)| <= |buf|
    decreases 129 - n
  {
    hide DecodeField, BitAt, EncodeField;
    var r := ParseFields(w, bitmap, n, last, buf, offset, acc);
    if n > last {
      NothingFrom(w, acc, n, n);
    } else if r.Ok? {
      if !BitAt(bitmap, n) {
        ParseConsumes(w, bitmap, n + 1, last, buf, offset, acc);
        ParseKeeps(w, bitmap, n + 1, last, buf, offset, acc);
      } else {
        var f := DecodeField(w, n, buf, offset);
        var next := acc[n := f.value.data];
        ParseConsumes(w, bitmap, n + 1, last, buf, f.value.next, next);
        ParseKeeps(w, bitmap, n + 1, last, buf, f.value.next, next);
        assert n in next && r.value[n] == f.value.data;
        DecodedLength(w, n, buf, offset);
      }
    }
  }

  // ----- binary

  /** A hexadecimal character has its top bit clear. */
  lemma HexTopBit(c: Byte)
    requires IsHex(c)
    ensures !TestBit(c, 7)
  {
    assert c < 128;
    ShiftSmall(c, 7);
  }

  lemma {:induction false} ShiftSmall(b: nat, k: nat)
    requires b < Power(k)
    ensures Shift(b, k) == 0
  {
    if k > 0 { ShiftSmall(b / 2, k - 1); }
  }

  /** The hexadecimal reading starts its fields at byte 20 or later. */
  lemma HexOffset(buf: Bytes)
    ensures var h := ReadBitmap(buf, 4, true); h.Ok? ==> h.value.offset >= 20
  {
    hide ReadEight, TestBit;
  }

  /** A message that looks hexadecimal has no second bitmap, so its fields start at byte 12. */
  lemma ShortBitmap(m: Message)
    requires WellFormed(m) && LooksHex(SerializeBinary(m))
    ensures |SerializeBinary(m)| == 12 + |EncodeFields(Ascii, m.fields, 2)|
  {
    hide BitmapOf, EncodeFields, HasSecondary, TestBit, FieldsFit, IsHex;
    var buf := SerializeBinary(m);
    assert buf[4] == BitmapOf(m.fields)[0];
    assert IsHex(buf[4]) by { assert buf[4..20][0] == buf[4]; }
    HexTopBit(buf[4]);
    FlagOfFirst(m.fields);
  }

  /** Read as hexadecimal, a binary message would need eight bytes more than it has. */
  lemma HexReadingDiffers(m: Message)
    requires WellFormed(m) && LooksHex(SerializeBinary(m))
    ensures Parse(SerializeBinary(m)) != Ok(m)
  {
    hide SerializeBinary, ReadBitmap, ParseFields, WellFormed, LooksHex, EncodeFields, DigitMti;
    var buf := SerializeBinary(m);
    ShortBitmap(m);
    var h := ReadBitmap(buf, 4, true);
    HexOffset(buf);
    if h.Ok? { ParseConsumes(Ascii, h.value.bitmap, 2, h.value.last, buf, h.value.offset, map[]); }
  }

  /** parse undoes the binary form exactly when the bytes after the type do not look hexadecimal. */
  lemma SerializeBinaryExact(m: Message)
    requires WellFormed(m)
    ensures Parse(SerializeBinary(m)) == Ok(m) <==> !LooksHex(SerializeBinary(m))
  {
    hide Parse, SerializeBinary, WellFormed, LooksHex;
    if LooksHex(SerializeBinary(m)) { HexReadingDiffers(m); } else { SerializeBinaryParses(m); }
  }

  // ----- a message that looks hexadecimal

  const ZERO_CHAR: Byte := 48

  /** Two fields in every eight: the flags of each bitmap byte read 0x30. */
  predicate Chosen(n: nat)
  {
    1 <= n <= 64 && ((n - 1) % 8 == 2 || (n - 1) % 8 == 3)
  }

  function Zeros(n: nat): (r: Bytes)
    ensures |r| == n && forall i | 0 <= i < n :: r[i] == ZERO_CHAR
  {
    seq(n, _ => ZERO_CHAR)
  }

  function Filler(n: nat): Bytes
  {
    match FieldKind(n)
    case Fixed(len) => Zeros(len)
    case Var(_, _) => []
  }

  function Deceptive(): Message
  {
    Message([48, 50, 48, 48], map n: nat | 0 <= n < 65 && Chosen(n) :: Filler(n))
  }

  lemma DeceptiveFits()
    ensures WellFormed(Deceptive())
  {
    hide FieldKind, Zeros;
  }

  /** Bytes with the same bits are equal. */
  lemma {:induction false} SameBits(b: nat, c: nat, n: nat)
    requires b < Power(n) && c < Power(n) && forall k: nat | k < n :: TestBit(b, k) == TestBit(c, k)
    ensures b == c
    decreases n
  {
    hide TestBit;
    if n > 0 {
      LowestBit(b);
      LowestBit(c);
      assert TestBit(b, 0) == TestBit(c, 0);
      forall k: nat | k < n - 1
        ensures TestBit(b / 2, k) == TestBit(c / 2, k)
      {
        UpperBit(b, k);
        UpperBit(c, k);
        assert TestBit(b, k + 1) == TestBit(c, k + 1);
      }
      SameBits(b / 2, c / 2, n - 1);
    }
  }

  lemma LowestBit(b: nat)
    ensures TestBit(b, 0) <==> b % 2 == 1
  {}

  lemma UpperBit(b: nat, k: nat)
    ensures TestBit(b, k + 1) == TestBit(b / 2, k)
  {}

  lemma BitsOfZeroChar(k: nat)
    requires k < 8
    ensures TestBit(48, k) <==> k == 4 || k == 5
  {
    assert Shift(48, 4) == 3 && Shift(48, 5) == 1;
    assert Shift(48, 0) == 48 && Shift(48, 1) == 24 && Shift(48, 2) == 12 && Shift(48, 3) == 6;
    assert Shift(48, 6) == 0 && Shift(48, 7) == 0;
  }

  lemma DeceptiveBitmap(i: nat)
    requires i < 8
    ensures BitmapOf(Deceptive().fields)[i] == ZERO_CHAR
  {
    hide BitmapOf, TestBit, Filler;
    var fields := Deceptive().fields;
    var b: int := BitmapOf(fields)[i];
    forall k: nat | k < 8
      ensures TestBit(b, k) == TestBit(48, k)
    {
      var n := 8 * i + 8 - k;
      BitmapTests(fields, n);
      BitsOfZeroChar(k);
      if n == 1 { NoSecondary(); }
    }
    PowerOfEight();
    SameBits(b, 48, 8);
  }

  lemma PowerOfEight()
    ensures Power(8) == 256
  {
    assert Power(4) == 16;
  }

  lemma NoSecondary()
    ensures !HasSecondary(Deceptive().fields)
  {
    hide Filler;
  }

  lemma DeceptiveFields()
    ensures var e := EncodeFields(Ascii, Deceptive().fields, 2);
            |e| >= 8 && forall i | 0 <= i < 8 :: e[i] == ZERO_CHAR
  {
    hide EncodeField, EncodeFields, Deceptive, FixedBytes;
    var fields := Deceptive().fields;
    DeceptiveFront();
    FixedEncoding(3, fields[3]);
    FixedEncoding(4, fields[4]);
    FieldsThreeAndFour(fields);
  }

  lemma DeceptiveFront()
    ensures var fields := Deceptive().fields;
            && FieldKind(3) == Fixed(6) && FieldKind(4) == Fixed(12) && 2 !in fields && 3 in fields && 4 in fields
            && fields[3] == Zeros(6) && fields[4] == Zeros(12)
  {}

  lemma FieldsThreeAndFour(fields: map<nat, Bytes>)
    requires 2 !in fields && 3 in fields && 4 in fields
    ensures EncodeFields(Ascii, fields, 2)
            == EncodeField(Ascii, 3, fields[3]) + EncodeField(Ascii, 4, fields[4]) + EncodeFields(Ascii, fields, 5)
  {
    hide EncodeField;
    EncodeStep(Ascii, fields, 2, []);
    EncodeStep(Ascii, fields, 3, []);
    EncodeStep(Ascii, fields, 4, EncodeField(Ascii, 3, fields[3]));
  }

  lemma FixedEncoding(n: nat, data: Bytes)
    requires FieldKind(n) == Fixed(|data|)
    ensures EncodeField(Ascii, n, data) == data
  {
    hide FieldKind;
  }

  /** A well-formed message that parse mistakes for a hex one: it does not come back. */
  lemma BinaryWitness()
    ensures WellFormed(Deceptive()) && LooksHex(SerializeBinary(Deceptive()))
    ensures Parse(SerializeBinary(Deceptive())) != Ok(Deceptive())
  {
    hide BitmapOf, EncodeFields, Filler, WellFormed, Parse, HasSecondary;
    var m := Deceptive();
    var buf := SerializeBinary(m);
    var e := EncodeFields(Ascii, m.fields, 2);
    DeceptiveFits();
    NoSecondary();
    DeceptiveFields();
    forall i | 0 <= i < 16
      ensures i + 4 < |buf| && buf[4..20][i] == ZERO_CHAR
    {
      if i < 8 { DeceptiveBitmap(i); } else { assert buf[4 + i] == e[i - 8]; }
    }
    SerializeBinaryExact(m);
  }

  // ----- the stop of the BCD parser

  /** The type bytes on which unpacking ends early. */
  predicate PaddedType(a: Byte, b: Byte)
  {
    a / 16 <= 9 && (a % 16 == 15 || (a % 16 <= 9 && b / 16 <= 9 && b % 16 == 15))
  }

  lemma DecodeNeverPanics(w: Wire, n: nat, buf: Bytes, offset: nat)
    ensures DecodeField(w, n, buf, offset) != Err(MtiPanic)
  {
    hide FieldKind, ReadNumber, UnpackPair;
  }

  lemma {:induction false} FieldsNeverPanic(w: Wire, bitmap: Bytes, n: nat, last: nat, buf: Bytes, offset: nat,
                                            acc: map<nat, Bytes>)
    requires IsBitmap(bitmap) && 2 <= n && last <= 128
    ensures ParseFields(w, bitmap, n, last, buf, offset, acc) != Err(MtiPanic)
    decreases 129 - n
  {
    hide DecodeField, BitAt;
    if n <= last {
      var f := DecodeField(w, n, buf, offset);
      DecodeNeverPanics(w, n, buf, offset);
      if !BitAt(bitmap, n) {
        FieldsNeverPanic(w, bitmap, n + 1, last, buf, offset, acc);
      } else if f.Ok? {
        FieldsNeverPanic(w, bitmap, n + 1, last, buf, f.value.next, acc[n := f.value.data]);
      }
    }
  }

  lemma BitmapNeverPanics(buf: Bytes, offset: nat, hex: bool)
    ensures ReadBitmap(buf, offset, hex) != Err(MtiPanic)
  {
    hide TestBit, ReadHex;
  }

  /** The BCD parser stops the program exactly on a padding nibble behind valid digits of the type. */
  lemma ParseBcdPanics(buf: Bytes)
    ensures ParseBcd(buf) == Err(MtiPanic) <==> |buf| >= 10 && PaddedType(buf[0], buf[1])
  {
    hide ReadBitmap, ParseBody;
    if |buf| >= 10 {
      var mti := UnpackMti(buf[0], buf[1]);
      if mti.Ok? { BodyNeverPanics(Bcd, mti.value, buf, 2, false); }
    }
  }

  lemma BodyNeverPanics(w: Wire, mti: Bytes, buf: Bytes, offset: nat, hex: bool)
    ensures ParseBody(w, mti, buf, ReadBitmap(buf, offset, hex)) != Err(MtiPanic)
  {
    hide ReadBitmap, ParseFields;
    BitmapNeverPanics(buf, offset, hex);
    var h := ReadBitmap(buf, offset, hex);
    if h.Ok? { FieldsNeverPanic(w, h.value.bitmap, 2, h.value.last, buf, h.value.offset, map[]); }
  }

  /** The text parser never stops the program. */
  lemma ParseNeverPanics(buf: Bytes)
    ensures Parse(buf) != Err(MtiPanic)
  {
    hide ReadBitmap, ParseBody;
    if |buf| >= 12 { BodyNeverPanics(Ascii, buf[..4], buf, 4, LooksHex(buf)); }
  }
}
