/**
 * The ISO 8583 codec of solomon-core/src/iso8583.rs: hex-bitmap and BCD wire forms, field by field
 * after a 128-bit bitmap.
 */
module Iso8583 {
  import Congruence
  import opened Basics

  datatype Message = Message(mti: Bytes, fields: map<nat, Bytes>)

  datatype Error =
    | BufferTooShort | InvalidMtiFormat | InvalidBitmap | FieldLengthExceeded | InvalidVarLengthHeader | BcdError
    | MtiPanic // unpacking ends early on a padding nibble and the copy into four bytes stops the program

  datatype Result<T> = Ok(value: T) | Err(error: Error)

  /** ASCII text lengths and bitmaps, or binary-coded decimal ones. */
  datatype Wire = Ascii | Bcd

  datatype Kind = Fixed(len: nat) | Var(digits: nat, max: nat)

  /** get_field_type. */
  function FieldKind(n: nat): (k: Kind)
    ensures k.Var? ==> 2 <= k.digits <= 4 && k.max <= if k.digits == 2 then 99 else if k.digits == 3 then 999 else 9999
  {
    if n == 2 then Var(2, 19)
    else if n in {3, 11, 12, 38} then Fixed(6)
    else if n in {4, 5, 6, 37} then Fixed(12)
    else if n == 7 then Fixed(10)
    else if n in {1, 8, 9, 10, 41, 52, 64, 128} then Fixed(8)
    else if n in {13, 14, 15, 16, 17, 18} then Fixed(4)
    else if n in {19, 22, 23, 24, 49, 50, 51, 70} then Fixed(3)
    else if n in {25, 26, 39} then Fixed(2)
    else if n == 28 then Fixed(9)
    else if n in {32, 33, 100} then Var(2, 11)
    else if n == 35 then Var(2, 37)
    else if n == 42 then Fixed(15)
    else if n == 43 then Fixed(40)
    else if n == 44 then Var(2, 25)
    else if n == 45 then Var(2, 76)
    else if n == 53 then Fixed(16)
    else if n == 54 then Var(3, 120)
    else if n == 55 then Var(3, 255)
    else if n == 90 then Fixed(42)
    else if n in {102, 103} then Var(2, 28)
    else if n in {112, 123, 127} then Var(4, 9999)
    else Var(3, 999)
  }

  // ----- length headers

  function Digit(v: nat): Byte
    requires v < 10
  {
    48 + v
  }

  predicate IsDigit(c: Byte) { 48 <= c <= 57 }

  /** A number in decimal, padded with zeros on the left to two, three or four digits. */
  function Decimal(v: nat, digits: nat): (r: Bytes)
    requires 2 <= digits <= 4
    ensures |r| == digits
  {
    var tens := v / 10;
    var hundreds := tens / 10;
    var thousands := hundreds / 10;
    if digits == 2 then [Digit(tens % 10), Digit(v % 10)]
    else if digits == 3 then [Digit(hundreds % 10), Digit(tens % 10), Digit(v % 10)]
    else [Digit(thousands % 10), Digit(hundreds % 10), Digit(tens % 10), Digit(v % 10)]
  }

  /** Digits read from the left onto acc. */
  function ReadDigits(b: Bytes, acc: nat): Option<nat>
    decreases |b|
  {
    if b == [] then Some(acc)
    else if IsDigit(b[0]) then ReadDigits(b[1..], acc * 10 + (b[0] - 48))
    else None
  }

  /** str::parse::<usize>: digits, with one optional plus sign in front. */
  function ReadNumber(b: Bytes): Option<nat>
  {
    if |b| > 1 && b[0] == 43 then ReadDigits(b[1..], 0) else if b == [] then None else ReadDigits(b, 0)
  }

  function HeaderWidth(w: Wire, digits: nat): (n: nat)
  {
    if w.Ascii? then digits else if digits == 2 then 1 else 2
  }

  /** One byte of two decimal digits. */
  function BcdPair(v: nat): Byte
  {
    ((v / 10) % 10) * 16 + v % 10
  }

  function PackLen(w: Wire, digits: nat, len: nat): (r: Bytes)
    requires 2 <= digits <= 4
    ensures |r| == HeaderWidth(w, digits)
  {
    if w.Ascii? then Decimal(len, digits)
    else if digits == 2 then [BcdPair(len)]
    else [BcdPair(len / 100), BcdPair(len % 100)]
  }

  function UnpackPair(b: Byte): Option<nat>
  {
    if b / 16 > 9 || b % 16 > 9 then None else Some(b / 16 * 10 + b % 16)
  }

  /** unpack_llvar_len_bcd and its wider forms; with three digits the first nibble is not looked at. */
  function UnpackLen(w: Wire, digits: nat, b: Bytes): Result<nat>
    requires |b| == HeaderWidth(w, digits) && 2 <= digits <= 4
  {
    if w.Ascii? then
      var v := ReadNumber(b);
      if v.None? then Err(InvalidVarLengthHeader) else Ok(v.value)
    else if digits == 2 then
      var v := UnpackPair(b[0]);
      if v.None? then Err(BcdError) else Ok(v.value)
    else
      var hi, lo := UnpackPair(if digits == 3 then b[0] % 16 else b[0]), UnpackPair(b[1]);
      if hi.None? || lo.None? then Err(BcdError) else Ok(hi.value * 100 + lo.value)
  }

  predicate Fits(digits: nat, len: nat)
  {
    len <= if digits == 2 then 99 else if digits == 3 then 999 else 9999
  }

  lemma ReadStep(d: nat, rest: Bytes, acc: nat)
    requires d < 10
    ensures ReadDigits([Digit(d)] + rest, acc) == ReadDigits(rest, acc * 10 + d)
  {
    assert ([Digit(d)] + rest)[1..] == rest;
  }

  lemma ReadLast(d: nat, acc: nat)
    requires d < 10
    ensures ReadDigits([Digit(d)], acc) == Some(acc * 10 + d)
  {
    ReadStep(d, [], acc);
    assert [Digit(d)] + [] == [Digit(d)];
  }

  lemma ReadTwo(a: nat, b: nat, acc: nat)
    requires a < 10 && b < 10
    ensures ReadDigits([Digit(a), Digit(b)], acc) == Some(acc * 100 + a * 10 + b)
  {
    hide ReadDigits, Digit;
    assert [Digit(a)] + [Digit(b)] == [Digit(a), Digit(b)];
    ReadStep(a, [Digit(b)], acc);
    ReadLast(b, acc * 10 + a);
  }

  lemma ReadThree(a: nat, b: nat, c: nat)
    requires a < 10 && b < 10 && c < 10
    ensures ReadDigits([Digit(a), Digit(b), Digit(c)], 0) == Some(a * 100 + b * 10 + c)
  {
    hide ReadDigits, Digit;
    assert [Digit(a)] + [Digit(b), Digit(c)] == [Digit(a), Digit(b), Digit(c)];
    ReadStep(a, [Digit(b), Digit(c)], 0);
    ReadTwo(b, c, a);
  }

  lemma ReadFour(a: nat, b: nat, c: nat, d: nat)
    requires a < 10 && b < 10 && c < 10 && d < 10
    ensures ReadDigits([Digit(a), Digit(b), Digit(c), Digit(d)], 0) == Some(a * 1000 + b * 100 + c * 10 + d)
  {
    hide ReadDigits, Digit;
    assert [Digit(a)] + [Digit(b), Digit(c), Digit(d)] == [Digit(a), Digit(b), Digit(c), Digit(d)];
    assert [Digit(b)] + [Digit(c), Digit(d)] == [Digit(b), Digit(c), Digit(d)];
    ReadStep(a, [Digit(b), Digit(c), Digit(d)], 0);
    ReadStep(b, [Digit(c), Digit(d)], a);
    ReadTwo(c, d, a * 10 + b);
  }

  lemma DecimalReads(v: nat, digits: nat)
    requires 2 <= digits <= 4 && Fits(digits, v)
    ensures ReadDigits(Decimal(v, digits), 0) == Some(v) && Decimal(v, digits)[0] != 43
  {
    hide ReadDigits, Digit;
    var tens := v / 10;
    var hundreds := tens / 10;
    var thousands := hundreds / 10;
    LeadingDigit(Decimal(v, digits)[0], digits, v);
    if digits == 2 { ReadTwo(tens % 10, v % 10, 0); }
    else if digits == 3 { ReadThree(hundreds % 10, tens % 10, v % 10); }
    else { ReadFour(thousands % 10, hundreds % 10, tens % 10, v % 10); }
    DigitsSum(v);
  }

  /** A digit is not a plus sign. */
  lemma LeadingDigit(c: Byte, digits: nat, v: nat)
    requires 2 <= digits <= 4 && c == Decimal(v, digits)[0]
    ensures c != 43
  {}

  lemma DigitsSum(v: nat)
    ensures var tens := v / 10; var hundreds := tens / 10; var thousands := hundreds / 10;
            && (v <= 99 ==> tens % 10 * 10 + v % 10 == v)
            && (v <= 999 ==> hundreds % 10 * 100 + tens % 10 * 10 + v % 10 == v)
            && (v <= 9999 ==> thousands % 10 * 1000 + hundreds % 10 * 100 + tens % 10 * 10 + v % 10 == v)
  {}

  lemma PairRoundTrip(v: nat)
    requires v < 100
    ensures UnpackPair(BcdPair(v)) == Some(v) && (v < 10 ==> BcdPair(v) == v)
  {
    var tens, units := v / 10, v % 10;
    assert tens % 10 == tens;
    Congruence.DivModUnique(tens * 16 + units, tens, units, 16);
  }

  /** A length header read back gives the length. */
  lemma HeaderRoundTrip(w: Wire, digits: nat, len: nat)
    requires 2 <= digits <= 4 && Fits(digits, len)
    ensures UnpackLen(w, digits, PackLen(w, digits, len)) == Ok(len)
  {
    hide Decimal, ReadDigits, UnpackPair, BcdPair;
    if w.Ascii? {
      DecimalReads(len, digits);
    } else if digits == 2 {
      PairRoundTrip(len);
    } else {
      PairRoundTrip(len / 100);
      PairRoundTrip(len % 100);
    }
  }

  // ----- fields

  /** data cut or padded with spaces to len bytes. */
  function FixedBytes(data: Bytes, len: nat): (r: Bytes)
    ensures |r| == len && (|data| == len ==> r == data)
  {
    if |data| >= len then data[..len] else data + seq(len - |data|, _ => 32)
  }

  function Min(a: nat, b: nat): nat { if a < b then a else b }

  function EncodeField(w: Wire, n: nat, data: Bytes): Bytes
  {
    hide FieldKind, PackLen;
    match FieldKind(n)
    case Fixed(len) => FixedBytes(data, len)
    case Var(digits, max) => var len := Min(|data|, max); PackLen(w, digits, len) + data[..len]
  }

  datatype Read = Read(data: Bytes, next: nat)

  /** Reads field n at offset. */
  function DecodeField(w: Wire, n: nat, buf: Bytes, offset: nat): (r: Result<Read>)
    ensures r.Ok? ==> offset <= r.value.next <= |buf|
  {
    hide FieldKind, UnpackLen;
    match FieldKind(n)
    case Fixed(len) =>
      if |buf| < offset + len then Err(BufferTooShort) else Ok(Read(buf[offset..offset + len], offset + len))
    case Var(digits, max) =>
      var width := HeaderWidth(w, digits);
      if |buf| < offset + width then Err(BufferTooShort)
      else
        var len := UnpackLen(w, digits, buf[offset..offset + width]);
        if len.Err? then Err(len.error)
        else if len.value > max then Err(FieldLengthExceeded)
        else if |buf| < offset + width + len.value then Err(BufferTooShort)
        else Ok(Read(buf[offset + width..offset + width + len.value], offset + width + len.value))
  }

  /** A payload that field n can carry unchanged. */
  predicate FieldOk(n: nat, data: Bytes)
  {
    match FieldKind(n)
    case Fixed(len) => |data| == len
    case Var(_, max) => |data| <= max
  }

  /** Wherever it stands, an encoded field decodes to its payload. */
  lemma FieldRoundTrip(w: Wire, n: nat, data: Bytes, before: Bytes, after: Bytes)
    requires FieldOk(n, data)
    ensures DecodeField(w, n, before + EncodeField(w, n, data) + after, |before|)
            == Ok(Read(data, |before| + |EncodeField(w, n, data)|))
  {
    hide FieldKind, PackLen, UnpackLen, HeaderWidth;
    match FieldKind(n)
    case Fixed(len) => Slices(before, [], data, after);
    case Var(digits, max) =>
      assert data[..|data|] == data;
      Slices(before, PackLen(w, digits, |data|), data, after);
      HeaderRoundTrip(w, digits, |data|);
  }

  /** Where a header and a payload stand in the middle of a buffer. */
  lemma Slices(before: Bytes, header: Bytes, data: Bytes, after: Bytes)
    ensures var buf := before + (header + data) + after; var at := |before| + |header|;
            && |buf| >= at + |data| && buf[|before|..at] == header && buf[at..at + |data|] == data
    ensures [] + data == data
  {}

  /** What is decoded is a payload the field can carry. */
  lemma DecodedOk(w: Wire, n: nat, buf: Bytes, offset: nat)
    ensures DecodeField(w, n, buf, offset).Ok? ==> FieldOk(n, DecodeField(w, n, buf, offset).value.data)
  {
    hide FieldKind, UnpackLen;
  }

  // ----- bitmaps

  /** b >> k. */
  function Shift(b: nat, k: nat): nat
    decreases k
  {
    if k == 0 then b else Shift(b / 2, k - 1)
  }

  /** b & (1 << k) != 0. */
  predicate TestBit(b: nat, k: nat)
  {
    Shift(b, k) % 2 == 1
  }

  /** The number with the given bits, the lowest first. */
  function Compose(bits: seq<bool>): nat
  {
    if bits == [] then 0 else (if bits[0] then 1 else 0) + 2 * Compose(bits[1..])
  }

  function BitsOf(b: nat, n: nat): (r: seq<bool>)
    ensures |r| == n
    decreases n
  {
    if n == 0 then [] else [b % 2 == 1] + BitsOf(b / 2, n - 1)
  }

  lemma {:induction false} ComposeTests(bits: seq<bool>, k: nat)
    requires k < |bits|
    ensures TestBit(Compose(bits), k) == bits[k]
    decreases |bits|
  {
    if k > 0 { ComposeTests(bits[1..], k - 1); }
  }

  lemma {:induction false} BitsTest(b: nat, n: nat, k: nat)
    requires k < n
    ensures BitsOf(b, n)[k] == TestBit(b, k)
    decreases n
  {
    if k > 0 { BitsTest(b / 2, n - 1, k - 1); }
  }

  lemma ComposeByte(bits: seq<bool>)
    requires |bits| == 8
    ensures Compose(bits) < 256
  {
    ComposeBelow(bits, 4);
    ComposeBelow(bits[4..], 4);
    assert bits[4..][4..] == [];
  }

  /** Four bits weigh less than 16. */
  lemma {:induction false} ComposeBelow(bits: seq<bool>, n: nat)
    requires n <= |bits|
    ensures Compose(bits) < Power(n) + Power(n) * Compose(bits[n..])
    decreases n
  {
    if n == 0 {
      assert bits[0..] == bits;
    } else {
      ComposeBelow(bits[1..], n - 1);
      assert bits[1..][n - 1..] == bits[n..];
      Doubled(Power(n - 1), Compose(bits[n..]));
    }
  }

  function Power(n: nat): nat { if n == 0 then 1 else 2 * Power(n - 1) }

  lemma Doubled(p: nat, c: nat)
    ensures 2 * (p + p * c) == 2 * p + 2 * p * c
  {}

  /** b | 1 << k. */
  function WithBit(b: Byte, k: nat): Byte
    requires k < 8
  {
    var bits := BitsOf(b, 8)[k := true];
    ComposeByte(bits);
    Compose(bits)
  }

  lemma WithBitTests(b: Byte, k: nat, j: nat)
    requires k < 8 && j < 8
    ensures TestBit(WithBit(b, k), j) <==> j == k || TestBit(b, j)
  {
    hide TestBit, BitsOf, Compose;
    BitsTest(b, 8, j);
    ComposeTests(BitsOf(b, 8)[k := true], j);
  }

  predicate IsBitmap(bitmap: Bytes) { |bitmap| == 16 }

  /** The flag of field n. */
  predicate BitAt(bitmap: Bytes, n: nat)
    requires IsBitmap(bitmap) && 1 <= n <= 128
  {
    TestBit(bitmap[(n - 1) / 8], 7 - (n - 1) % 8)
  }

  function Mark(bitmap: Bytes, n: nat): (r: Bytes)
    requires IsBitmap(bitmap) && 1 <= n <= 128
    ensures IsBitmap(r)
  {
    hide WithBit;
    bitmap[(n - 1) / 8 := WithBit(bitmap[(n - 1) / 8], 7 - (n - 1) % 8)]
  }

  lemma MarkTests(bitmap: Bytes, n: nat, m: nat)
    requires IsBitmap(bitmap) && 1 <= n <= 128 && 1 <= m <= 128
    ensures BitAt(Mark(bitmap, n), m) <==> m == n || BitAt(bitmap, m)
  {
    hide WithBit, TestBit;
    var i, k := (n - 1) / 8, 7 - (n - 1) % 8;
    var j, l := (m - 1) / 8, 7 - (m - 1) % 8;
    if i == j { WithBitTests(bitmap[i], k, l); }
  }

  /** The flags of the fields from n on, set one after the other. */
  function MarkFields(fields: map<nat, Bytes>, n: nat, bitmap: Bytes): (r: Bytes)
    requires IsBitmap(bitmap) && 2 <= n <= 129
    ensures IsBitmap(r)
    decreases 129 - n
  {
    hide Mark;
    if n > 128 then bitmap else MarkFields(fields, n + 1, if n in fields then Mark(bitmap, n) else bitmap)
  }

  predicate HasSecondary(fields: map<nat, Bytes>)
  {
    exists n | n in fields :: n > 64
  }

  function ZeroBitmap(): (r: Bytes)
    ensures IsBitmap(r) && forall i | 0 <= i < 16 :: r[i] == 0
  {
    seq(16, _ => 0)
  }

  function BitmapOf(fields: map<nat, Bytes>): (r: Bytes)
    ensures IsBitmap(r)
  {
    hide Mark, MarkFields;
    MarkFields(fields, 2, if HasSecondary(fields) then Mark(ZeroBitmap(), 1) else ZeroBitmap())
  }

  lemma {:induction false} MarkFieldsTests(fields: map<nat, Bytes>, n: nat, bitmap: Bytes, m: nat)
    requires IsBitmap(bitmap) && 2 <= n <= 129 && 1 <= m <= 128
    ensures BitAt(MarkFields(fields, n, bitmap), m) <==> (m >= n && m in fields) || BitAt(bitmap, m)
    decreases 129 - n
  {
    hide Mark, BitAt;
    if n <= 128 {
      MarkTests(bitmap, n, m);
      MarkFieldsTests(fields, n + 1, if n in fields then Mark(bitmap, n) else bitmap, m);
    }
  }

  /** Exactly the flags of the present fields are set, and the first one for a second bitmap. */
  lemma BitmapTests(fields: map<nat, Bytes>, m: nat)
    requires 1 <= m <= 128
    ensures BitAt(BitmapOf(fields), m) <==> if m == 1 then HasSecondary(fields) else m in fields
  {
    hide Mark, MarkFields, HasSecondary;
    ZeroTests(m);
    MarkTests(ZeroBitmap(), 1, m);
    MarkFieldsTests(fields, 2, if HasSecondary(fields) then Mark(ZeroBitmap(), 1) else ZeroBitmap(), m);
  }

  lemma ZeroTests(m: nat)
    requires 1 <= m <= 128
    ensures !BitAt(ZeroBitmap(), m)
  {
    ShiftZero(7 - (m - 1) % 8);
  }

  lemma {:induction false} ShiftZero(k: nat)
    ensures Shift(0, k) == 0
  {
    if k > 0 { ShiftZero(k - 1); }
  }

  // ----- hexadecimal

  function HexDigit(v: nat): Byte
    requires v < 16
  {
    if v < 10 then 48 + v else 55 + v
  }

  predicate IsHex(c: Byte)
  {
    48 <= c <= 57 || 65 <= c <= 70 || 97 <= c <= 102
  }

  function HexValue(c: Byte): (v: nat)
    requires IsHex(c)
    ensures v < 16
  {
    if c <= 57 then c - 48 else if c <= 70 then c - 55 else c - 87
  }

  /** u8::from_str_radix on two characters: the first may be a plus sign. */
  function HexPair(a: Byte, b: Byte): Option<Byte>
  {
    if a == 43 && IsHex(b) then Some(HexValue(b))
    else if IsHex(a) && IsHex(b) then Some(HexValue(a) * 16 + HexValue(b))
    else None
  }

  function HexBytes(b: Bytes): (r: Bytes)
    ensures |r| == 2 * |b|
  {
    if b == [] then [] else [HexDigit(b[0] / 16), HexDigit(b[0] % 16)] + HexBytes(b[1..])
  }

  function ReadHex(b: Bytes): (r: Option<Bytes>)
    requires |b| % 2 == 0
    ensures r.Some? ==> |r.value| == |b| / 2
    decreases |b|
  {
    if b == [] then Some([])
    else
      var first, rest := HexPair(b[0], b[1]), ReadHex(b[2..]);
      if first.None? || rest.None? then None else Some([first.value] + rest.value)
  }

  predicate AllHex(b: Bytes)
  {
    forall i | 0 <= i < |b| :: IsHex(b[i])
  }

  lemma {:induction false} HexRoundTrip(b: Bytes)
    ensures AllHex(HexBytes(b)) && ReadHex(HexBytes(b)) == Some(b)
  {
    if b != [] {
      HexRoundTrip(b[1..]);
      var r, rest := HexBytes(b), HexBytes(b[1..]);
      assert r[2..] == rest;
      HexPairRoundTrip(b[0]);
      forall i | 0 <= i < |r| ensures IsHex(r[i]) {
        if i >= 2 { assert r[i] == rest[i - 2]; }
      }
      assert b == [b[0]] + b[1..];
    }
  }

  lemma HexPairRoundTrip(b: Byte)
    ensures IsHex(HexDigit(b / 16)) && IsHex(HexDigit(b % 16)) && HexPair(HexDigit(b / 16), HexDigit(b % 16)) == Some(b)
  {}

  // ----- parsing

  /** The bitmap, the offset behind it, and the last field number it can flag. */
  datatype Header = Header(bitmap: Bytes, offset: nat, last: nat)

  /** Eight bitmap bytes, as sixteen hexadecimal characters or as they are. */
  function ReadEight(buf: Bytes, offset: nat, hex: bool): (r: Result<Bytes>)
    ensures r.Ok? ==> |r.value| == 8 && offset + (if hex then 16 else 8) <= |buf|
  {
    hide ReadHex;
    if |buf| < offset + (if hex then 16 else 8) then Err(BufferTooShort)
    else if !hex then Ok(buf[offset..offset + 8])
    else
      var b := ReadHex(buf[offset..offset + 16]);
      if b.None? then Err(InvalidBitmap) else Ok(b.value)
  }

  function ReadBitmap(buf: Bytes, offset: nat, hex: bool): (r: Result<Header>)
    ensures r.Ok? ==> IsBitmap(r.value.bitmap) && (r.value.last == 64 || r.value.last == 128) && r.value.offset <= |buf|
  {
    hide ReadEight, TestBit;
    var width := if hex then 16 else 8;
    var first := ReadEight(buf, offset, hex);
    if first.Err? then Err(first.error)
    else if !TestBit(first.value[0], 7) then Ok(Header(first.value + seq(8, _ => 0), offset + width, 64))
    else
      var second := ReadEight(buf, offset + width, hex);
      if second.Err? then Err(second.error) else Ok(Header(first.value + second.value, offset + 2 * width, 128))
  }

  /** The fields from n on. */
  function ParseFields(w: Wire, bitmap: Bytes, n: nat, last: nat, buf: Bytes, offset: nat,
                       acc: map<nat, Bytes>): Result<map<nat, Bytes>>
    requires IsBitmap(bitmap) && 2 <= n && last <= 128
    decreases 129 - n
  {
    hide BitAt, DecodeField;
    if n > last then Ok(acc)
    else if !BitAt(bitmap, n) then ParseFields(w, bitmap, n + 1, last, buf, offset, acc)
    else
      var f := DecodeField(w, n, buf, offset);
      if f.Err? then Err(f.error) else ParseFields(w, bitmap, n + 1, last, buf, f.value.next, acc[n := f.value.data])
  }

  function ParseBody(w: Wire, mti: Bytes, buf: Bytes, header: Result<Header>): Result<Message>
    requires header.Ok? ==> IsBitmap(header.value.bitmap) && header.value.last <= 128
  {
    hide ParseFields;
    if header.Err? then Err(header.error)
    else
      var fields := ParseFields(w, header.value.bitmap, 2, header.value.last, buf, header.value.offset, map[]);
      if fields.Err? then Err(fields.error) else Ok(Message(mti, fields.value))
  }

  predicate DigitMti(mti: Bytes)
  {
    |mti| == 4 && forall i | 0 <= i < 4 :: IsDigit(mti[i])
  }

  /** The guess parse makes: sixteen hexadecimal characters after the type are a hex bitmap. */
  predicate LooksHex(buf: Bytes)
  {
    |buf| >= 20 && AllHex(buf[4..20])
  }

  function Parse(buf: Bytes): Result<Message>
  {
    hide ReadBitmap, ParseBody, DigitMti, LooksHex;
    if |buf| < 12 then Err(BufferTooShort)
    else if !DigitMti(buf[..4]) then Err(InvalidMtiFormat)
    else ParseBody(Ascii, buf[..4], buf, ReadBitmap(buf, 4, LooksHex(buf)))
  }

  /** unpack_bcd of the two type bytes: a low nibble F ends the text early. */
  function UnpackMti(a: Byte, b: Byte): Result<Bytes>
  {
    if a / 16 > 9 then Err(BcdError)
    else if a % 16 == 15 then Err(MtiPanic)
    else if a % 16 > 9 || b / 16 > 9 then Err(BcdError)
    else if b % 16 == 15 then Err(MtiPanic)
    else if b % 16 > 9 then Err(BcdError)
    else Ok([Digit(a / 16), Digit(a % 16), Digit(b / 16), Digit(b % 16)])
  }

  function ParseBcd(buf: Bytes): Result<Message>
  {
    hide ReadBitmap, ParseBody, UnpackMti;
    if |buf| < 10 then Err(BufferTooShort)
    else
      var mti := UnpackMti(buf[0], buf[1]);
      if mti.Err? then Err(mti.error) else ParseBody(Bcd, mti.value, buf, ReadBitmap(buf, 2, false))
  }

  // ----- serializing

  /** The encoded fields from n on, in ascending order. */
  function EncodeFields(w: Wire, fields: map<nat, Bytes>, n: nat): Bytes
    requires 2 <= n <= 129
    decreases 129 - n
  {
    hide EncodeField;
    if n > 128 then []
    else (if n in fields then EncodeField(w, n, fields[n]) else []) + EncodeFields(w, fields, n + 1)
  }

  function BitmapBytes(fields: map<nat, Bytes>): (r: Bytes)
    ensures |r| == if HasSecondary(fields) then 16 else 8
  {
    hide BitmapOf, HasSecondary;
    BitmapOf(fields)[..if HasSecondary(fields) then 16 else 8]
  }

  function SerializeHex(m: Message): Bytes
  {
    hide BitmapBytes, EncodeFields;
    m.mti + HexBytes(BitmapBytes(m.fields)) + EncodeFields(Ascii, m.fields, 2)
  }

  function SerializeBinary(m: Message): Bytes
  {
    hide BitmapBytes, EncodeFields;
    m.mti + BitmapBytes(m.fields) + EncodeFields(Ascii, m.fields, 2)
  }

  /** Two digits in one byte. */
  function BcdDigits(a: Byte, b: Byte): Byte
    requires IsDigit(a) && IsDigit(b)
  {
    (a - 48) * 16 + (b - 48)
  }

  /** One white-space character in UTF-8. */
  predicate IsBlank(b: Bytes)
  {
    || (|b| == 1 && (9 <= b[0] <= 13 || b[0] == 32))
    || (|b| == 2 && b[0] == 0xC2 && (b[1] == 0x85 || b[1] == 0xA0))
    || (|b| == 3 && b[0] == 0xE1 && b[1] == 0x9A && b[2] == 0x80)
    || (|b| == 3 && b[0] == 0xE2 && b[1] == 0x80 && (0x80 <= b[2] <= 0x8A || b[2] in {0xA8, 0xA9, 0xAF}))
    || (|b| == 3 && b[0] == 0xE2 && b[1] == 0x81 && b[2] == 0x9F)
    || (|b| == 3 && b[0] == 0xE3 && b[1] == 0x80 && b[2] == 0x80)
  }

  /** The length of the blank at the start, 0 if there is none. */
  function BlankFront(b: Bytes): (k: nat)
    ensures k <= |b|
  {
    if |b| >= 1 && IsBlank(b[..1]) then 1
    else if |b| >= 2 && IsBlank(b[..2]) then 2
    else if |b| >= 3 && IsBlank(b[..3]) then 3
    else 0
  }

  /** The last k bytes. */
  function Ending(b: Bytes, k: nat): Bytes
    requires k <= |b|
  {
    b[|b| - k..]
  }

  /** The length of the blank at the end, 0 if there is none. */
  function BlankBack(b: Bytes): (k: nat)
    ensures k <= |b|
  {
    hide Ending;
    if |b| >= 1 && IsBlank(Ending(b, 1)) then 1
    else if |b| >= 2 && IsBlank(Ending(b, 2)) then 2
    else if |b| >= 3 && IsBlank(Ending(b, 3)) then 3
    else 0
  }

  function TrimStart(b: Bytes): Bytes
  {
    hide BlankFront;
    var k := BlankFront(b);
    if k == 0 then b else TrimStart(b[k..])
  }

  function TrimEnd(b: Bytes): Bytes
  {
    hide BlankBack;
    var k := BlankBack(b);
    if k == 0 then b else TrimEnd(b[..|b| - k])
  }

  /** A UTF-8 character of two or of four bytes. */
  predicate LoneChar(b: Bytes)
  {
    || (|b| == 2 && 0xC2 <= b[0] <= 0xDF && Trail(b[1]))
    || (|b| == 4 && 0xF0 <= b[0] <= 0xF4 && Trail(b[1]) && Trail(b[2]) && Trail(b[3])
        && (b[0] == 0xF0 ==> b[1] >= 0x90) && (b[0] == 0xF4 ==> b[1] <= 0x8F))
  }

  predicate Trail(c: Byte) { 0x80 <= c <= 0xBF }

  /**
   * Characters are taken two by two but counted in bytes, so one character of two or four bytes at
   * the end is left over and dropped unseen.
   */
  function WithoutLone(d: Bytes): Bytes
  {
    hide Ending;
    if |d| >= 2 && LoneChar(Ending(d, 2)) then d[..|d| - 2]
    else if |d| >= 4 && LoneChar(Ending(d, 4)) then d[..|d| - 4]
    else d
  }

  function Prepend(front: Bytes, r: Option<Bytes>): Option<Bytes>
  {
    if r.None? then None else Some(front + r.value)
  }

  /** Digits two by two; None at a character that is not a digit. */
  function PackPairs(d: Bytes): Option<Bytes>
    requires |d| % 2 == 0
  {
    if d == [] then Some([])
    else if IsDigit(d[0]) && IsDigit(d[1]) then Prepend([BcdDigits(d[0], d[1])], PackPairs(d[2..]))
    else None
  }

  /** Digits two by two, an odd first digit alone. */
  function PackDigits(d: Bytes): Option<Bytes>
  {
    hide PackPairs, Prepend;
    if |d| % 2 == 0 then PackPairs(d)
    else if IsDigit(d[0]) then Prepend(FirstDigit(d[0]), PackPairs(d[1..]))
    else None
  }

  /** pack_bcd_left_padded: blanks around the text and a left-over character are dropped. */
  function PackBcd(text: Bytes): Option<Bytes>
  {
    hide PackDigits, TrimStart, TrimEnd, WithoutLone;
    PackDigits(WithoutLone(TrimEnd(TrimStart(text))))
  }

  function SerializeBcd(m: Message): Option<Bytes>
  {
    hide BitmapBytes, EncodeFields, PackBcd;
    var mti := PackBcd(m.mti);
    if mti.None? then None else Some(mti.value + BitmapBytes(m.fields) + EncodeFields(Bcd, m.fields, 2))
  }

  /** Four digits pack into two bytes. */
  lemma PackFourDigits(mti: Bytes)
    requires DigitMti(mti)
    ensures PackBcd(mti) == Some([BcdDigits(mti[0], mti[1]), BcdDigits(mti[2], mti[3])])
  {
    hide BcdDigits;
    assert TrimStart(mti) == mti && TrimEnd(mti) == mti && WithoutLone(mti) == mti;
    var rest := mti[2..];
    assert rest[2..] == [] && rest[0] == mti[2] && rest[1] == mti[3];
    var a, b := BcdDigits(mti[0], mti[1]), BcdDigits(mti[2], mti[3]);
    assert PackPairs(rest) == Prepend([b], PackPairs([]));
    assert [a] + ([b] + []) == [a, b];
  }

  // ----- round trips

  /** A message the wire can carry: digits in its type, fields 2 to 128, payloads that fit. */
  predicate WellFormed(m: Message)
  {
    DigitMti(m.mti) && FieldsFit(m.fields, 128)
  }

  /** Every field lies in 2 .. last and carries a payload it can carry unchanged. */
  predicate FieldsFit(fields: map<nat, Bytes>, last: nat)
  {
    forall n | n in fields :: 2 <= n <= last && FieldOk(n, fields[n])
  }

  function Below(fields: map<nat, Bytes>, n: nat): map<nat, Bytes>
  {
    map k | k in fields && k < n :: fields[k]
  }

  /** The flags say which fields follow. */
  ghost predicate Flags(bitmap: Bytes, fields: map<nat, Bytes>, last: nat)
  {
    IsBitmap(bitmap) && last <= 128
      && forall k: nat {:trigger BitAt(bitmap, k)} | 2 <= k <= last :: BitAt(bitmap, k) <==> k in fields
  }

  lemma {:induction false} NothingBeyond(w: Wire, fields: map<nat, Bytes>, n: nat, last: nat)
    requires 2 <= n <= 129 && n > last && FieldsFit(fields, last)
    ensures EncodeFields(w, fields, n) == []
    decreases 129 - n
  {
    hide EncodeField, FieldOk;
    if n <= 128 { NothingBeyond(w, fields, n + 1, last); }
  }

  /** Parsing undoes encoding, from field n on. */
  lemma {:induction false} FieldsRoundTrip(w: Wire, fields: map<nat, Bytes>, bitmap: Bytes, n: nat, last: nat,
                                           before: Bytes)
    requires 2 <= n <= 129 && n <= last + 1 && FieldsFit(fields, last) && Flags(bitmap, fields, last)
    ensures ParseFields(w, bitmap, n, last, before + EncodeFields(w, fields, n), |before|, Below(fields, n))
            == Ok(fields)
    decreases 129 - n
  {
    hide EncodeField, DecodeField, FieldOk, BitAt;
    var buf := before + EncodeFields(w, fields, n);
    if n > last {
      NothingBeyond(w, fields, n, last);
      assert Below(fields, n) == fields;
    } else if n in fields {
      assert BitAt(bitmap, n);
      var e, rest := EncodeField(w, n, fields[n]), EncodeFields(w, fields, n + 1);
      assert buf == before + e + rest;
      FieldRoundTrip(w, n, fields[n], before, rest);
      FieldsRoundTrip(w, fields, bitmap, n + 1, last, before + e);
      assert Below(fields, n)[n := fields[n]] == Below(fields, n + 1);
    } else {
      assert !BitAt(bitmap, n);
      FieldsRoundTrip(w, fields, bitmap, n + 1, last, before);
      assert EncodeFields(w, fields, n) == EncodeFields(w, fields, n + 1);
      assert Below(fields, n) == Below(fields, n + 1);
    }
  }

  /** The bitmap bytes read back: the same flags, and as many fields as they can flag. */
  lemma BitmapRoundTrip(fields: map<nat, Bytes>, before: Bytes, after: Bytes, hex: bool)
    requires FieldsFit(fields, 128)
    ensures var shown := if hex then HexBytes(BitmapBytes(fields)) else BitmapBytes(fields);
            var h := ReadBitmap(before + shown + after, |before|, hex);
            && h.Ok? && h.value.offset == |before| + |shown|
            && FieldsFit(fields, h.value.last) && Flags(h.value.bitmap, fields, h.value.last) && 64 <= h.value.last
  {
    hide BitAt, TestBit, BitmapOf, FieldOk, ReadHex, HexBytes, HasSecondary;
    var b := BitmapBytes(fields);
    var shown := if hex then HexBytes(b) else b;
    var buf := before + shown + after;
    var full := BitmapOf(fields);
    SecondaryMeaning(fields);
    FlagOfFirst(fields);
    FlagsOf(fields);
    if HasSecondary(fields) {
      assert full == full[..8] + full[8..] && b == full;
      EightRead(full[..8], before, shown, after, full[8..], hex);
    } else {
      assert b == full[..8] + [];
      EightRead(full[..8], before, shown, after, [], hex);
      FlagsOfFirstHalf(fields, full[..8] + seq(8, _ => 0));
    }
  }

  lemma SecondaryMeaning(fields: map<nat, Bytes>)
    requires FieldsFit(fields, 128)
    ensures !HasSecondary(fields) ==> FieldsFit(fields, 64)
  {
    hide FieldOk;
  }

  lemma FlagOfFirst(fields: map<nat, Bytes>)
    ensures TestBit(BitmapOf(fields)[0], 7) <==> HasSecondary(fields)
  {
    hide BitmapOf, HasSecondary, TestBit;
    BitmapTests(fields, 1);
  }

  lemma FlagsOf(fields: map<nat, Bytes>)
    ensures Flags(BitmapOf(fields), fields, 128)
  {
    hide BitmapOf, BitAt;
    forall k: nat | 2 <= k <= 128 ensures BitAt(BitmapOf(fields), k) <==> k in fields { BitmapTests(fields, k); }
  }

  /** The first eight bytes decide the first 64 fields. */
  lemma FlagsOfFirstHalf(fields: map<nat, Bytes>, bitmap: Bytes)
    requires IsBitmap(bitmap) && bitmap[..8] == BitmapOf(fields)[..8]
    ensures Flags(bitmap, fields, 64)
  {
    hide BitmapOf, TestBit;
    FlagsOf(fields);
    forall k: nat | 2 <= k <= 64
      ensures BitAt(bitmap, k) <==> k in fields
    {
      var i := (k - 1) / 8;
      assert bitmap[..8][i] == bitmap[i] && BitmapOf(fields)[..8][i] == BitmapOf(fields)[i];
      assert BitAt(BitmapOf(fields), k) <==> k in fields;
    }
  }

  /** Both halves of a bitmap, read where they stand. */
  lemma EightRead(first: Bytes, before: Bytes, shown: Bytes, after: Bytes, second: Bytes, hex: bool)
    requires |first| == 8 && (|second| == 8 || |second| == 0)
    requires shown == if hex then HexBytes(first + second) else first + second
    ensures var buf := before + shown + after; var width := if hex then 16 else 8;
            && ReadEight(buf, |before|, hex) == Ok(first)
            && (|second| == 8 ==> ReadEight(buf, |before| + width, hex) == Ok(second))
            && |shown| == width + (if hex then 2 * |second| else |second|)
  {
    hide ReadHex, HexBytes;
    var buf := before + shown + after;
    if hex {
      HexConcat(first, second);
      HexRoundTrip(first);
      HexRoundTrip(second);
      assert buf[|before|..|before| + 16] == HexBytes(first);
      if |second| == 8 { assert buf[|before| + 16..|before| + 32] == HexBytes(second); }
    } else {
      assert buf[|before|..|before| + 8] == first;
      if |second| == 8 { assert buf[|before| + 8..|before| + 16] == second; }
    }
  }

  lemma {:induction false} HexConcat(a: Bytes, b: Bytes)
    ensures HexBytes(a + b) == HexBytes(a) + HexBytes(b)
    decreases |a|
  {
    if a == [] {
      assert a + b == b;
    } else {
      assert (a + b)[1..] == a[1..] + b;
      HexConcat(a[1..], b);
    }
  }

  /** What follows the type is parsed back, in any form. */
  lemma BodyRoundTrip(w: Wire, m: Message, before: Bytes, hex: bool)
    requires FieldsFit(m.fields, 128)
    ensures var shown := if hex then HexBytes(BitmapBytes(m.fields)) else BitmapBytes(m.fields);
            var buf := before + shown + EncodeFields(w, m.fields, 2);
            ParseBody(w, m.mti, buf, ReadBitmap(buf, |before|, hex)) == Ok(m)
  {
    hide ReadBitmap, BitmapBytes, EncodeFields, FieldsFit, Flags, HexBytes, ParseFields;
    var shown := if hex then HexBytes(BitmapBytes(m.fields)) else BitmapBytes(m.fields);
    var rest := EncodeFields(w, m.fields, 2);
    var buf := before + shown + rest;
    BitmapRoundTrip(m.fields, before, rest, hex);
    var h := ReadBitmap(buf, |before|, hex).value;
    FieldsRoundTrip(w, m.fields, h.bitmap, 2, h.last, before + shown);
    NoFieldBelow(m.fields, h.last);
  }

  lemma NoFieldBelow(fields: map<nat, Bytes>, last: nat)
    requires FieldsFit(fields, last)
    ensures Below(fields, 2) == map[]
  {
    hide FieldOk;
  }

  /** parse(serialize(m)) = m for every well-formed message. */
  lemma SerializeHexParses(m: Message)
    requires WellFormed(m)
    ensures Parse(SerializeHex(m)) == Ok(m)
  {
    hide ReadBitmap, BitmapBytes, EncodeFields, HexBytes, ParseBody, FieldsFit, HasSecondary;
    var bitmap := BitmapBytes(m.fields);
    var buf := SerializeHex(m);
    BodyRoundTrip(Ascii, m, m.mti, true);
    HexRoundTrip(bitmap);
    assert buf[..4] == m.mti;
    assert buf[4..20] == HexBytes(bitmap)[..16];
  }

  /** parse_as2805_bcd(serialize_as2805_bcd(m)) = m for every well-formed message. */
  lemma SerializeBcdParses(m: Message)
    requires WellFormed(m)
    ensures SerializeBcd(m).Some? && ParseBcd(SerializeBcd(m).value) == Ok(m)
  {
    hide ReadBitmap, BitmapBytes, EncodeFields, HexBytes, ParseBody, FieldsFit, HasSecondary, UnpackMti, BcdDigits,
         PackBcd;
    PackFourDigits(m.mti);
    var a, b := BcdDigits(m.mti[0], m.mti[1]), BcdDigits(m.mti[2], m.mti[3]);
    BodyRoundTrip(Bcd, m, [a, b], false);
    MtiRoundTrip(m.mti);
  }

  lemma MtiRoundTrip(mti: Bytes)
    requires DigitMti(mti)
    ensures UnpackMti(BcdDigits(mti[0], mti[1]), BcdDigits(mti[2], mti[3])) == Ok(mti)
  {
    hide BcdDigits;
    PairOfDigits(mti[0], mti[1]);
    PairOfDigits(mti[2], mti[3]);
    assert mti == [mti[0], mti[1], mti[2], mti[3]];
  }

  lemma PairOfDigits(a: Byte, b: Byte)
    requires IsDigit(a) && IsDigit(b)
    ensures BcdDigits(a, b) / 16 == a - 48 && BcdDigits(a, b) % 16 == b - 48
  {
    Congruence.DivModUnique(BcdDigits(a, b), a - 48, b - 48, 16);
  }

  /**
   * With a binary bitmap parse undoes serialize whenever its guess is right, that is, when the
   * sixteen bytes after the type do not all look like hexadecimal characters.
   */
  lemma SerializeBinaryParses(m: Message)
    requires WellFormed(m) && !LooksHex(SerializeBinary(m))
    ensures Parse(SerializeBinary(m)) == Ok(m)
  {
    hide ReadBitmap, BitmapBytes, EncodeFields, HexBytes, ParseBody, FieldsFit, HasSecondary, LooksHex;
    BodyRoundTrip(Ascii, m, m.mti, false);
    assert SerializeBinary(m)[..4] == m.mti;
  }

  // ----- what parsing accepts

  lemma {:induction false} ParsedFit(w: Wire, bitmap: Bytes, n: nat, last: nat, buf: Bytes, offset: nat,
                                     acc: map<nat, Bytes>)
    requires IsBitmap(bitmap) && 2 <= n && last <= 128 && FieldsFit(acc, last)
    ensures var r := ParseFields(w, bitmap, n, last, buf, offset, acc); r.Ok? ==> FieldsFit(r.value, last)
    decreases 129 - n
  {
    hide DecodeField, BitAt, FieldOk;
    if n <= last {
      var f := DecodeField(w, n, buf, offset);
      if !BitAt(bitmap, n) {
        ParsedFit(w, bitmap, n + 1, last, buf, offset, acc);
      } else if f.Ok? {
        DecodedOk(w, n, buf, offset);
        ParsedFit(w, bitmap, n + 1, last, buf, f.value.next, acc[n := f.value.data]);
      }
    }
  }

  lemma ParsedBodyFits(w: Wire, mti: Bytes, buf: Bytes, offset: nat, hex: bool)
    ensures var r := ParseBody(w, mti, buf, ReadBitmap(buf, offset, hex));
            r.Ok? ==> r.value.mti == mti && FieldsFit(r.value.fields, 128)
  {
    hide ReadBitmap, ParseFields, FieldOk;
    var h := ReadBitmap(buf, offset, hex);
    if h.Ok? {
      assert FieldsFit(map[], h.value.last);
      ParsedFit(w, h.value.bitmap, 2, h.value.last, buf, h.value.offset, map[]);
    }
  }

  /** Whatever parse accepts is well-formed, so serializing and parsing it again changes nothing. */
  lemma ParseStable(buf: Bytes)
    ensures Parse(buf).Ok? ==> WellFormed(Parse(buf).value) && Parse(SerializeHex(Parse(buf).value)) == Parse(buf)
  {
    hide ReadBitmap, ParseBody, FieldsFit, SerializeHex, LooksHex;
    if Parse(buf).Ok? {
      ParsedBodyFits(Ascii, buf[..4], buf, 4, LooksHex(buf));
      SerializeHexParses(Parse(buf).value);
    }
  }

  lemma ParseBcdStable(buf: Bytes)
    ensures ParseBcd(buf).Ok? ==> WellFormed(ParseBcd(buf).value) && SerializeBcd(ParseBcd(buf).value).Some?
                                  && ParseBcd(SerializeBcd(ParseBcd(buf).value).value) == ParseBcd(buf)
  {
    hide ReadBitmap, ParseBody, FieldsFit, SerializeBcd;
    if ParseBcd(buf).Ok? {
      ParsedBodyFits(Bcd, UnpackMti(buf[0], buf[1]).value, buf, 2, false);
      SerializeBcdParses(ParseBcd(buf).value);
    }
  }

  // ----- the loops

  /** The field loop of both parsers. */
  method ParseFieldsLoop(w: Wire, bitmap: Bytes, last: nat, buf: Bytes, start: nat) returns (r: Result<map<nat, Bytes>>)
    requires IsBitmap(bitmap) && 2 <= last <= 128
    ensures r == ParseFields(w, bitmap, 2, last, buf, start, map[])
  {
    hide DecodeField, BitAt;
    var fields: map<nat, Bytes> := map[];
    var offset := start;
    for n: nat := 2 to last + 1
      invariant ParseFields(w, bitmap, 2, last, buf, start, map[])
                == ParseFields(w, bitmap, n, last, buf, offset, fields)
    {
      if BitAt(bitmap, n) {
        var f := DecodeField(w, n, buf, offset);
        if f.Err? { return Err(f.error); }
        fields := fields[n := f.value.data];
        offset := f.value.next;
      }
    }
    return Ok(fields);
  }

  /** parse. */
  method ParseMessage(buf: Bytes) returns (r: Result<Message>)
    ensures r == Parse(buf)
  {
    hide ReadBitmap, ParseFields;
    if |buf| < 12 { return Err(BufferTooShort); }
    var mti := buf[..4];
    for i := 0 to 4
      invariant forall k | 0 <= k < i :: IsDigit(mti[k])
    {
      if !IsDigit(mti[i]) { return Err(InvalidMtiFormat); }
    }
    var header := ReadBitmap(buf, 4, LooksHex(buf));
    if header.Err? { return Err(header.error); }
    var fields := ParseFieldsLoop(Ascii, header.value.bitmap, header.value.last, buf, header.value.offset);
    return if fields.Err? then Err(fields.error) else Ok(Message(mti, fields.value));
  }

  /** parse_as2805_bcd. */
  method ParseBcdMessage(buf: Bytes) returns (r: Result<Message>)
    ensures r == ParseBcd(buf)
  {
    hide ReadBitmap, ParseFields;
    if |buf| < 10 { return Err(BufferTooShort); }
    var mti := UnpackMti(buf[0], buf[1]);
    if mti.Err? { return Err(mti.error); }
    var header := ReadBitmap(buf, 2, false);
    if header.Err? { return Err(header.error); }
    var fields := ParseFieldsLoop(Bcd, header.value.bitmap, header.value.last, buf, header.value.offset);
    return if fields.Err? then Err(fields.error) else Ok(Message(mti.value, fields.value));
  }

  /** The bitmap loop of both serializers. */
  method BuildBitmap(fields: map<nat, Bytes>) returns (bitmap: Bytes)
    ensures bitmap == BitmapBytes(fields)
  {
    hide Mark, HasSecondary;
    var secondary := HasSecondary(fields);
    bitmap := ZeroBitmap();
    if secondary { bitmap := Mark(bitmap, 1); }
    for n: nat := 2 to 129
      invariant IsBitmap(bitmap) && BitmapOf(fields) == MarkFields(fields, n, bitmap)
    {
      if n in fields { bitmap := Mark(bitmap, n); }
    }
    bitmap := bitmap[..if secondary then 16 else 8];
  }

  /** The field loop of both serializers; the map is walked in ascending key order. */
  method EncodeFieldsLoop(w: Wire, fields: map<nat, Bytes>) returns (out: Bytes)
    ensures out == EncodeFields(w, fields, 2)
  {
    hide EncodeField, EncodeFields;
    out := [];
    for n: nat := 2 to 129
      invariant EncodeFields(w, fields, 2) == out + EncodeFields(w, fields, n)
    {
      EncodeStep(w, fields, n, out);
      if n in fields { out := out + EncodeField(w, n, fields[n]); }
    }
    NoMoreFields(w, fields, out);
  }

  lemma NoMoreFields(w: Wire, fields: map<nat, Bytes>, out: Bytes)
    ensures out + EncodeFields(w, fields, 129) == out
  {}

  lemma EncodeStep(w: Wire, fields: map<nat, Bytes>, n: nat, out: Bytes)
    requires 2 <= n <= 128
    ensures out + EncodeFields(w, fields, n)
            == (if n in fields then out + EncodeField(w, n, fields[n]) else out) + EncodeFields(w, fields, n + 1)
  {
    hide EncodeField;
  }

  /** serialize_internal. */
  method SerializeMessage(m: Message, hex: bool) returns (out: Bytes)
    ensures out == if hex then SerializeHex(m) else SerializeBinary(m)
  {
    hide BitmapBytes, EncodeFields;
    var bitmap := BuildBitmap(m.fields);
    var fields := EncodeFieldsLoop(Ascii, m.fields);
    out := m.mti;
    if hex {
      ghost var shown := HexBytes(bitmap);
      assert bitmap[0..] == bitmap;
      for i := 0 to |bitmap|
        invariant m.mti + HexBytes(bitmap) == out + HexBytes(bitmap[i..])
      {
        assert bitmap[i..][1..] == bitmap[i + 1..];
        out := out + [HexDigit(bitmap[i] / 16), HexDigit(bitmap[i] % 16)];
      }
    } else {
      out := out + bitmap;
    }
    out := out + fields;
  }

  /** pack_bcd_left_padded. */
  method PackBcdLoop(text: Bytes) returns (out: Option<Bytes>)
    ensures out == PackBcd(text)
  {
    hide TrimStart, TrimEnd, WithoutLone, PackDigits;
    out := PackDigitsLoop(WithoutLone(TrimEnd(TrimStart(text))));
  }

  /** What is still to be packed: the last pairs of the text. */
  ghost function Remaining(d: Bytes, pairs: nat): Option<Bytes>
    requires 2 * pairs <= |d|
  {
    PackPairs(d[|d| - 2 * pairs..])
  }

  /** Its loop over the digits. */
  method PackDigitsLoop(digits: Bytes) returns (out: Option<Bytes>)
    ensures out == PackDigits(digits)
  {
    hide BcdDigits, PackDigits, Prepend, Remaining, IsDigit;
    var packed: Bytes := [];
    var pairs := |digits| / 2;
    DigitsStart(digits);
    if |digits| % 2 == 1 {
      if !IsDigit(digits[0]) { return None; }
      packed := FirstDigit(digits[0]);
    }
    while pairs > 0
      invariant 0 <= pairs && 2 * pairs <= |digits|
      invariant PackDigits(digits) == Prepend(packed, Remaining(digits, pairs))
    {
      PairStep(digits, pairs, packed);
      var at := |digits| - 2 * pairs;
      var c1, c2 := digits[at], digits[at + 1];
      if !IsDigit(c1) || !IsDigit(c2) { return None; }
      packed := packed + [BcdDigits(c1, c2)];
      pairs := pairs - 1;
    }
    NoPairs(digits, packed);
    return Some(packed);
  }

  /** A digit alone in its byte. */
  function FirstDigit(c: Byte): Bytes
    requires IsDigit(c)
  {
    [c - 48]
  }

  lemma DigitsStart(d: Bytes)
    ensures |d| % 2 == 0 ==> PackDigits(d) == Prepend([], Remaining(d, |d| / 2))
    ensures |d| % 2 == 1 ==>
              PackDigits(d) == if IsDigit(d[0]) then Prepend(FirstDigit(d[0]), Remaining(d, |d| / 2)) else None
  {
    hide PackPairs, Prepend;
    if |d| % 2 == 0 {
      assert |d| - 2 * (|d| / 2) == 0 && d[0..] == d;
      NothingPrepended(d);
    } else {
      assert |d| - 2 * (|d| / 2) == 1;
    }
  }

  lemma NothingPrepended(d: Bytes)
    requires |d| % 2 == 0
    ensures Prepend([], PackPairs(d)) == PackPairs(d)
  {
    var r := PackPairs(d);
    if r.Some? { assert [] + r.value == r.value; }
  }

  lemma NoPairs(d: Bytes, front: Bytes)
    ensures Prepend(front, Remaining(d, 0)) == Some(front)
  {
    assert d[|d|..] == [] && front + [] == front;
  }

  lemma PairStep(d: Bytes, pairs: nat, front: Bytes)
    requires pairs > 0 && 2 * pairs <= |d|
    ensures var at := |d| - 2 * pairs;
            Prepend(front, Remaining(d, pairs))
            == if IsDigit(d[at]) && IsDigit(d[at + 1])
               then Prepend(front + [BcdDigits(d[at], d[at + 1])], Remaining(d, pairs - 1)) else None
  {
    hide BcdDigits;
    var at := |d| - 2 * pairs;
    assert d[at..][2..] == d[at + 2..];
    if IsDigit(d[at]) && IsDigit(d[at + 1]) {
      var pair, rest := [BcdDigits(d[at], d[at + 1])], PackPairs(d[at + 2..]);
      if rest.Some? { assert front + (pair + rest.value) == (front + pair) + rest.value; }
    }
  }

  /** serialize_as2805_bcd. */
  method SerializeBcdMessage(m: Message) returns (out: Option<Bytes>)
    ensures out == SerializeBcd(m)
  {
    hide BitmapBytes, EncodeFields, PackBcd;
    var mti := PackBcdLoop(m.mti);
    if mti.None? { return None; }
    var bitmap := BuildBitmap(m.fields);
    var fields := EncodeFieldsLoop(Bcd, m.fields);
    return Some(mti.value + bitmap + fields);
  }

  // ----- TCP frames

  /** serialize_tcp_framed: a two-byte big-endian length in front, at most 65535. */
  function Frame(payload: Bytes): Option<Bytes>
  {
    if |payload| > 65535 then None else Some([|payload| / 256, |payload| % 256] + payload)
  }

  /** The length a reader takes from the first two bytes is that of the rest. */
  lemma FrameLength(payload: Bytes)
    ensures Frame(payload).Some? <==> |payload| <= 65535
    ensures Frame(payload).Some? ==> var f := Frame(payload).value;
                                     var high: int, low: int := f[0], f[1];
                                     256 * high + low == |payload| && f[2..] == payload
  {}
}
