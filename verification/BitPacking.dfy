/**
 * Fixed-width packing of solomon-core/src/crypto/packing.rs: 10-bit t1, 4-bit secrets, 13-bit t0
 * and 20-bit z coefficients, written group by group into whole bytes.
 */
module BitPacking {
  import opened Basics
  import opened Congruence
  import opened MlDsaScalar
  import opened MlDsaRounding

  datatype Format = T1 | Secret | T0 | Z

  /** Coefficients per group. */
  function GroupSize(f: Format): (k: nat)
    ensures k > 0
  {
    match f case T1 => 4 case Secret => 2 case T0 => 8 case Z => 2
  }

  /** Bytes per group. */
  function GroupWidth(f: Format): (n: nat)
    ensures n > 0
  {
    match f case T1 => 5 case Secret => 1 case T0 => 13 case Z => 5
  }

  /** Values of one field. */
  function FieldLimit(f: Format): (n: nat)
    ensures n > 0
  {
    match f case T1 => 1024 case Secret => 16 case T0 => 8192 case Z => 1_048_576
  }

  function PolyBytes(f: Format): nat
  {
    match f case T1 => 320 case Secret => 128 case T0 => 416 case Z => 640
  }

  ghost predicate Fields(f: Format, x: seq<int>)
  {
    forall i | 0 <= i < |x| :: 0 <= x[i] < FieldLimit(f)
  }

  // ----- one group

  // A byte shared by two fields holds the upper bits of one below the lower bits of the next.

  /** The bits of w above weight a, reduced to b values: (w >> log2 a) & (b - 1). */
  function Part(w: int, a: int, b: int): (r: int)
    requires a > 0 && b > 0
    ensures 0 <= r < b
  {
    (w / a) % b
  }

  function Bits10(c0: int, c1: int, c2: int, c3: int): seq<Byte>
  {
    hide Part;
    [Part(c0, 1, 256),
     Part(c0, 256, 4) + Part(c1, 1, 64) * 4,
     Part(c1, 64, 16) + Part(c2, 1, 16) * 16,
     Part(c2, 16, 64) + Part(c3, 1, 4) * 64,
     Part(c3, 4, 256)]
  }

  function Bits4(c0: int, c1: int): seq<Byte>
  {
    hide Part;
    [Part(c0, 1, 16) + Part(c1, 1, 16) * 16]
  }

  function Bits13(c0: int, c1: int, c2: int, c3: int, c4: int, c5: int, c6: int, c7: int): seq<Byte>
  {
    hide Part;
    [Part(c0, 1, 256),
     Part(c0, 256, 32) + Part(c1, 1, 8) * 32,
     Part(c1, 8, 256),
     Part(c1, 2048, 4) + Part(c2, 1, 64) * 4,
     Part(c2, 64, 128) + Part(c3, 1, 2) * 128,
     Part(c3, 2, 256),
     Part(c3, 512, 16) + Part(c4, 1, 16) * 16,
     Part(c4, 16, 256),
     Part(c4, 4096, 2) + Part(c5, 1, 128) * 2,
     Part(c5, 128, 64) + Part(c6, 1, 4) * 64,
     Part(c6, 4, 256),
     Part(c6, 1024, 8) + Part(c7, 1, 32) * 8,
     Part(c7, 32, 256)]
  }

  function Bits20(c0: int, c1: int): seq<Byte>
  {
    hide Part;
    [Part(c0, 1, 256),
     Part(c0, 256, 256),
     Part(c0, 65536, 16) + Part(c1, 1, 16) * 16,
     Part(c1, 16, 256),
     Part(c1, 4096, 256)]
  }

  function GroupBytes(f: Format, g: seq<int>): (r: seq<Byte>)
    requires |g| == GroupSize(f)
    ensures |r| == GroupWidth(f)
  {
    match f
    case T1 => Bits10(g[0], g[1], g[2], g[3])
    case Secret => Bits4(g[0], g[1])
    case T0 => Bits13(g[0], g[1], g[2], g[3], g[4], g[5], g[6], g[7])
    case Z => Bits20(g[0], g[1])
  }

  function Words10(b0: int, b1: int, b2: int, b3: int, b4: int): seq<int>
  {
    hide Part;
    [b0 + Part(b1, 1, 4) * 256,
     Part(b1, 4, 64) + Part(b2, 1, 16) * 64,
     Part(b2, 16, 16) + Part(b3, 1, 64) * 16,
     Part(b3, 64, 4) + b4 * 4]
  }

  function Words4(b0: int): seq<int>
  {
    hide Part;
    [Part(b0, 1, 16), Part(b0, 16, 16)]
  }

  function Words13(b0: int, b1: int, b2: int, b3: int, b4: int, b5: int, b6: int, b7: int, b8: int, b9: int,
                   b10: int, b11: int, b12: int): seq<int>
  {
    hide Part;
    [b0 + Part(b1, 1, 32) * 256,
     Part(b1, 32, 8) + b2 * 8 + Part(b3, 1, 4) * 2048,
     Part(b3, 4, 64) + Part(b4, 1, 128) * 64,
     Part(b4, 128, 2) + b5 * 2 + Part(b6, 1, 16) * 512,
     Part(b6, 16, 16) + b7 * 16 + Part(b8, 1, 2) * 4096,
     Part(b8, 2, 128) + Part(b9, 1, 64) * 128,
     Part(b9, 64, 4) + b10 * 4 + Part(b11, 1, 8) * 1024,
     Part(b11, 8, 32) + b12 * 32]
  }

  function Words20(b0: int, b1: int, b2: int, b3: int, b4: int): seq<int>
  {
    hide Part;
    [b0 + b1 * 256 + Part(b2, 1, 16) * 65536,
     Part(b2, 16, 16) + b3 * 16 + b4 * 4096]
  }

  function GroupWords(f: Format, b: seq<Byte>): (r: seq<int>)
    requires |b| == GroupWidth(f)
    ensures |r| == GroupSize(f)
  {
    match f
    case T1 => Words10(b[0], b[1], b[2], b[3], b[4])
    case Secret => Words4(b[0])
    case T0 => Words13(b[0], b[1], b[2], b[3], b[4], b[5], b[6], b[7], b[8], b[9], b[10], b[11], b[12])
    case Z => Words20(b[0], b[1], b[2], b[3], b[4])
  }

  /** The parts of x + y * a + z * m are x, y and z, where m = a * b. */
  lemma Digits(w: int, x: int, y: int, z: int, a: int, b: int, m: int, c: int)
    requires 0 <= x < a && 0 <= y < b && 0 <= z < c && m == a * b && w == x + y * a + z * m
    ensures m > 0 && Part(w, 1, a) == x && Part(w, a, b) == y && Part(w, m, c) == z
  {
    LowDigits(x, y, a, b);
    assert z * m == (z * b) * a by { assert z * (a * b) == (z * b) * a; }
    assert y * a + (z * b) * a == (y + z * b) * a;
    DivModUnique(w, y + z * b, x, a);
    DivModUnique(y + z * b, z, y, b);
    DivModUnique(w, z, x + y * a, m);
    DivModUnique(z, 0, z, c);
  }

  lemma LowDigits(x: int, y: int, a: int, b: int)
    requires 0 <= x < a && 0 <= y < b
    ensures 0 <= x + y * a < a * b
  {
    assert (y + 1) * a <= b * a;
    assert (y + 1) * a == y * a + a && b * a == a * b && 0 <= y * a;
  }

  /** A number is the sum of its parts. */
  lemma Recompose(w: int, a: int, b: int, m: int, c: int)
    requires 0 < a && 0 < b && 0 < c && m == a * b && 0 <= w < m * c
    ensures m > 0 && w == Part(w, 1, a) + Part(w, a, b) * a + Part(w, m, c) * m
  {
    hide Part;
    var q, x := Split(w, a);
    var z, y := Split(q, b);
    LowDigits(x, y, a, b);
    Nested(z, b, y, a);
    QuotientBound(w, x + y * a, z, m, c);
    Digits(w, x, y, z, a, b, m, c);
  }

  lemma Split(w: int, a: int) returns (q: int, x: int)
    requires a > 0
    ensures w == q * a + x && 0 <= x < a
  {
    q, x := w / a, w % a;
  }

  lemma Nested(z: int, b: int, y: int, a: int)
    ensures (z * b + y) * a == z * (a * b) + y * a
  {}

  lemma QuotientBound(w: int, low: int, z: int, m: int, c: int)
    requires 0 <= low < m && w == low + z * m && 0 <= w < m * c
    ensures 0 <= z < c
  {
    MulAtLeast(z, m);
    assert z >= c ==> z * m >= c * m;
    assert c * m == m * c;
  }

  /** A byte shared by two fields gives back both parts. */
  lemma Shared(v: int, low: int, high: int, m: int, n: int)
    requires 0 <= low < m && 0 <= high < n && v == low + high * m
    ensures Part(v, 1, m) == low && Part(v, m, n) == high
  {
    Digits(v, low, high, 0, m, n, m * n, 1);
  }

  lemma Unpack10(c0: int, c1: int, c2: int, c3: int)
    requires 0 <= c0 < 1024 && 0 <= c1 < 1024 && 0 <= c2 < 1024 && 0 <= c3 < 1024
    ensures var b := Bits10(c0, c1, c2, c3); Words10(b[0], b[1], b[2], b[3], b[4]) == [c0, c1, c2, c3]
  {
    hide Part;
    var b := Bits10(c0, c1, c2, c3);
    Recompose(c0, 256, 4, 1024, 1);
    Recompose(c1, 64, 16, 1024, 1);
    Recompose(c2, 16, 64, 1024, 1);
    Recompose(c3, 4, 256, 1024, 1);
    Shared(b[1], Part(c0, 256, 4), Part(c1, 1, 64), 4, 64);
    Shared(b[2], Part(c1, 64, 16), Part(c2, 1, 16), 16, 16);
    Shared(b[3], Part(c2, 16, 64), Part(c3, 1, 4), 64, 4);
  }

  lemma Unpack4(c0: int, c1: int)
    requires 0 <= c0 < 16 && 0 <= c1 < 16
    ensures Words4(Bits4(c0, c1)[0]) == [c0, c1]
  {
    hide Part;
    Recompose(c0, 16, 1, 16, 1);
    Recompose(c1, 16, 1, 16, 1);
    Shared(Bits4(c0, c1)[0], Part(c0, 1, 16), Part(c1, 1, 16), 16, 16);
  }

  lemma Unpack13(c0: int, c1: int, c2: int, c3: int, c4: int, c5: int, c6: int, c7: int)
    requires 0 <= c0 < 8192 && 0 <= c1 < 8192 && 0 <= c2 < 8192 && 0 <= c3 < 8192
    requires 0 <= c4 < 8192 && 0 <= c5 < 8192 && 0 <= c6 < 8192 && 0 <= c7 < 8192
    ensures var b := Bits13(c0, c1, c2, c3, c4, c5, c6, c7);
            Words13(b[0], b[1], b[2], b[3], b[4], b[5], b[6], b[7], b[8], b[9], b[10], b[11], b[12])
            == [c0, c1, c2, c3, c4, c5, c6, c7]
  {
    hide Part;
    var b := Bits13(c0, c1, c2, c3, c4, c5, c6, c7);
    Recompose(c0, 256, 32, 8192, 1);
    Recompose(c1, 8, 256, 2048, 4);
    Recompose(c2, 64, 128, 8192, 1);
    Recompose(c3, 2, 256, 512, 16);
    Recompose(c4, 16, 256, 4096, 2);
    Recompose(c5, 128, 64, 8192, 1);
    Recompose(c6, 4, 256, 1024, 8);
    Recompose(c7, 32, 256, 8192, 1);
    Shared(b[1], Part(c0, 256, 32), Part(c1, 1, 8), 32, 8);
    Shared(b[3], Part(c1, 2048, 4), Part(c2, 1, 64), 4, 64);
    Shared(b[4], Part(c2, 64, 128), Part(c3, 1, 2), 128, 2);
    Shared(b[6], Part(c3, 512, 16), Part(c4, 1, 16), 16, 16);
    Shared(b[8], Part(c4, 4096, 2), Part(c5, 1, 128), 2, 128);
    Shared(b[9], Part(c5, 128, 64), Part(c6, 1, 4), 64, 4);
    Shared(b[11], Part(c6, 1024, 8), Part(c7, 1, 32), 8, 32);
  }

  lemma Unpack20(c0: int, c1: int)
    requires 0 <= c0 < 1_048_576 && 0 <= c1 < 1_048_576
    ensures var b := Bits20(c0, c1); Words20(b[0], b[1], b[2], b[3], b[4]) == [c0, c1]
  {
    hide Part;
    Recompose(c0, 256, 256, 65536, 16);
    Recompose(c1, 16, 256, 4096, 256);
    Shared(Bits20(c0, c1)[2], Part(c0, 65536, 16), Part(c1, 1, 16), 16, 16);
  }

  /** Unpacking a packed group gives its fields back. */
  lemma GroupUnpackPack(f: Format, g: seq<int>)
    requires |g| == GroupSize(f) && Fields(f, g)
    ensures GroupWords(f, GroupBytes(f, g)) == g
  {
    hide Words10, Words4, Words13, Words20, Bits10, Bits4, Bits13, Bits20;
    match f
    case T1 => Unpack10(g[0], g[1], g[2], g[3]);
    case Secret => Unpack4(g[0], g[1]);
    case T0 => Unpack13(g[0], g[1], g[2], g[3], g[4], g[5], g[6], g[7]);
    case Z => Unpack20(g[0], g[1]);
  }

  /** A byte is its two parts. */
  lemma ByteParts(b: Byte, m: int, n: int)
    requires m > 0 && n > 0 && m * n == 256
    ensures b == Part(b, 1, m) + Part(b, m, n) * m
  {
    Recompose(b, m, n, 256, 1);
  }

  lemma Pack10(b0: Byte, b1: Byte, b2: Byte, b3: Byte, b4: Byte)
    ensures var w := Words10(b0, b1, b2, b3, b4);
            && (forall i | 0 <= i < 4 :: 0 <= w[i] < 1024) && Bits10(w[0], w[1], w[2], w[3]) == [b0, b1, b2, b3, b4]
  {
    hide Part;
    var w := Words10(b0, b1, b2, b3, b4);
    Digits(w[0], b0, Part(b1, 1, 4), 0, 256, 4, 1024, 1);
    Digits(w[1], Part(b1, 4, 64), Part(b2, 1, 16), 0, 64, 16, 1024, 1);
    Digits(w[2], Part(b2, 16, 16), Part(b3, 1, 64), 0, 16, 64, 1024, 1);
    Digits(w[3], Part(b3, 64, 4), b4, 0, 4, 256, 1024, 1);
    ByteParts(b1, 4, 64);
    ByteParts(b2, 16, 16);
    ByteParts(b3, 64, 4);
  }

  lemma Pack4(b0: Byte)
    ensures var w := Words4(b0);
            && 0 <= w[0] < 16 && 0 <= w[1] < 16 && Bits4(w[0], w[1]) == [b0]
  {
    hide Part;
    var w := Words4(b0);
    Digits(w[0], w[0], 0, 0, 16, 1, 16, 1);
    Digits(w[1], w[1], 0, 0, 16, 1, 16, 1);
    ByteParts(b0, 16, 16);
  }

  lemma Pack13(b0: Byte, b1: Byte, b2: Byte, b3: Byte, b4: Byte, b5: Byte, b6: Byte, b7: Byte, b8: Byte, b9: Byte,
               b10: Byte, b11: Byte, b12: Byte)
    ensures var w := Words13(b0, b1, b2, b3, b4, b5, b6, b7, b8, b9, b10, b11, b12);
            && (forall i | 0 <= i < 8 :: 0 <= w[i] < 8192)
            && Bits13(w[0], w[1], w[2], w[3], w[4], w[5], w[6], w[7])
               == [b0, b1, b2, b3, b4, b5, b6, b7, b8, b9, b10, b11, b12]
  {
    hide Part;
    var w := Words13(b0, b1, b2, b3, b4, b5, b6, b7, b8, b9, b10, b11, b12);
    Digits(w[0], b0, Part(b1, 1, 32), 0, 256, 32, 8192, 1);
    Digits(w[1], Part(b1, 32, 8), b2, Part(b3, 1, 4), 8, 256, 2048, 4);
    Digits(w[2], Part(b3, 4, 64), Part(b4, 1, 128), 0, 64, 128, 8192, 1);
    Digits(w[3], Part(b4, 128, 2), b5, Part(b6, 1, 16), 2, 256, 512, 16);
    Digits(w[4], Part(b6, 16, 16), b7, Part(b8, 1, 2), 16, 256, 4096, 2);
    Digits(w[5], Part(b8, 2, 128), Part(b9, 1, 64), 0, 128, 64, 8192, 1);
    Digits(w[6], Part(b9, 64, 4), b10, Part(b11, 1, 8), 4, 256, 1024, 8);
    Digits(w[7], Part(b11, 8, 32), b12, 0, 32, 256, 8192, 1);
    ByteParts(b1, 32, 8);
    ByteParts(b3, 4, 64);
    ByteParts(b4, 128, 2);
    ByteParts(b6, 16, 16);
    ByteParts(b8, 2, 128);
    ByteParts(b9, 64, 4);
    ByteParts(b11, 8, 32);
  }

  lemma Pack20(b0: Byte, b1: Byte, b2: Byte, b3: Byte, b4: Byte)
    ensures var w := Words20(b0, b1, b2, b3, b4);
            && 0 <= w[0] < 1_048_576 && 0 <= w[1] < 1_048_576 && Bits20(w[0], w[1]) == [b0, b1, b2, b3, b4]
  {
    hide Part;
    var w := Words20(b0, b1, b2, b3, b4);
    Digits(w[0], b0, b1, Part(b2, 1, 16), 256, 256, 65536, 16);
    Digits(w[1], Part(b2, 16, 16), b3, b4, 16, 256, 4096, 256);
    ByteParts(b2, 16, 16);
  }

  /** Packing an unpacked group gives its bytes back: every byte string is a packing. */
  lemma GroupPackUnpack(f: Format, b: seq<Byte>)
    requires |b| == GroupWidth(f)
    ensures Fields(f, GroupWords(f, b)) && GroupBytes(f, GroupWords(f, b)) == b
  {
    hide Words10, Words4, Words13, Words20, Bits10, Bits4, Bits13, Bits20;
    match f
    case T1 => Pack10(b[0], b[1], b[2], b[3], b[4]);
    case Secret => Pack4(b[0]);
    case T0 => Pack13(b[0], b[1], b[2], b[3], b[4], b[5], b[6], b[7], b[8], b[9], b[10], b[11], b[12]);
    case Z => Pack20(b[0], b[1], b[2], b[3], b[4]);
  }

  // ----- all groups

  function PackFields(f: Format, x: seq<int>): seq<Byte>
  {
    var k := GroupSize(f);
    if |x| < k then [] else GroupBytes(f, x[..k]) + PackFields(f, x[k..])
  }

  function UnpackFields(f: Format, b: seq<Byte>): seq<int>
  {
    var n := GroupWidth(f);
    if |b| < n then [] else GroupWords(f, b[..n]) + UnpackFields(f, b[n..])
  }

  lemma {:induction false} FieldsRoundTrip(f: Format, x: seq<int>, groups: nat)
    requires |x| == groups * GroupSize(f) && Fields(f, x)
    ensures |PackFields(f, x)| == groups * GroupWidth(f) && UnpackFields(f, PackFields(f, x)) == x
    decreases groups
  {
    hide GroupBytes, GroupWords, GroupSize, GroupWidth, Fields, PackFields, UnpackFields;
    NoGroups(f);
    if groups == 0 {
      assert x == [];
    } else {
      SplitFirst(groups, GroupSize(f));
      SplitFirst(groups, GroupWidth(f));
      var g, rest := x[..GroupSize(f)], x[GroupSize(f)..];
      SplitFields(f, x);
      FieldsRoundTrip(f, rest, groups - 1);
      GroupUnpackPack(f, g);
      PackFirst(f, x);
      UnpackFirst(f, PackFields(f, x), GroupBytes(f, g), PackFields(f, rest));
    }
  }

  lemma NoGroups(f: Format)
    ensures PackFields(f, []) == [] && UnpackFields(f, []) == [] && Fields(f, [])
  {}

  lemma SplitFields(f: Format, x: seq<int>)
    requires |x| >= GroupSize(f) && Fields(f, x)
    ensures Fields(f, x[..GroupSize(f)]) && Fields(f, x[GroupSize(f)..])
    ensures x == x[..GroupSize(f)] + x[GroupSize(f)..]
  {
    hide GroupSize, FieldLimit;
  }

  lemma JoinFields(f: Format, x: seq<int>, y: seq<int>)
    requires Fields(f, x) && Fields(f, y)
    ensures Fields(f, x + y)
  {
    hide FieldLimit;
  }

  lemma PackFirst(f: Format, x: seq<int>)
    requires |x| >= GroupSize(f)
    ensures PackFields(f, x) == GroupBytes(f, x[..GroupSize(f)]) + PackFields(f, x[GroupSize(f)..])
  {
    hide GroupBytes, GroupSize;
  }

  lemma UnpackFirst(f: Format, b: seq<Byte>, h: seq<Byte>, rest: seq<Byte>)
    requires |h| == GroupWidth(f) && b == h + rest
    ensures UnpackFields(f, b) == GroupWords(f, h) + UnpackFields(f, rest)
  {
    hide GroupWords, GroupWidth;
    assert b[..GroupWidth(f)] == h && b[GroupWidth(f)..] == rest;
  }

  lemma {:induction false} BytesRoundTrip(f: Format, b: seq<Byte>, groups: nat)
    requires |b| == groups * GroupWidth(f)
    ensures |UnpackFields(f, b)| == groups * GroupSize(f) && Fields(f, UnpackFields(f, b))
    ensures PackFields(f, UnpackFields(f, b)) == b
    decreases groups
  {
    hide GroupBytes, GroupWords, GroupSize, GroupWidth, Fields, PackFields, UnpackFields;
    NoGroups(f);
    if groups == 0 {
      assert b == [];
    } else {
      SplitFirst(groups, GroupSize(f));
      SplitFirst(groups, GroupWidth(f));
      var h, rest := b[..GroupWidth(f)], b[GroupWidth(f)..];
      assert b == h + rest;
      BytesRoundTrip(f, rest, groups - 1);
      GroupPackUnpack(f, h);
      UnpackFirst(f, b, h, rest);
      var g, y := GroupWords(f, h), UnpackFields(f, rest);
      JoinFields(f, g, y);
      assert (g + y)[..GroupSize(f)] == g && (g + y)[GroupSize(f)..] == y;
      PackFirst(f, g + y);
    }
  }

  // ----- coefficients

  /** The field a coefficient is stored in; masking to the field width wraps. */
  function FieldOf(f: Format, c: Zq): (r: int)
    ensures 0 <= r < FieldLimit(f)
  {
    match f
    case T1 => ToSigned(c) % 1024
    case Secret => (4 - ToSigned(c)) % 16
    case T0 => (4096 - ToSigned(c)) % 8192
    case Z => (GAMMA1 - ToSigned(c)) % 1_048_576
  }

  function CoeffOf(f: Format, x: int): Zq
    requires 0 <= x < FieldLimit(f)
  {
    match f
    case T1 => ToCanonical(x)
    case Secret => ToCanonical(4 - x)
    case T0 => ToCanonical(4096 - x)
    case Z => ToCanonical(GAMMA1 - x)
  }

  /** The coefficients a format can represent. */
  predicate Representable(f: Format, c: Zq)
  {
    match f
    case T1 => 0 <= ToSigned(c) < 1024
    case Secret => -11 <= ToSigned(c) <= 4
    case T0 => -4095 <= ToSigned(c) <= 4096
    case Z => -GAMMA1 < ToSigned(c) <= GAMMA1
  }

  /** A remainder is the number itself exactly when that lies below the modulus. */
  lemma Wrapped(v: int, m: int)
    requires m > 0
    ensures v % m == v <==> 0 <= v < m
  {}

  /** A canonical coefficient and its centred value determine each other. */
  lemma SameCentred(c: Zq, t: int)
    requires -(Q - 1) / 2 <= t <= (Q - 1) / 2
    ensures ToCanonical(t) == c <==> t == ToSigned(c)
  {}

  /** A coefficient survives exactly when it is representable. */
  lemma CoeffRoundTrip(f: Format, c: Zq)
    ensures CoeffOf(f, FieldOf(f, c)) == c <==> Representable(f, c)
  {
    hide ToSigned, ToCanonical;
    var s := ToSigned(c);
    match f
    case T1 =>
      SameCentred(c, s % 1024);
      Wrapped(s, 1024);
    case Secret =>
      SameCentred(c, 4 - (4 - s) % 16);
      Wrapped(4 - s, 16);
    case T0 =>
      SameCentred(c, 4096 - (4096 - s) % 8192);
      Wrapped(4096 - s, 8192);
    case Z =>
      SameCentred(c, GAMMA1 - (GAMMA1 - s) % 1_048_576);
      Wrapped(GAMMA1 - s, 1_048_576);
  }

  lemma FieldRoundTrip(f: Format, x: int)
    requires 0 <= x < FieldLimit(f)
    ensures FieldOf(f, CoeffOf(f, x)) == x && Representable(f, CoeffOf(f, x))
  {
    hide ToSigned, ToCanonical;
    Wrapped(x, FieldLimit(f));
    match f
    case T1 => SignedRoundTrip(x);
    case Secret => SignedRoundTrip(4 - x);
    case T0 => SignedRoundTrip(4096 - x);
    case Z => SignedRoundTrip(GAMMA1 - x);
  }

  function FieldsOf(f: Format, p: seq<Zq>): (r: seq<int>)
    ensures |r| == |p| && forall i | 0 <= i < |p| :: r[i] == FieldOf(f, p[i])
  {
    hide FieldOf;
    seq(|p|, i requires 0 <= i < |p| => FieldOf(f, p[i]))
  }

  function CoeffsOf(f: Format, x: seq<int>): (r: seq<Zq>)
    requires forall i | 0 <= i < |x| :: 0 <= x[i] < FieldLimit(f)
    ensures |r| == |x| && forall i | 0 <= i < |x| :: r[i] == CoeffOf(f, x[i])
  {
    hide CoeffOf;
    seq(|x|, i requires 0 <= i < |x| => CoeffOf(f, x[i]))
  }

  // ----- polynomials

  function PackPoly(f: Format, p: seq<Zq>): seq<Byte>
    requires |p| == N
  {
    PackFields(f, FieldsOf(f, p))
  }

  function UnpackPoly(f: Format, b: seq<Byte>): (p: seq<Zq>)
    requires |b| == PolyBytes(f)
    ensures |p| == N && forall i | 0 <= i < N :: Representable(f, p[i])
  {
    UnpackedShape(f, b);
    var x := UnpackFields(f, b);
    CoeffsOf(f, x)
  }

  ghost function Groups(f: Format): nat
  {
    match f case T1 => 64 case Secret => 128 case T0 => 32 case Z => 128
  }

  lemma UnpackedShape(f: Format, b: seq<Byte>)
    requires |b| == PolyBytes(f)
    ensures |UnpackFields(f, b)| == N && Fields(f, UnpackFields(f, b))
    ensures PackFields(f, UnpackFields(f, b)) == b
    ensures forall i | 0 <= i < N :: Representable(f, CoeffOf(f, UnpackFields(f, b)[i]))
  {
    hide UnpackFields, PackFields, CoeffOf, Representable, FieldLimit;
    GroupCounts(f);
    BytesRoundTrip(f, b, Groups(f));
    forall i | 0 <= i < N
      ensures Representable(f, CoeffOf(f, UnpackFields(f, b)[i]))
    {
      FieldRoundTrip(f, UnpackFields(f, b)[i]);
    }
  }

  lemma GroupCounts(f: Format)
    ensures Groups(f) * GroupSize(f) == N && Groups(f) * GroupWidth(f) == PolyBytes(f)
  {}

  ghost predicate PolyRepresentable(f: Format, p: seq<Zq>)
  {
    |p| == N && forall i | 0 <= i < N :: Representable(f, p[i])
  }

  /** unpack(pack(p)) = p for every polynomial the format represents. */
  lemma UnpackPackPoly(f: Format, p: seq<Zq>)
    requires PolyRepresentable(f, p)
    ensures |PackPoly(f, p)| == PolyBytes(f) && UnpackPoly(f, PackPoly(f, p)) == p
  {
    hide UnpackFields, PackFields, CoeffOf, Representable, FieldOf, FieldLimit;
    GroupCounts(f);
    FieldsRoundTrip(f, FieldsOf(f, p), Groups(f));
    forall i | 0 <= i < N
      ensures CoeffOf(f, FieldOf(f, p[i])) == p[i]
    {
      CoeffRoundTrip(f, p[i]);
    }
  }

  lemma PackPolyLength(f: Format, p: seq<Zq>)
    requires |p| == N
    ensures |PackPoly(f, p)| == PolyBytes(f)
  {
    hide UnpackFields, PackFields, FieldOf, FieldLimit;
    GroupCounts(f);
    FieldsRoundTrip(f, FieldsOf(f, p), Groups(f));
  }

  /** pack(unpack(b)) = b for every byte string: the encoding has no second spelling. */
  lemma PackUnpackPoly(f: Format, b: seq<Byte>)
    requires |b| == PolyBytes(f)
    ensures PackPoly(f, UnpackPoly(f, b)) == b
  {
    hide UnpackFields, PackFields, CoeffOf, FieldOf, FieldLimit, Representable;
    UnpackedShape(f, b);
    var x := UnpackFields(f, b);
    assert FieldsOf(f, UnpackPoly(f, b)) == x by {
      forall i | 0 <= i < N
        ensures FieldOf(f, CoeffOf(f, x[i])) == x[i]
      {
        FieldRoundTrip(f, x[i]);
      }
    }
  }

  // ----- vectors

  function PackVector(f: Format, v: seq<seq<Zq>>): seq<Byte>
    requires forall i | 0 <= i < |v| :: |v[i]| == N
  {
    if v == [] then [] else PackPoly(f, v[0]) + PackVector(f, v[1..])
  }

  function UnpackVector(f: Format, b: seq<Byte>, n: nat): (v: seq<seq<Zq>>)
    requires |b| == n * PolyBytes(f)
    ensures |v| == n && forall i | 0 <= i < n :: PolyRepresentable(f, v[i])
    decreases n
  {
    hide UnpackPoly, Representable;
    if n == 0 then []
    else
      SplitFirst(n, PolyBytes(f));
      [UnpackPoly(f, b[..PolyBytes(f)])] + UnpackVector(f, b[PolyBytes(f)..], n - 1)
  }

  lemma SplitFirst(n: nat, s: nat)
    requires n > 0
    ensures n * s == (n - 1) * s + s && (n - 1) * s >= 0
  {}

  ghost predicate VectorRepresentable(f: Format, v: seq<seq<Zq>>)
  {
    forall i | 0 <= i < |v| :: PolyRepresentable(f, v[i])
  }

  lemma {:induction false} UnpackPackVector(f: Format, v: seq<seq<Zq>>)
    requires VectorRepresentable(f, v)
    ensures |PackVector(f, v)| == |v| * PolyBytes(f) && UnpackVector(f, PackVector(f, v), |v|) == v
  {
    hide PackPoly, UnpackPoly, Representable, PolyBytes;
    if v != [] {
      UnpackPackVector(f, v[1..]);
      UnpackPackPoly(f, v[0]);
      SplitFirst(|v|, PolyBytes(f));
      var b := PackVector(f, v);
      assert b[..PolyBytes(f)] == PackPoly(f, v[0]) && b[PolyBytes(f)..] == PackVector(f, v[1..]);
    }
  }

  lemma {:induction false} PackVectorLength(f: Format, v: seq<seq<Zq>>)
    requires forall i | 0 <= i < |v| :: |v[i]| == N
    ensures |PackVector(f, v)| == |v| * PolyBytes(f)
  {
    hide PackPoly, PolyBytes;
    if v != [] {
      PackVectorLength(f, v[1..]);
      PackPolyLength(f, v[0]);
      SplitFirst(|v|, PolyBytes(f));
    }
  }

  lemma {:induction false} PackUnpackVector(f: Format, b: seq<Byte>, n: nat)
    requires |b| == n * PolyBytes(f)
    ensures PackVector(f, UnpackVector(f, b, n)) == b
    decreases n
  {
    hide PackPoly, UnpackPoly, Representable, PolyBytes;
    if n > 0 {
      SplitFirst(n, PolyBytes(f));
      PackUnpackVector(f, b[PolyBytes(f)..], n - 1);
      PackUnpackPoly(f, b[..PolyBytes(f)]);
      assert UnpackVector(f, b, n)[1..] == UnpackVector(f, b[PolyBytes(f)..], n - 1);
    }
  }

  // ----- the packing loop

  /** The loops of pack_t1_poly, pack_small_poly, pack_t0_poly and pack_z_poly. */
  method PackPolyLoop(f: Format, p: seq<Zq>) returns (buf: seq<Byte>)
    requires |p| == N
    ensures buf == PackPoly(f, p)
  {
    hide GroupBytes, FieldOf, FieldLimit, PackFields;
    var k := GroupSize(f);
    var x := FieldsOf(f, p);
    assert x[0..] == x;
    buf := [];
    var at := 0;
    while at + k <= N
      invariant 0 <= at <= N && at % k == 0
      invariant buf + PackFields(f, x[at..]) == PackFields(f, x)
      decreases N - at
    {
      assert x[at..][..k] == x[at..at + k] && x[at..][k..] == x[at + k..];
      PackFirst(f, x[at..]);
      buf := buf + GroupBytes(f, x[at..at + k]);
      NextMultiple(at, k);
      at := at + k;
    }
    assert x[at..] == [];
    NoGroups(f);
  }

  lemma NextMultiple(at: nat, k: nat)
    requires k > 0 && at % k == 0
    ensures (at + k) % k == 0
  {
    assert (at / k + 1) * k == (at / k) * k + k;
    DivModUnique(at + k, at / k + 1, 0, k);
  }
}
