/**
 * The byte layout of keys and signatures of solomon-core/src/crypto/packing.rs, stated without the
 * shifts and masks that produce it: a packed polynomial is one number, whose digits are the bytes
 * in base 256 and the coefficients in base 2^width, and each part of a key sits at its offset.
 */
module MlDsaLayout {
  import opened Basics
  import opened Congruence
  import opened Numerals
  import opened MlDsaScalar
  import opened MlDsaRounding
  import opened BitPacking
  import opened MlDsaVectors
  import opened MlDsaSampling
  import opened MlDsaEncoding

  // ----- one group

  lemma Number2(a: int, b: int, base: nat)
    ensures Number([a, b], base) == a + base * b
  {
    assert [a, b][1..] == [b];
    Number1(b, base);
  }

  lemma Number1(a: int, base: nat)
    ensures Number([a], base) == a
  {
    assert [a][1..] == [];
  }

  lemma Number4(a: int, b: int, c: int, d: int, base: nat)
    ensures Number([a, b, c, d], base) == a + base * (b + base * (c + base * d))
  {
    assert [a, b, c, d][1..] == [b, c, d] && [b, c, d][1..] == [c, d];
    Number2(c, d, base);
  }

  lemma Number5(a: int, b: int, c: int, d: int, e: int, base: nat)
    ensures Number([a, b, c, d, e], base) == a + base * (b + base * (c + base * (d + base * e)))
  {
    assert [a, b, c, d, e][1..] == [b, c, d, e];
    Number4(b, c, d, e, base);
  }

  lemma Front(a: int, s: seq<int>, base: nat)
    ensures Number([a] + s, base) == a + base * Number(s, base)
  {
    assert ([a] + s)[1..] == s;
  }

  lemma Number8(a: int, b: int, c: int, d: int, e: int, f: int, g: int, h: int, base: nat)
    ensures Number([a, b, c, d, e, f, g, h], base)
            == a + base * (b + base * (c + base * (d + base * (e + base * (f + base * (g + base * h))))))
  {
    hide Number;
    assert [a, b, c, d, e, f, g, h] == [a] + [b, c, d, e, f, g, h];
    assert [b, c, d, e, f, g, h] == [b] + [c, d, e, f, g, h];
    assert [c, d, e, f, g, h] == [c] + [d, e, f, g, h];
    Front(a, [b, c, d, e, f, g, h], base);
    Front(b, [c, d, e, f, g, h], base);
    Front(c, [d, e, f, g, h], base);
    Number5(d, e, f, g, h, base);
  }

  lemma Layout10(c0: int, c1: int, c2: int, c3: int)
    requires 0 <= c0 < 1024 && 0 <= c1 < 1024 && 0 <= c2 < 1024 && 0 <= c3 < 1024
    ensures Number(Bits10(c0, c1, c2, c3), 256) == Number([c0, c1, c2, c3], 1024)
  {
    hide Part, Number;
    var b := Bits10(c0, c1, c2, c3);
    Recompose(c0, 256, 4, 1024, 1);
    Recompose(c1, 64, 16, 1024, 1);
    Recompose(c2, 16, 64, 1024, 1);
    Recompose(c3, 4, 256, 1024, 1);
    Number5(b[0], b[1], b[2], b[3], b[4], 256);
    Number4(c0, c1, c2, c3, 1024);
  }

  lemma Layout4(c0: int, c1: int)
    requires 0 <= c0 < 16 && 0 <= c1 < 16
    ensures Number(Bits4(c0, c1), 256) == Number([c0, c1], 16)
  {
    hide Part;
    Recompose(c0, 16, 1, 16, 1);
    Recompose(c1, 16, 1, 16, 1);
    Number2(c0, c1, 16);
    assert Bits4(c0, c1)[1..] == [];
  }

  lemma Layout13(c0: int, c1: int, c2: int, c3: int, c4: int, c5: int, c6: int, c7: int)
    requires 0 <= c0 < 8192 && 0 <= c1 < 8192 && 0 <= c2 < 8192 && 0 <= c3 < 8192
    requires 0 <= c4 < 8192 && 0 <= c5 < 8192 && 0 <= c6 < 8192 && 0 <= c7 < 8192
    ensures Number(Bits13(c0, c1, c2, c3, c4, c5, c6, c7), 256) == Number([c0, c1, c2, c3, c4, c5, c6, c7], 8192)
  {
    hide Part, Number;
    var b := Bits13(c0, c1, c2, c3, c4, c5, c6, c7);
    Recompose(c0, 256, 32, 8192, 1);
    Recompose(c1, 8, 256, 2048, 4);
    Recompose(c2, 64, 128, 8192, 1);
    Recompose(c3, 2, 256, 512, 16);
    Recompose(c4, 16, 256, 4096, 2);
    Recompose(c5, 128, 64, 8192, 1);
    Recompose(c6, 4, 256, 1024, 8);
    Recompose(c7, 32, 256, 8192, 1);
    Number13(b);
    Number8(c0, c1, c2, c3, c4, c5, c6, c7, 8192);
  }

  lemma Number13(b: seq<int>)
    requires |b| == 13
    ensures Number(b, 256)
            == b[0] + 256 * (b[1] + 256 * (b[2] + 256 * (b[3] + 256 * (b[4] + 256 * (b[5] + 256 * (b[6] + 256 * (b[7]
               + 256 * (b[8] + 256 * (b[9] + 256 * (b[10] + 256 * (b[11] + 256 * b[12])))))))))))
  {
    hide Number;
    assert b == [b[0]] + ([b[1]] + ([b[2]] + ([b[3]] + ([b[4]] + b[5..]))));
    assert b[5..] == [b[5], b[6], b[7], b[8], b[9], b[10], b[11], b[12]];
    Front(b[4], b[5..], 256);
    Front(b[3], [b[4]] + b[5..], 256);
    Front(b[2], [b[3]] + ([b[4]] + b[5..]), 256);
    Front(b[1], [b[2]] + ([b[3]] + ([b[4]] + b[5..])), 256);
    Front(b[0], [b[1]] + ([b[2]] + ([b[3]] + ([b[4]] + b[5..]))), 256);
    Number8(b[5], b[6], b[7], b[8], b[9], b[10], b[11], b[12], 256);
  }

  lemma Layout20(c0: int, c1: int)
    requires 0 <= c0 < 1_048_576 && 0 <= c1 < 1_048_576
    ensures Number(Bits20(c0, c1), 256) == Number([c0, c1], 1_048_576)
  {
    hide Part, Number;
    var b := Bits20(c0, c1);
    Recompose(c0, 256, 256, 65536, 16);
    Recompose(c1, 16, 256, 4096, 256);
    Number5(b[0], b[1], b[2], b[3], b[4], 256);
    Number2(c0, c1, 1_048_576);
  }

  lemma GroupNumber(f: Format, g: seq<int>)
    requires |g| == GroupSize(f) && Fields(f, g)
    ensures Number(GroupBytes(f, g), 256) == Number(g, FieldLimit(f))
  {
    hide Bits10, Bits4, Bits13, Bits20, Number;
    match f
    case T1 => Layout10(g[0], g[1], g[2], g[3]); assert g == [g[0], g[1], g[2], g[3]];
    case Secret => Layout4(g[0], g[1]); assert g == [g[0], g[1]];
    case T0 =>
      Layout13(g[0], g[1], g[2], g[3], g[4], g[5], g[6], g[7]);
      assert g == [g[0], g[1], g[2], g[3], g[4], g[5], g[6], g[7]];
    case Z => Layout20(g[0], g[1]); assert g == [g[0], g[1]];
  }

  /** A group fills its bytes: width bytes hold as many values as size fields. */
  lemma GroupFills(f: Format)
    ensures Pow(256, GroupWidth(f)) == Pow(FieldLimit(f), GroupSize(f))
  {
    match f
    case T1 => assert Pow(256, 5) == Pow(1024, 4);
    case Secret => assert Pow(256, 1) == Pow(16, 2);
    case T0 =>
      PowMul(2, 8, 13);
      PowMul(2, 13, 8);
      assert Pow(2, 8) == 256 && Pow(2, 13) == 8192;
    case Z => assert Pow(256, 5) == Pow(1_048_576, 2);
  }

  /** The packed fields and the fields are the same number. */
  lemma {:induction false} FieldsNumber(f: Format, x: seq<int>, groups: nat)
    requires |x| == groups * GroupSize(f) && Fields(f, x)
    ensures Number(PackFields(f, x), 256) == Number(x, FieldLimit(f))
    decreases groups
  {
    hide GroupBytes, GroupSize, GroupWidth, Fields, PackFields, FieldLimit, Number, Pow;
    NoGroups(f);
    if groups == 0 {
      assert x == [];
      NoDigits();
    } else {
      SplitFirst(groups, GroupSize(f));
      var g, rest := x[..GroupSize(f)], x[GroupSize(f)..];
      SplitFields(f, x);
      FieldsNumber(f, rest, groups - 1);
      GroupNumber(f, g);
      GroupFills(f);
      PackFirst(f, x);
      NumberConcat(GroupBytes(f, g), PackFields(f, rest), 256);
      NumberConcat(g, rest, FieldLimit(f));
    }
  }

  lemma NoDigits()
    ensures forall base: nat :: Number([], base) == 0
  {}

  // ----- polynomials

  /** The centred coefficients. */
  ghost function Centred(p: seq<Zq>): (r: seq<int>)
    ensures |r| == |p| && forall i | 0 <= i < |p| :: r[i] == ToSigned(p[i])
  {
    seq(|p|, i requires 0 <= i < |p| => ToSigned(p[i]))
  }

  /** The centred coefficients, counted down from top. */
  ghost function Below(top: int, p: seq<Zq>): (r: seq<int>)
    ensures |r| == |p| && forall i | 0 <= i < |p| :: r[i] == top - ToSigned(p[i])
  {
    seq(|p|, i requires 0 <= i < |p| => top - ToSigned(p[i]))
  }

  /** b is the little-endian form of the number with the given digits. */
  ghost predicate Spells(b: seq<Byte>, digits: seq<int>, base: nat)
  {
    Number(b, 256) == Number(digits, base)
  }

  /** What b holds in each format: ten bits, 4 - s in four bits, 4096 - t0 in thirteen, 2^19 - z in twenty. */
  ghost predicate Holds(f: Format, b: seq<Byte>, p: seq<Zq>)
  {
    match f
    case T1 => |b| == 320 && Spells(b, Centred(p), 1024)
    case Secret => |b| == 128 && Spells(b, Below(4, p), 16)
    case T0 => |b| == 416 && Spells(b, Below(4096, p), 8192)
    case Z => |b| == 640 && Spells(b, Below(524_288, p), 1_048_576)
  }

  lemma FieldsAreDigits(f: Format, p: seq<Zq>)
    requires PolyRepresentable(f, p)
    ensures FieldsOf(f, p) == match f case T1 => Centred(p) case Secret => Below(4, p) case T0 => Below(4096, p)
                              case Z => Below(524_288, p)
  {
    hide ToSigned;
    forall i | 0 <= i < N
      ensures FieldsOf(f, p)[i] == match f case T1 => ToSigned(p[i]) case Secret => 4 - ToSigned(p[i])
                                   case T0 => 4096 - ToSigned(p[i]) case Z => 524_288 - ToSigned(p[i])
    {
      assert Representable(f, p[i]);
      Wrapped(match f case T1 => ToSigned(p[i]) case Secret => 4 - ToSigned(p[i])
              case T0 => 4096 - ToSigned(p[i]) case Z => 524_288 - ToSigned(p[i]), FieldLimit(f));
    }
  }

  /** A packed polynomial is one number, read in bytes or in coefficients. */
  lemma PolyLayout(f: Format, p: seq<Zq>)
    requires PolyRepresentable(f, p)
    ensures Holds(f, PackPoly(f, p), p)
  {
    hide PackFields, Number, FieldOf, Representable;
    PackPolyLength(f, p);
    GroupCounts(f);
    FieldsNumber(f, FieldsOf(f, p), Groups(f));
    FieldsAreDigits(f, p);
  }

  /** The n bytes of b from at on. */
  ghost function Chunk(b: Bytes, at: nat, n: nat): Bytes
  {
    if at + n <= |b| then b[at..at + n] else []
  }

  lemma FirstChunk(front: Bytes, rest: Bytes)
    ensures Chunk(front + rest, 0, |front|) == front
  {}

  lemma LaterChunk(front: Bytes, rest: Bytes, at: nat, n: nat)
    requires at + n <= |rest|
    ensures Chunk(front + rest, |front| + at, n) == Chunk(rest, at, n)
  {}

  lemma EarlierChunk(front: Bytes, rest: Bytes, at: nat, n: nat)
    requires at + n <= |front|
    ensures Chunk(front + rest, at, n) == Chunk(front, at, n)
  {}

  /** Polynomial i of a packed vector. */
  lemma {:induction false} VectorLayout(f: Format, v: seq<seq<Zq>>, i: nat, at: nat)
    requires VectorRepresentable(f, v) && i < |v| && at == i * PolyBytes(f)
    ensures at + PolyBytes(f) <= |PackVector(f, v)| && Holds(f, Chunk(PackVector(f, v), at, PolyBytes(f)), v[i])
    decreases i
  {
    hide PackPoly, Holds, PolyRepresentable, PolyBytes, Chunk;
    RepresentableTail(f, v);
    PackPolyLength(f, v[0]);
    var front, rest := PackPoly(f, v[0]), PackVector(f, v[1..]);
    if i == 0 {
      PolyLayout(f, v[0]);
      FirstChunk(front, rest);
    } else {
      var s := PolyBytes(f);
      SplitFirst(i, s);
      VectorLayout(f, v[1..], i - 1, at - s);
      LaterChunk(front, rest, at - s, s);
    }
  }

  lemma RepresentableTail(f: Format, v: seq<seq<Zq>>)
    requires VectorRepresentable(f, v) && v != []
    ensures (forall j | 0 <= j < |v| :: |v[j]| == N) && VectorRepresentable(f, v[1..])
  {
    hide Representable;
  }

  // ----- keys and signatures

  /** Public key: the seed, then six polynomials of 320 bytes. */
  lemma PkLayout(pk: PublicKey, i: nat)
    requires PkShape(pk) && VectorRepresentable(T1, pk.t1) && i < 6
    ensures PackPk(pk)[..32] == pk.rho && Holds(T1, Chunk(PackPk(pk), 32 + 320 * i, 320), pk.t1[i])
  {
    hide PackVector, Holds, VectorRepresentable, Chunk;
    VectorLayout(T1, pk.t1, i, 320 * i);
    LaterChunk(pk.rho, PackVector(T1, pk.t1), 320 * i, 320);
  }

  /** Secret key: rho, K, tr, then five and six secrets of 128 bytes and six t0 of 416. */
  lemma SkLayout(sk: SecretKey, i: nat)
    requires SkShape(sk) && i < 6
    requires VectorRepresentable(Secret, sk.s1) && VectorRepresentable(Secret, sk.s2) && VectorRepresentable(T0, sk.t0)
    ensures PackSk(sk)[..32] == sk.rho && PackSk(sk)[32..64] == sk.k && PackSk(sk)[64..128] == sk.tr
    ensures i < 5 ==> Holds(Secret, Chunk(PackSk(sk), 128 + 128 * i, 128), sk.s1[i])
    ensures Holds(Secret, Chunk(PackSk(sk), 768 + 128 * i, 128), sk.s2[i])
    ensures Holds(T0, Chunk(PackSk(sk), 1536 + 416 * i, 416), sk.t0[i])
  {
    hide PackVector, Holds, VectorRepresentable, Chunk;
    PackVectorLength(Secret, sk.s1);
    PackVectorLength(Secret, sk.s2);
    PackVectorLength(T0, sk.t0);
    var s1, s2, t0 := PackVector(Secret, sk.s1), PackVector(Secret, sk.s2), PackVector(T0, sk.t0);
    SixParts(sk.rho, sk.k, sk.tr, s1, s2, t0);
    var front := sk.rho + sk.k + sk.tr;
    if i < 5 {
      VectorLayout(Secret, sk.s1, i, 128 * i);
      LaterChunk(front, s1, 128 * i, 128);
      EarlierChunk(front + s1, s2, 128 + 128 * i, 128);
      EarlierChunk(front + s1 + s2, t0, 128 + 128 * i, 128);
    }
    VectorLayout(Secret, sk.s2, i, 128 * i);
    LaterChunk(front + s1, s2, 128 * i, 128);
    EarlierChunk(front + s1 + s2, t0, 768 + 128 * i, 128);
    VectorLayout(T0, sk.t0, i, 416 * i);
    LaterChunk(front + s1 + s2, t0, 416 * i, 416);
  }

  /** Signature: the challenge hash, then five polynomials of 640 bytes, then 61 bytes of hint. */
  lemma SigLayout(sig: Signature, i: nat)
    requires SigShape(sig) && VectorRepresentable(Z, sig.z) && i < 5
    ensures PackSig(sig)[..48] == sig.cTilde && Holds(Z, Chunk(PackSig(sig), 48 + 640 * i, 640), sig.z[i])
    ensures PackSig(sig)[3248..] == PackHint(sig.h)
  {
    hide PackVector, Holds, VectorRepresentable, Chunk, PackHint;
    PackVectorLength(Z, sig.z);
    var z, h := PackVector(Z, sig.z), PackHint(sig.h);
    VectorLayout(Z, sig.z, i, 640 * i);
    LaterChunk(sig.cTilde, z, 640 * i, 640);
    EarlierChunk(sig.cTilde + z, h, 48 + 640 * i, 640);
  }

  // ----- hints

  /** The ones of the first i polynomials. */
  ghost function Ones(h: seq<seq<Zq>>, i: nat): nat
    requires i <= |h| && IsVector(h, |h|)
  {
    if i == 0 then 0 else Ones(h, i - 1) + Weight(h[i - 1], N)
  }

  lemma {:induction false} PositionCount(p: seq<Zq>, j: nat)
    requires |p| == N && j <= N
    ensures Weight(p, j) + |Positions(p, j)| == Weight(p, N)
    decreases N - j
  {
    if j < N {
      PositionCount(p, j + 1);
      PositionsStep(p, j, []);
    }
  }

  lemma {:induction false} ListedCount(h: seq<seq<Zq>>, i: nat)
    requires IsVector(h, |h|) && i <= |h|
    ensures |Listed(h, i)| == Ones(h, i)
  {
    hide Positions, Weight;
    if i > 0 {
      ListedCount(h, i - 1);
      CountAll(h[i - 1]);
    }
  }

  lemma CountAll(p: seq<Zq>)
    requires |p| == N
    ensures |Positions(p, 0)| == Weight(p, N)
  {
    PositionCount(p, 0);
  }

  /**
   * Byte 55 + i counts the ones up to polynomial i, and the bytes between two counts are the
   * positions of the ones of polynomial i in increasing order; the bytes left over are zero.
   */
  lemma HintLayout(h: seq<seq<Zq>>, i: nat)
    requires HintVector(h) && i < 6
    ensures Ones(h, i) <= Ones(h, i + 1) == PackHint(h)[55 + i] <= Ones(h, 6) <= 55
    ensures var ones := PackHint(h)[Ones(h, i)..Ones(h, i + 1)];
            Increasing(ones) && forall j | 0 <= j < N :: j in ones <==> h[i][j] == 1
    ensures forall k | Ones(h, 6) <= k < 55 :: PackHint(h)[k] == 0
  {
    hide Listed, Slots, Counts, PackHint, Weight, Increasing;
    PackedSegment(h, i);
    PackedCounts(h, i);
    PackedCounts(h, i + 1);
    PackedCounts(h, 6);
    PackedPadding(h);
    ListedCount(h, i);
    ListedCount(h, i + 1);
    ListedCount(h, 6);
    ListedPrefix(h, i + 1, 6);
    OnesAt(h[i]);
  }

  lemma OnesAt(p: seq<Zq>)
    requires Binary(p)
    ensures forall j | 0 <= j < N :: j in Positions(p, 0) <==> p[j] == 1
    ensures Increasing(Positions(p, 0))
  {
    IndicatorOfPositions(p);
  }
}
