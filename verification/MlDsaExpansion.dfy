/**
 * What the samplers of solomon-core/src/crypto/matrix.rs and sign.rs read from their streams: which
 * candidates they keep, which sign goes where, and which seed each polynomial comes from.
 */
module MlDsaExpansion {
  import opened Basics
  import opened Numerals
  import opened MlDsaScalar
  import opened MlDsaRounding
  import opened BitPacking
  import opened MlDsaVectors
  import opened MlDsaEncoding
  import opened MlDsaSampling
  import opened MlDsaSigning
  import opened MlDsaLayout

  // ----- rejection sampling

  /** A stream read three bytes at a time with 23 bits kept, or nibble by nibble, the lower one first. */
  datatype Reading = ByTriple | ByNibble

  ghost function Candidate(r: Reading, s: Stream, t: nat): (c: nat)
  {
    match r
    case ByTriple => s(3 * t) + 256 * s(3 * t + 1) + 65536 * (s(3 * t + 2) % 128)
    case ByNibble => if t % 2 == 0 then s(t / 2) % 16 else s(t / 2) / 16
  }

  /** The coefficient a candidate stands for. */
  ghost function Value(r: Reading, v: int): int
  {
    match r case ByTriple => v case ByNibble => if v <= 4 then 4 - v else 8_380_417 + 4 - v
  }

  ghost function Bound(r: Reading): int
  {
    match r case ByTriple => 8_380_417 case ByNibble => 9
  }

  /** p holds the values of the candidates below the bound among the first k, in order; at lists their places. */
  ghost predicate Drawn(r: Reading, s: Stream, k: nat, at: seq<nat>, p: seq<Zq>)
  {
    && |p| == |at| && Increasing(at)
    && (forall i | 0 <= i < |at| :: at[i] < k && p[i] == Value(r, Candidate(r, s, at[i])))
    && (forall t | 0 <= t < k :: t in at <==> Candidate(r, s, t) < Bound(r))
  }

  lemma DrawnNothing(r: Reading, s: Stream)
    ensures Drawn(r, s, 0, [], [])
  {}

  lemma DrawnStep(r: Reading, s: Stream, k: nat, at: seq<nat>, p: seq<Zq>, v: Zq)
    requires Drawn(r, s, k, at, p)
    ensures Candidate(r, s, k) < Bound(r) && v == Value(r, Candidate(r, s, k)) ==> Drawn(r, s, k + 1, at + [k], p + [v])
    ensures Candidate(r, s, k) >= Bound(r) ==> Drawn(r, s, k + 1, at, p)
  {
    hide Candidate, Value, Bound;
    var more := at + [k];
    assert forall t :: t in more <==> t in at || t == k;
    assert k !in at;
  }

  lemma {:induction false} UniformDrawn(s: Stream, limit: nat, k: nat, at: seq<nat>, acc: seq<Zq>)
    returns (k': nat, at': seq<nat>)
    requires |acc| <= N && Drawn(ByTriple, s, k, at, acc) && UniformFrom(s, limit, 3 * k, acc).Some?
    ensures Drawn(ByTriple, s, k', at', UniformFrom(s, limit, 3 * k, acc).value)
    decreases limit - 3 * k
  {
    hide Drawn, Stored;
    k', at' := k, at;
    if |acc| < N {
      var z := Candidate23(s, 3 * k);
      DrawnStep(ByTriple, s, k, at, acc, if z < Q then Stored(z) else 0);
      var next := k + 1;
      assert 3 * k + 3 == 3 * next;
      if z < Q {
        k', at' := UniformDrawn(s, limit, next, at + [k], acc + [Stored(z)]);
      } else {
        k', at' := UniformDrawn(s, limit, next, at, acc);
      }
    }
  }

  /** A sampled matrix entry: the first 256 triples of the stream that are below q. */
  lemma UniformMeans(s: Stream, limit: nat) returns (k: nat, at: seq<nat>)
    requires UniformFrom(s, limit, 0, []).Some?
    ensures Drawn(ByTriple, s, k, at, UniformFrom(s, limit, 0, []).value) && |at| == 256
  {
    hide Drawn, UniformFrom;
    DrawnNothing(ByTriple, s);
    k, at := UniformDrawn(s, limit, 0, [], []);
    DrawnLength(ByTriple, s, k, at, UniformFrom(s, limit, 0, []).value);
  }

  lemma DrawnLength(r: Reading, s: Stream, k: nat, at: seq<nat>, p: seq<Zq>)
    requires Drawn(r, s, k, at, p)
    ensures |at| == |p|
  {}

  lemma TakeDrawn(s: Stream, k: nat, at: seq<nat>, acc: seq<Zq>) returns (k': nat, at': seq<nat>)
    requires |acc| <= N && Drawn(ByNibble, s, k, at, acc)
    ensures Drawn(ByNibble, s, k', at', TakeNibble(acc, Candidate(ByNibble, s, k)))
    ensures |TakeNibble(acc, Candidate(ByNibble, s, k))| < N ==> k' == k + 1
  {
    hide Drawn, Candidate;
    k', at' := k, at;
    var n: int := Candidate(ByNibble, s, k);
    if |acc| < N {
      k' := k + 1;
      DrawnStep(ByNibble, s, k, at, acc, if n < 9 then Stored(4 - n) else 0);
      if n < 9 { at' := at + [k]; }
    }
  }

  lemma {:induction false} BoundedDrawn(s: Stream, limit: nat, pos: nat, at: seq<nat>, acc: seq<Zq>)
    returns (k': nat, at': seq<nat>)
    requires |acc| < N && Drawn(ByNibble, s, 2 * pos, at, acc) && BoundedFrom(s, limit, pos, acc).Some?
    ensures Drawn(ByNibble, s, k', at', BoundedFrom(s, limit, pos, acc).value)
    decreases limit - pos
  {
    hide Drawn, TakeNibble;
    var k := 2 * pos;
    assert Candidate(ByNibble, s, k) == s(pos) % 16 && Candidate(ByNibble, s, k + 1) == s(pos) / 16;
    var one := TakeNibble(acc, s(pos) % 16);
    var two := TakeNibble(one, s(pos) / 16);
    k', at' := TakeDrawn(s, k, at, acc);
    if |one| < N {
      k', at' := TakeDrawn(s, k', at', one);
    } else {
      FullStays(one, s(pos) / 16);
    }
    if |two| < N {
      assert k' == 2 * (pos + 1);
      k', at' := BoundedDrawn(s, limit, pos + 1, at', two);
    }
  }

  lemma FullStays(acc: seq<Zq>, n: nat)
    requires |acc| == N
    ensures TakeNibble(acc, n) == acc
  {}

  /** A sampled secret: 4 - n for the first 256 nibbles n of the stream that are below 9. */
  lemma BoundedMeans(s: Stream, limit: nat) returns (k: nat, at: seq<nat>)
    requires BoundedFrom(s, limit, 0, []).Some?
    ensures Drawn(ByNibble, s, k, at, BoundedFrom(s, limit, 0, []).value) && |at| == 256
  {
    hide Drawn, BoundedFrom;
    DrawnNothing(ByNibble, s);
    k, at := BoundedDrawn(s, limit, 0, [], []);
    DrawnLength(ByNibble, s, k, at, BoundedFrom(s, limit, 0, []).value);
  }

  // ----- the challenge

  /** d is c with c[j] moved to i and 1, or -1 for a set bit, put at j. */
  ghost predicate Placed(c: seq<Zq>, d: seq<Zq>, i: nat, j: nat, bit: int)
  {
    && |c| == 256 && |d| == 256 && j <= i < 256
    && d[j] == (if bit == 1 then 8_380_416 else 1) && (j < i ==> d[i] == c[j])
    && forall k | 0 <= k < 256 && k != i && k != j :: d[k] == c[k]
  }

  /**
   * The steps from i on: at lists the stream positions of the bytes that were used, each the first
   * from pos on that is at most the step number; cs lists the polynomial before and after each step.
   */
  ghost predicate Trace(s: Stream, i: nat, pos: nat, bits: seq<int>, at: seq<nat>, cs: seq<seq<Zq>>)
    decreases |at|
  {
    && |cs| == |at| + 1 && |at| <= |bits| && i + |at| == 256
    && (at != [] ==>
          && pos <= at[0] && s(at[0]) <= i && (forall k | pos <= k < at[0] :: s(k) > i)
          && Placed(cs[0], cs[1], i, s(at[0]), bits[0])
          && Trace(s, i + 1, at[0] + 1, bits[1..], at[1..], cs[1..]))
  }

  lemma PlaceMeans(c: seq<Zq>, i: nat, j: nat, signs: nat)
    requires |c| == N && j <= i < N
    ensures Placed(c, Place(c, i, j, signs), i, j, signs % 2)
  {}

  lemma {:induction false} SampleTraced(s: Stream, limit: nat, i: nat, pos: nat, c: seq<Zq>, signs: nat, bits: seq<int>)
    returns (at: seq<nat>, cs: seq<seq<Zq>>)
    requires |c| == N && i <= N && SampleFrom(s, limit, i, pos, c, signs).Some?
    requires N - i <= |bits| && DigitsBelow(bits, 2) && signs == Number(bits, 2)
    ensures Trace(s, i, pos, bits, at, cs)
    ensures cs[0] == c && cs[|at|] == SampleFrom(s, limit, i, pos, c, signs).value
    decreases N - i, limit - pos
  {
    hide Place, Placed, Number;
    if i == N {
      at, cs := [], [c];
    } else if s(pos) <= i {
      FirstDigit(bits, 2);
      var d := Place(c, i, s(pos), signs);
      var at', cs' := SampleTraced(s, limit, i + 1, pos + 1, d, signs / 2, bits[1..]);
      PlaceMeans(c, i, s(pos), signs);
      at, cs := [pos] + at', [c] + cs';
      assert at[1..] == at' && cs[1..] == cs';
    } else {
      at, cs := SampleTraced(s, limit, i, pos + 1, c, signs, bits);
      assert i < N && at != [];
    }
  }

  lemma {:induction false} LittleEndianNumber(b: Bytes)
    ensures LittleEndian(b) == Number(b, 256)
  {
    if b != [] { LittleEndianNumber(b[1..]); }
  }

  /**
   * The challenge: 49 steps from step 207 on, starting from zero, step t taking its sign from bit t of
   * the first eight bytes and its position from the bytes after them.
   */
  lemma SampleMeans(s: Stream, limit: nat, bits: seq<int>) returns (at: seq<nat>, cs: seq<seq<Zq>>)
    requires Sample(s, limit).Some?
    requires |bits| == 64 && DigitsBelow(bits, 2) && Spells([s(0), s(1), s(2), s(3), s(4), s(5), s(6), s(7)], bits, 2)
    ensures Trace(s, 207, 8, bits, at, cs) && |at| == 49
    ensures (forall k | 0 <= k < 256 :: cs[0][k] == 0) && cs[49] == Sample(s, limit).value
  {
    hide SampleFrom, Number, DigitsBelow;
    var first := [s(0), s(1), s(2), s(3), s(4), s(5), s(6), s(7)];
    assert Squeeze(s, 0, 8) == first;
    LittleEndianNumber(first);
    at, cs := SampleTraced(s, limit, 207, 8, ZeroPoly(), LittleEndian(first), bits);
  }

  // ----- seeds

  /** A number in two bytes, the lower one first. */
  ghost function Pair(low: int, high: int): int { low + 256 * high }

  /** Entry (i, j) of the matrix is sampled from SHAKE-128 of rho, then j, then i. */
  lemma MatrixEntry(o: Oracles, rho: Bytes, i: nat, j: nat, x: Bytes)
    requires ExpandA(o, rho).Some? && i < 6 && j < 5
    requires |x| == |rho| + 2 && x[..|rho|] == rho && x[|rho|] == j && x[|rho| + 1] == i
    ensures UniformFrom(o.shake128(x), o.draws, 0, []) == Some(ExpandA(o, rho).value[i][j])
  {
    hide UniformFrom;
    RowOfMatrix(o, rho, 6, i);
    EntryOfRow(o, rho, i, 5, j);
    assert x == rho + [j, i];
  }

  lemma {:induction false} RowOfMatrix(o: Oracles, rho: Bytes, k: nat, i: nat)
    requires k <= 6 && i < k && ExpandRows(o, rho, k).Some?
    ensures ExpandRow(o, rho, i, 5) == Some(ExpandRows(o, rho, k).value[i])
  {
    hide ExpandRow;
    if i < k - 1 { RowOfMatrix(o, rho, k - 1, i); }
  }

  lemma {:induction false} EntryOfRow(o: Oracles, rho: Bytes, i: Byte, n: nat, j: nat)
    requires n <= 5 && j < n && ExpandRow(o, rho, i, n).Some?
    ensures UniformFrom(o.shake128(rho + [j, i]), o.draws, 0, []) == Some(ExpandRow(o, rho, i, n).value[j])
  {
    hide UniformFrom;
    if j < n - 1 { EntryOfRow(o, rho, i, n - 1, j); }
  }

  /** Secret number base + i is sampled from SHAKE-256 of rho' and that number as a pair. */
  lemma {:induction false} SecretEntry(o: Oracles, rhoPrime: Bytes, base: nat, n: nat, i: nat, x: Bytes)
    requires i < n && base + n <= 65536 && ExpandSecret(o, rhoPrime, base, n).Some?
    requires |x| == |rhoPrime| + 2 && x[..|rhoPrime|] == rhoPrime && Pair(x[|rhoPrime|], x[|rhoPrime| + 1]) == base + i
    ensures BoundedFrom(o.shake256(x), o.draws, 0, []) == Some(ExpandSecret(o, rhoPrime, base, n).value[i])
    decreases n
  {
    hide BoundedFrom;
    if i < n - 1 {
      SecretEntry(o, rhoPrime, base, n - 1, i, x);
    } else {
      SeedOf(rhoPrime, base + i, x);
    }
  }

  lemma SeedOf(seed: Bytes, v: nat, x: Bytes)
    requires |x| == |seed| + 2 && x[..|seed|] == seed && Pair(x[|seed|], x[|seed| + 1]) == v
    ensures x == seed + Word16(v)
  {
    PairBytes(x[|seed|], x[|seed| + 1], v);
    assert x == x[..|seed|] + [x[|seed|], x[|seed| + 1]];
  }

  lemma PairBytes(low: int, high: int, v: int)
    requires 0 <= low < 256 && 0 <= high < 256 && Pair(low, high) == v
    ensures v % 256 == low && (v / 256) % 256 == high
  {}

  lemma {:induction false} MaskAt(o: Oracles, rhoPrime: Bytes, kappa: nat, n: nat, i: nat)
    requires i < n
    ensures ExpandY(o, rhoPrime, kappa, n)[i]
            == UnpackPoly(Z, Hash(o, rhoPrime + Word16((kappa + i) % 65536), 640))
    decreases n
  {
    hide UnpackPoly, Hash, Word16;
    if i < n - 1 { MaskAt(o, rhoPrime, kappa, n - 1, i); }
  }

  /** Mask i holds, as 2^19 - y in twenty bits, 640 bytes of SHAKE-256 of rho' and the pair for kappa + i. */
  lemma MaskEntry(o: Oracles, rhoPrime: Bytes, kappa: nat, n: nat, i: nat, x: Bytes)
    requires i < n
    requires |x| == |rhoPrime| + 2 && x[..|rhoPrime|] == rhoPrime
    requires Pair(x[|rhoPrime|], x[|rhoPrime| + 1]) == (kappa + i) % 65536
    ensures Holds(Z, Hash(o, x, 640), ExpandY(o, rhoPrime, kappa, n)[i])
  {
    hide UnpackPoly, Holds, Hash, Word16, ExpandY, Pair;
    MaskAt(o, rhoPrime, kappa, n, i);
    SeedOf(rhoPrime, (kappa + i) % 65536, x);
    UnpackedHolds(Z, Hash(o, x, 640));
  }

  lemma UnpackedHolds(f: Format, b: Bytes)
    requires |b| == PolyBytes(f)
    ensures Holds(f, b, UnpackPoly(f, b))
  {
    hide UnpackPoly, PackPoly, Holds, Representable;
    PackUnpackPoly(f, b);
    PolyLayout(f, UnpackPoly(f, b));
  }
}
