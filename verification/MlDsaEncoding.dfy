/**
 * Hint vectors, keys and signatures as byte strings, after solomon-core/src/crypto/packing.rs.
 */
module MlDsaEncoding {
  import opened Basics
  import opened MlDsaScalar
  import opened BitPacking

  const K := 6
  const L := 5
  const OMEGA := 55
  const HINT_BYTES := 61

  // ----- positions of the ones

  ghost predicate Increasing(s: seq<int>)
  {
    forall i, j | 0 <= i < j < |s| :: s[i] < s[j]
  }

  /** The positions from j on at which p is not zero, in order. */
  function Positions(p: seq<Zq>, j: nat): (r: seq<Byte>)
    requires |p| == N && j <= N
    ensures Increasing(r) && forall i | 0 <= i < |r| :: j <= r[i] && p[r[i]] != 0
    ensures forall v | j <= v < N && p[v] != 0 :: v in r
    decreases N - j
  {
    if j == N then []
    else if p[j] != 0 then [j] + Positions(p, j + 1)
    else Positions(p, j + 1)
  }

  /** The polynomial with ones at the listed positions. */
  function Indicator(s: seq<Byte>): (p: seq<Zq>)
    ensures |p| == N && forall j | 0 <= j < N :: p[j] == if j in s then 1 else 0
  {
    seq(N, j requires 0 <= j < N => if j in s then 1 else 0)
  }

  ghost predicate Binary(p: seq<Zq>)
  {
    |p| == N && forall j | 0 <= j < N :: p[j] == 0 || p[j] == 1
  }

  lemma IndicatorOfPositions(p: seq<Zq>)
    requires Binary(p)
    ensures Indicator(Positions(p, 0)) == p
  {
    var s := Positions(p, 0);
    forall j | 0 <= j < N
      ensures Indicator(s)[j] == p[j]
    {
      if j in s { var i :| 0 <= i < |s| && s[i] == j; }
    }
  }

  /** An increasing sequence is determined by its elements. */
  lemma {:induction false} IncreasingUnique(s: seq<int>, t: seq<int>)
    requires Increasing(s) && Increasing(t) && forall v :: v in s <==> v in t
    ensures s == t
    decreases |s|
  {
    if s == [] {
      NoElements(t);
    } else {
      assert s[0] in s && s[0] in t;
      assert t[0] in s;
      var i :| 0 <= i < |t| && t[i] == s[0];
      var j :| 0 <= j < |s| && s[j] == t[0];
      assert s[0] == t[0];
      var s', t' := s[1..], t[1..];
      forall v
        ensures v in s' <==> v in t'
      {
        TailElements(s, v);
        TailElements(t, v);
      }
      IncreasingUnique(s', t');
      assert s == [s[0]] + s' && t == [t[0]] + t';
    }
  }

  lemma NoElements(t: seq<int>)
    requires forall v :: v !in t
    ensures t == []
  {
    var first := if |t| > 0 then t[0] else 0;
    assert first !in t;
  }

  lemma TailElements(s: seq<int>, v: int)
    requires Increasing(s) && s != []
    ensures v in s[1..] <==> v in s && v != s[0]
  {
    if v in s[1..] {
      var i :| 0 <= i < |s[1..]| && s[1..][i] == v;
      assert s[i + 1] == v;
    }
    if v in s && v != s[0] {
      var i :| 0 <= i < |s| && s[i] == v;
      assert s[1..][i - 1] == v;
    }
  }

  lemma PositionsOfIndicator(s: seq<Byte>)
    requires Increasing(s)
    ensures Binary(Indicator(s)) && Positions(Indicator(s), 0) == s
  {
    var p := Indicator(s);
    var r := Positions(p, 0);
    forall v
      ensures v in r <==> v in s
    {
      if v in r { var i :| 0 <= i < |r| && r[i] == v; }
      if v in s { var i :| 0 <= i < |s| && s[i] == v; }
    }
    IncreasingUnique(r, s);
  }

  // ----- pack_hint

  /** The positions of the first i polynomials, one after the other. */
  function Listed(h: seq<seq<Zq>>, i: nat): seq<Byte>
    requires i <= |h| && IsVector(h, |h|)
  {
    if i == 0 then [] else Listed(h, i - 1) + Positions(h[i - 1], 0)
  }

  function Cap(n: nat): (r: Byte)
    ensures r == if n < OMEGA then n else OMEGA
  {
    if n < OMEGA then n else OMEGA
  }

  /** The 55 position bytes: as many positions as fit, zero beyond the last one. */
  function Slots(list: seq<Byte>): (r: seq<Byte>)
    ensures |r| == OMEGA && forall k | 0 <= k < OMEGA :: r[k] == if k < |list| then list[k] else 0
  {
    seq(OMEGA, k requires 0 <= k < OMEGA => if k < |list| then list[k] else 0)
  }

  /** The count stored after the first i polynomials. */
  function CountAfter(h: seq<seq<Zq>>, i: nat): Byte
    requires i <= |h| && IsVector(h, |h|)
  {
    hide Positions;
    Cap(|Listed(h, i)|)
  }

  /** The six running counts. */
  function Counts(h: seq<seq<Zq>>): (r: seq<Byte>)
    requires IsVector(h, K)
    ensures |r| == K
  {
    hide CountAfter;
    [CountAfter(h, 1), CountAfter(h, 2), CountAfter(h, 3), CountAfter(h, 4), CountAfter(h, 5), CountAfter(h, 6)]
  }

  lemma CountsAt(h: seq<seq<Zq>>)
    requires IsVector(h, K)
    ensures forall i | 0 <= i < K :: Counts(h)[i] == CountAfter(h, i + 1)
  {
    hide CountAfter;
  }

  function PackHint(h: seq<seq<Zq>>): (b: seq<Byte>)
    requires IsVector(h, K)
    ensures |b| == HINT_BYTES
  {
    hide Listed;
    Slots(Listed(h, K)) + Counts(h)
  }

  lemma {:induction false} ListedPrefix(h: seq<seq<Zq>>, i: nat, j: nat)
    requires i <= j <= |h| && IsVector(h, |h|)
    ensures Listed(h, i) <= Listed(h, j)
    decreases j
  {
    hide Positions;
    if i < j { ListedPrefix(h, i, j - 1); }
  }

  lemma SlotsStep(list: seq<Byte>, j: Byte)
    ensures Slots(list + [j]) == if |list| < OMEGA then Slots(list)[|list| := j] else Slots(list)
  {}

  /** The loops of pack_hint, which stop storing at 55 positions. */
  method PackHintLoop(h: seq<seq<Zq>>) returns (buf: seq<Byte>)
    requires IsVector(h, K)
    ensures buf == PackHint(h)
  {
    hide Slots, Counts, Positions, Listed;
    var slots: seq<Byte> := seq(OMEGA, _ => 0);
    var counts: seq<Byte> := [];
    EmptySlots(slots);
    assert Listed(h, 0) == [] by { NothingListed(h); }
    var index := 0;
    for i := 0 to K
      invariant slots == Slots(Listed(h, i)) && index == Cap(|Listed(h, i)|)
      invariant |counts| == i && forall t | 0 <= t < i :: counts[t] == CountAfter(h, t + 1)
    {
      ListedStep(h, i);
      slots, index := StorePositions(h[i], Listed(h, i), slots, index);
      counts := counts + [index];
    }
    CountsAt(h);
    assert counts == Counts(h);
    buf := slots + counts;
  }

  lemma NothingListed(h: seq<seq<Zq>>)
    requires IsVector(h, K)
    ensures Listed(h, 0) == []
  {}

  lemma ListedStep(h: seq<seq<Zq>>, i: nat)
    requires i < |h| && IsVector(h, |h|)
    ensures Listed(h, i + 1) == Listed(h, i) + Positions(h[i], 0)
  {
    hide Positions;
  }

  lemma EmptySlots(s: seq<Byte>)
    requires |s| == OMEGA && forall k | 0 <= k < OMEGA :: s[k] == 0
    ensures s == Slots([])
  {}

  method StorePositions(p: seq<Zq>, ghost before: seq<Byte>, slots0: seq<Byte>, index0: Byte)
    returns (slots: seq<Byte>, index: Byte)
    requires |p| == N && slots0 == Slots(before) && index0 == Cap(|before|)
    ensures slots == Slots(before + Positions(p, 0)) && index == Cap(|before + Positions(p, 0)|)
  {
    hide Slots, Positions;
    slots, index := slots0, index0;
    ghost var list: seq<Byte> := before;
    for j := 0 to N
      invariant list + Positions(p, j) == before + Positions(p, 0)
      invariant slots == Slots(list) && index == Cap(|list|)
    {
      PositionsStep(p, j, list);
      if p[j] != 0 {
        var position: Byte := j;
        SlotsStep(list, position);
        if index < OMEGA {
          slots := slots[index := position];
          index := index + 1;
        }
        list := list + [position];
      }
    }
    PositionsEnd(p, list);
  }

  lemma PositionsStep(p: seq<Zq>, j: nat, list: seq<Byte>)
    requires |p| == N && j < N
    ensures list + Positions(p, j) == (if p[j] != 0 then list + [j] else list) + Positions(p, j + 1)
  {
    if p[j] != 0 {
      assert list + ([j] + Positions(p, j + 1)) == (list + [j]) + Positions(p, j + 1);
    }
  }

  lemma PositionsEnd(p: seq<Zq>, list: seq<Byte>)
    requires |p| == N
    ensures list + Positions(p, N) == list
  {}

  // ----- unpack_hint

  /** The running count after i polynomials. */
  function Count(b: seq<Byte>, i: nat): Byte
    requires |b| == HINT_BYTES && i <= K
  {
    if i == 0 then 0 else b[OMEGA + i - 1]
  }

  /** Polynomial i has a legal count and its positions increase. */
  ghost predicate SegmentOk(b: seq<Byte>, i: nat)
    requires |b| == HINT_BYTES && i < K
  {
    Count(b, i) <= Count(b, i + 1) <= OMEGA && Increasing(Segment(b, i))
  }

  function Segment(b: seq<Byte>, i: nat): seq<Byte>
    requires |b| == HINT_BYTES && i < K
  {
    if Count(b, i) <= Count(b, i + 1) <= OMEGA then b[Count(b, i)..Count(b, i + 1)] else []
  }

  ghost predicate SegmentsOk(b: seq<Byte>, i: nat)
    requires |b| == HINT_BYTES && i <= K
  {
    forall t | 0 <= t < i :: SegmentOk(b, t)
  }

  /** The byte strings unpack_hint accepts. */
  ghost predicate HintAccepted(b: seq<Byte>)
    requires |b| == HINT_BYTES
  {
    SegmentsOk(b, K) && forall k | Count(b, K) <= k < OMEGA :: 0 <= k < HINT_BYTES && b[k] == 0
  }

  ghost function HintOf(b: seq<Byte>, i: nat): (h: seq<seq<Zq>>)
    requires |b| == HINT_BYTES && i <= K && SegmentsOk(b, i)
    ensures |h| == i && forall t | 0 <= t < i :: h[t] == Indicator(Segment(b, t))
  {
    if i == 0 then [] else HintOf(b, i - 1) + [Indicator(Segment(b, i - 1))]
  }

  /** One polynomial of unpack_hint: reads positions lo..hi, refusing a position that does not increase. */
  method ReadSegment(b: seq<Byte>, lo: nat, hi: nat) returns (r: Option<seq<Zq>>)
    requires |b| == HINT_BYTES && lo <= hi <= OMEGA
    ensures r.Some? <==> Increasing(b[lo..hi])
    ensures r.Some? ==> r.value == Indicator(b[lo..hi])
  {
    hide Indicator;
    var p: seq<Zq> := seq(N, _ => 0);
    EmptyIndicator(p);
    var lastIdx: int := -1;
    var idx := lo;
    assert b[lo..lo] == [];
    while idx < hi
      invariant lo <= idx <= hi && Increasing(b[lo..idx]) && p == Indicator(b[lo..idx])
      invariant idx > lo ==> lastIdx == b[idx - 1]
    {
      var val: int := b[idx];
      // -1 compared as an unsigned word is larger than every position
      var limit := if lastIdx < 0 then 0xFFFF_FFFF_FFFF_FFFF else lastIdx;
      if val <= limit && idx > lo {
        assert b[lo..hi][idx - lo] <= b[lo..hi][idx - 1 - lo];
        return None;
      }
      IndicatorStep(b[lo..idx], b[idx], p);
      assert b[lo..idx + 1] == b[lo..idx] + [b[idx]];
      IncreasingStep(b[lo..idx], b[idx]);
      p := p[val := 1];
      lastIdx := val;
      idx := idx + 1;
    }
    return Some(p);
  }

  lemma EmptyIndicator(p: seq<Zq>)
    requires |p| == N && forall j | 0 <= j < N :: p[j] == 0
    ensures p == Indicator([])
  {}

  lemma IndicatorStep(s: seq<Byte>, v: Byte, p: seq<Zq>)
    requires p == Indicator(s)
    ensures p[v := 1] == Indicator(s + [v])
  {}

  lemma IncreasingStep(s: seq<Byte>, v: Byte)
    requires Increasing(s) && (|s| > 0 ==> s[|s| - 1] < v)
    ensures Increasing(s + [v])
  {
    forall i, j | 0 <= i < j < |s + [v]|
      ensures (s + [v])[i] < (s + [v])[j]
    {
      if j == |s| && i < |s| - 1 { assert s[i] < s[|s| - 1]; }
    }
  }

  /** unpack_hint. */
  method UnpackHint(b: seq<Byte>) returns (r: Option<seq<seq<Zq>>>)
    requires |b| == HINT_BYTES
    ensures r.Some? <==> HintAccepted(b)
    ensures r.Some? ==> r.value == HintOf(b, K)
  {
    hide Increasing, Indicator, SegmentOk, SegmentsOk, Segment, HintAccepted, HintOf, Count;
    var h: seq<seq<Zq>> := [];
    var last := 0;
    FirstSegment(b);
    for i := 0 to K
      invariant 0 <= last <= OMEGA && last == Count(b, i) && SegmentsOk(b, i) && h == HintOf(b, i)
    {
      var count: int := b[OMEGA + i];
      SegmentMeaning(b, i);
      if count < last || count > OMEGA { return None; }
      var p := ReadSegment(b, last, count);
      if p.None? { return None; }
      NextSegment(b, i);
      h := h + [p.value];
      last := count;
    }
    var idx := last;
    while idx < OMEGA
      invariant last <= idx <= OMEGA && forall k | last <= k < idx :: b[k] == 0
    {
      if b[idx] != 0 {
        PaddingMeaning(b);
        return None;
      }
      idx := idx + 1;
    }
    PaddingMeaning(b);
    return Some(h);
  }

  lemma FirstSegment(b: seq<Byte>)
    requires |b| == HINT_BYTES
    ensures Count(b, 0) == 0 && SegmentsOk(b, 0) && HintOf(b, 0) == []
  {}

  lemma SegmentMeaning(b: seq<Byte>, i: nat)
    requires |b| == HINT_BYTES && i < K
    ensures Count(b, i + 1) == b[OMEGA + i]
    ensures Count(b, i) <= b[OMEGA + i] <= OMEGA ==> Segment(b, i) == b[Count(b, i)..b[OMEGA + i]]
    ensures SegmentOk(b, i) <==> Count(b, i) <= b[OMEGA + i] <= OMEGA && Increasing(Segment(b, i))
    ensures HintAccepted(b) ==> SegmentOk(b, i)
  {
    hide Increasing;
  }

  lemma NextSegment(b: seq<Byte>, i: nat)
    requires |b| == HINT_BYTES && i < K && SegmentsOk(b, i) && SegmentOk(b, i)
    ensures SegmentsOk(b, i + 1) && HintOf(b, i + 1) == HintOf(b, i) + [Indicator(Segment(b, i))]
  {
    hide SegmentOk, Indicator, Segment;
  }

  lemma PaddingMeaning(b: seq<Byte>)
    requires |b| == HINT_BYTES && SegmentsOk(b, K) && 0 <= Count(b, K) <= OMEGA
    ensures HintAccepted(b) <==> forall k | Count(b, K) <= k < OMEGA :: b[k] == 0
  {
    hide SegmentsOk;
  }

  // ----- the two round trips of hints

  /** Six binary polynomials with at most 55 ones in all. */
  ghost predicate HintVector(h: seq<seq<Zq>>)
  {
    IsVector(h, K) && (forall t | 0 <= t < K :: Binary(h[t])) && |Listed(h, K)| <= OMEGA
  }

  lemma PackedCounts(h: seq<seq<Zq>>, i: nat)
    requires HintVector(h) && i <= K
    ensures Count(PackHint(h), i) == |Listed(h, i)| <= OMEGA
    ensures PackHint(h)[..|Listed(h, i)|] == Listed(h, i)
  {
    hide Positions, Binary, Listed, Slots, Counts;
    var all := Listed(h, K);
    CountsAt(h);
    ListedPrefix(h, i, K);
    StoredPrefix(all, Counts(h), |Listed(h, i)|);
    assert all[..|Listed(h, i)|] == Listed(h, i);
    if i == 0 { NothingListed(h); }
  }

  lemma StoredPrefix(list: seq<Byte>, counts: seq<Byte>, n: nat)
    requires n <= |list| <= OMEGA
    ensures (Slots(list) + counts)[..n] == list[..n]
  {}

  lemma PackedSegment(h: seq<seq<Zq>>, i: nat)
    requires HintVector(h) && i < K
    ensures SegmentOk(PackHint(h), i) && Segment(PackHint(h), i) == Positions(h[i], 0)
  {
    hide Positions, PackHint, Binary;
    var b := PackHint(h);
    PackedCounts(h, i);
    PackedCounts(h, i + 1);
    var m, n := |Listed(h, i)|, |Listed(h, i + 1)|;
    assert Listed(h, i + 1) == Listed(h, i) + Positions(h[i], 0);
    assert b[m..n] == b[..n][m..];
    assert Listed(h, i + 1)[m..] == Positions(h[i], 0);
  }

  /** unpack_hint(pack_hint(h)) = h. */
  lemma HintRoundTrip(h: seq<seq<Zq>>)
    requires HintVector(h)
    ensures HintAccepted(PackHint(h)) && HintOf(PackHint(h), K) == h
  {
    hide Positions, Binary, Increasing, SegmentOk, Segment, Indicator, PackHint, Listed, Count;
    var b := PackHint(h);
    forall i | 0 <= i < K
      ensures SegmentOk(b, i) && Indicator(Segment(b, i)) == h[i]
    {
      PackedSegment(h, i);
      IndicatorOfPositions(h[i]);
    }
    PackedPadding(h);
  }

  lemma PackedPadding(h: seq<seq<Zq>>)
    requires HintVector(h)
    ensures forall k | Count(PackHint(h), K) <= k < OMEGA :: 0 <= k < HINT_BYTES && PackHint(h)[k] == 0
  {
    hide Positions, Binary, Listed;
    PackedCounts(h, K);
  }

  lemma {:induction false} ListedOfAccepted(b: seq<Byte>, i: nat)
    requires |b| == HINT_BYTES && HintAccepted(b) && i <= K
    ensures 0 <= Count(b, i) <= OMEGA
    ensures Listed(HintOf(b, K), i) == b[..Count(b, i)]
    decreases i
  {
    hide Positions, Increasing, Indicator, Segment, HintOf, Count;
    NoCount(b);
    if i > 0 {
      ListedOfAccepted(b, i - 1);
      AcceptedSegment(b, i - 1);
    }
  }

  lemma NoCount(b: seq<Byte>)
    requires |b| == HINT_BYTES
    ensures Count(b, 0) == 0
  {}

  /** An accepted segment holds the positions of its polynomial. */
  lemma AcceptedSegment(b: seq<Byte>, i: nat)
    requires |b| == HINT_BYTES && HintAccepted(b) && i < K
    ensures 0 <= Count(b, i) <= Count(b, i + 1) <= OMEGA
    ensures b[..Count(b, i)] + Positions(HintOf(b, K)[i], 0) == b[..Count(b, i + 1)]
  {
    hide Positions, Increasing, Indicator, HintOf;
    assert SegmentOk(b, i);
    IncreasingOf(b, i);
    PositionsOfIndicator(Segment(b, i));
    assert b[..Count(b, i)] + Segment(b, i) == b[..Count(b, i + 1)];
  }

  lemma IncreasingOf(b: seq<Byte>, i: nat)
    requires |b| == HINT_BYTES && i < K && SegmentOk(b, i)
    ensures Increasing(Segment(b, i))
  {}

  /** pack_hint(unpack_hint(b)) = b: the accepted strings are exactly the packed ones. */
  lemma HintCanonical(b: seq<Byte>)
    requires |b| == HINT_BYTES && HintAccepted(b)
    ensures HintVector(HintOf(b, K)) && PackHint(HintOf(b, K)) == b
  {
    hide Positions, Increasing, Indicator, PackHint, SegmentsOk, HintOf, Segment, Listed, Count, Binary;
    var h := HintOf(b, K);
    forall i | 0 <= i < K
      ensures Binary(h[i])
    {
      SegmentMeaning(b, i);
      PositionsOfIndicator(Segment(b, i));
    }
    ListedOfAccepted(b, K);
    forall k | 0 <= k < HINT_BYTES
      ensures PackHint(h)[k] == b[k]
    {
      if k < OMEGA { RepackedSlot(b, k); } else { RepackedCount(b, k - OMEGA); }
    }
  }

  lemma RepackedSlot(b: seq<Byte>, k: nat)
    requires |b| == HINT_BYTES && HintAccepted(b) && k < OMEGA
    ensures PackHint(HintOf(b, K))[k] == b[k]
  {
    hide Positions, HintOf, Listed, SegmentsOk, Counts;
    ListedOfAccepted(b, K);
  }

  lemma RepackedCount(b: seq<Byte>, i: nat)
    requires |b| == HINT_BYTES && HintAccepted(b) && i < K
    ensures PackHint(HintOf(b, K))[OMEGA + i] == b[OMEGA + i]
  {
    hide Positions, HintOf, Listed, SegmentsOk, Slots, Counts;
    ListedOfAccepted(b, i + 1);
    CountsAt(HintOf(b, K));
  }

  // ----- keys and signatures

  datatype PublicKey = PublicKey(rho: Bytes, t1: seq<seq<Zq>>)
  datatype SecretKey = SecretKey(rho: Bytes, k: Bytes, tr: Bytes, s1: seq<seq<Zq>>, s2: seq<seq<Zq>>, t0: seq<seq<Zq>>)
  datatype Signature = Signature(cTilde: Bytes, z: seq<seq<Zq>>, h: seq<seq<Zq>>)

  const PK_BYTES := 1952
  const SK_BYTES := 4032
  const SIG_BYTES := 3309

  predicate PkShape(pk: PublicKey)
  {
    |pk.rho| == 32 && IsVector(pk.t1, K)
  }

  predicate SkShape(sk: SecretKey)
  {
    && |sk.rho| == 32 && |sk.k| == 32 && |sk.tr| == 64
    && IsVector(sk.s1, L) && IsVector(sk.s2, K) && IsVector(sk.t0, K)
  }

  predicate SigShape(sig: Signature)
  {
    |sig.cTilde| == 48 && IsVector(sig.z, L) && IsVector(sig.h, K)
  }

  function PackPk(pk: PublicKey): (b: Bytes)
    requires PkShape(pk)
    ensures |b| == PK_BYTES
  {
    PackVectorLength(T1, pk.t1);
    pk.rho + PackVector(T1, pk.t1)
  }

  function UnpackPk(b: Bytes): (pk: PublicKey)
    requires |b| == PK_BYTES
    ensures PkShape(pk) && VectorRepresentable(T1, pk.t1)
  {
    hide UnpackVector;
    PublicKey(b[..32], UnpackVector(T1, b[32..], K))
  }

  function PackSk(sk: SecretKey): (b: Bytes)
    requires SkShape(sk)
    ensures |b| == SK_BYTES
  {
    PackVectorLength(Secret, sk.s1);
    PackVectorLength(Secret, sk.s2);
    PackVectorLength(T0, sk.t0);
    sk.rho + sk.k + sk.tr + PackVector(Secret, sk.s1) + PackVector(Secret, sk.s2) + PackVector(T0, sk.t0)
  }

  function UnpackSk(b: Bytes): (sk: SecretKey)
    requires |b| == SK_BYTES
    ensures SkShape(sk)
    ensures VectorRepresentable(Secret, sk.s1) && VectorRepresentable(Secret, sk.s2) && VectorRepresentable(T0, sk.t0)
  {
    hide UnpackVector;
    SecretKey(b[..32], b[32..64], b[64..128], UnpackVector(Secret, b[128..768], L),
              UnpackVector(Secret, b[768..1536], K), UnpackVector(T0, b[1536..], K))
  }

  function PackSig(sig: Signature): (b: Bytes)
    requires SigShape(sig)
    ensures |b| == SIG_BYTES
  {
    PackVectorLength(Z, sig.z);
    sig.cTilde + PackVector(Z, sig.z) + PackHint(sig.h)
  }

  /** The byte strings unpack_sig accepts, and what it returns on them. */
  ghost predicate SigAccepted(b: Bytes)
  {
    |b| == SIG_BYTES && HintAccepted(b[3248..])
  }

  ghost function SigOf(b: Bytes): (sig: Signature)
    requires SigAccepted(b)
    ensures SigShape(sig) && VectorRepresentable(Z, sig.z)
  {
    Signature(b[..48], UnpackVector(Z, b[48..3248], L), HintOf(b[3248..], K))
  }

  /** unpack_sig. */
  method UnpackSig(b: Bytes) returns (r: Option<Signature>)
    requires |b| == SIG_BYTES
    ensures r.Some? <==> SigAccepted(b)
    ensures r.Some? ==> r.value == SigOf(b)
  {
    hide HintAccepted, UnpackVector, HintOf;
    var z := UnpackVector(Z, b[48..3248], L);
    var h := UnpackHint(b[3248..]);
    if h.None? { return None; }
    return Some(Signature(b[..48], z, h.value));
  }

  // ----- round trips

  /** unpack_pk(pack_pk(pk)) = pk when every t1 coefficient has ten bits. */
  lemma PkRoundTrip(pk: PublicKey)
    requires PkShape(pk) && VectorRepresentable(T1, pk.t1)
    ensures UnpackPk(PackPk(pk)) == pk
  {
    hide PackVector, UnpackVector, VectorRepresentable;
    UnpackPackVector(T1, pk.t1);
    var b := PackPk(pk);
    assert b[..32] == pk.rho && b[32..] == PackVector(T1, pk.t1);
  }

  /** pack_pk(unpack_pk(b)) = b for every byte string. */
  lemma PkCanonical(b: Bytes)
    requires |b| == PK_BYTES
    ensures PackPk(UnpackPk(b)) == b
  {
    hide PackVector, UnpackVector, VectorRepresentable;
    PackUnpackVector(T1, b[32..], K);
    assert b == b[..32] + b[32..];
  }

  /** unpack_sk(pack_sk(sk)) = sk when secrets lie in -11..4 and t0 in -4095..4096. */
  lemma SkRoundTrip(sk: SecretKey)
    requires SkShape(sk)
    requires VectorRepresentable(Secret, sk.s1) && VectorRepresentable(Secret, sk.s2) && VectorRepresentable(T0, sk.t0)
    ensures UnpackSk(PackSk(sk)) == sk
  {
    hide PackVector, UnpackVector, VectorRepresentable;
    UnpackPackVector(Secret, sk.s1);
    UnpackPackVector(Secret, sk.s2);
    UnpackPackVector(T0, sk.t0);
    var s1, s2, t0 := PackVector(Secret, sk.s1), PackVector(Secret, sk.s2), PackVector(T0, sk.t0);
    SixParts(sk.rho, sk.k, sk.tr, s1, s2, t0);
  }

  lemma SixParts(rho: Bytes, k: Bytes, tr: Bytes, s1: Bytes, s2: Bytes, t0: Bytes)
    requires |rho| == 32 && |k| == 32 && |tr| == 64 && |s1| == 640 && |s2| == 768
    ensures var b := rho + k + tr + s1 + s2 + t0;
            && b[..32] == rho && b[32..64] == k && b[64..128] == tr
            && b[128..768] == s1 && b[768..1536] == s2 && b[1536..] == t0
  {}

  /** pack_sk(unpack_sk(b)) = b for every byte string. */
  lemma SkCanonical(b: Bytes)
    requires |b| == SK_BYTES
    ensures PackSk(UnpackSk(b)) == b
  {
    hide PackVector, UnpackVector, VectorRepresentable;
    PackUnpackVector(Secret, b[128..768], L);
    PackUnpackVector(Secret, b[768..1536], K);
    PackUnpackVector(T0, b[1536..], K);
    assert b == b[..32] + b[32..64] + b[64..128] + b[128..768] + b[768..1536] + b[1536..];
  }

  /** unpack_sig(pack_sig(sig)) = sig for z in (-2^19, 2^19] and a binary hint with at most 55 ones. */
  lemma SigRoundTrip(sig: Signature)
    requires SigShape(sig) && VectorRepresentable(Z, sig.z) && HintVector(sig.h)
    ensures SigAccepted(PackSig(sig)) && SigOf(PackSig(sig)) == sig
  {
    hide PackVector, UnpackVector, VectorRepresentable, PackHint, HintAccepted, HintOf;
    UnpackPackVector(Z, sig.z);
    HintRoundTrip(sig.h);
    var z, h := PackVector(Z, sig.z), PackHint(sig.h);
    var b := PackSig(sig);
    assert b[..48] == sig.cTilde && b[48..3248] == z && b[3248..] == h;
  }

  /** pack_sig(unpack_sig(b)) = b for every accepted byte string: no signature has a second spelling. */
  lemma SigCanonical(b: Bytes)
    requires SigAccepted(b)
    ensures VectorRepresentable(Z, SigOf(b).z) && HintVector(SigOf(b).h) && PackSig(SigOf(b)) == b
  {
    hide PackVector, UnpackVector, VectorRepresentable, PackHint, HintAccepted, HintOf, HintVector;
    PackUnpackVector(Z, b[48..3248], L);
    HintCanonical(b[3248..]);
    assert b == b[..48] + b[48..3248] + b[3248..];
  }
}
