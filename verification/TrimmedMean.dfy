/**
 * The coordinate-wise trimmed mean of solomon-cloud/src/ai_aggregator.rs, with floating point read
 * as real arithmetic.
 */
module TrimmedMean {

  // ----- sorting

  ghost predicate Ascending(s: seq<real>)
  {
    forall i, j | 0 <= i < j < |s| :: s[i] <= s[j]
  }

  function Insert(x: real, s: seq<real>): seq<real>
  {
    if s == [] || x <= s[0] then [x] + s else [s[0]] + Insert(x, s[1..])
  }

  function Sorted(s: seq<real>): seq<real>
  {
    if s == [] then [] else Insert(s[0], Sorted(s[1..]))
  }

  ghost predicate AtLeast(s: seq<real>, m: real)
  {
    forall i | 0 <= i < |s| :: m <= s[i]
  }

  lemma {:induction false} InsertAtLeast(x: real, s: seq<real>, m: real)
    requires AtLeast(s, m) && m <= x
    ensures AtLeast(Insert(x, s), m)
  {
    if s != [] && x > s[0] { InsertAtLeast(x, s[1..], m); }
  }

  lemma ConsAscending(x: real, s: seq<real>)
    requires Ascending(s) && AtLeast(s, x)
    ensures Ascending([x] + s)
  {
    var r := [x] + s;
    forall i, j | 0 <= i < j < |r| ensures r[i] <= r[j] { assert r[j] == s[j - 1]; }
  }

  lemma {:induction false} InsertAscending(x: real, s: seq<real>)
    requires Ascending(s)
    ensures Ascending(Insert(x, s))
  {
    if s == [] || x <= s[0] {
      ConsAscending(x, s);
    } else {
      InsertAscending(x, s[1..]);
      InsertAtLeast(x, s[1..], s[0]);
      ConsAscending(s[0], Insert(x, s[1..]));
    }
  }

  lemma {:induction false} InsertMultiset(x: real, s: seq<real>)
    ensures multiset(Insert(x, s)) == multiset{x} + multiset(s) && |Insert(x, s)| == |s| + 1
  {
    if s != [] && x > s[0] {
      InsertMultiset(x, s[1..]);
      assert s == [s[0]] + s[1..];
    }
  }

  lemma {:induction false} SortedSorts(s: seq<real>)
    ensures Ascending(Sorted(s)) && multiset(Sorted(s)) == multiset(s) && |Sorted(s)| == |s|
  {
    if s != [] {
      SortedSorts(s[1..]);
      InsertAscending(s[0], Sorted(s[1..]));
      InsertMultiset(s[0], Sorted(s[1..]));
      assert s == [s[0]] + s[1..];
    }
  }

  // ----- counting

  /** The number of values v with v > m, or with v < m. */
  function Count(s: seq<real>, m: real, above: bool): nat
  {
    if s == [] then 0 else (if Beyond(s[0], m, above) then 1 else 0) + Count(s[1..], m, above)
  }

  predicate Beyond(v: real, m: real, above: bool)
  {
    if above then v > m else v < m
  }

  lemma {:induction false} InsertCount(x: real, s: seq<real>, m: real, above: bool)
    ensures Count(Insert(x, s), m, above) == (if Beyond(x, m, above) then 1 else 0) + Count(s, m, above)
  {
    hide Beyond;
    if s != [] && x > s[0] {
      InsertCount(x, s[1..], m, above);
      assert ([s[0]] + Insert(x, s[1..]))[1..] == Insert(x, s[1..]);
    } else {
      assert ([x] + s)[1..] == s;
    }
  }

  lemma {:induction false} SortedCount(s: seq<real>, m: real, above: bool)
    ensures Count(Sorted(s), m, above) == Count(s, m, above)
  {
    if s != [] {
      SortedCount(s[1..], m, above);
      InsertCount(s[0], Sorted(s[1..]), m, above);
    }
  }

  lemma {:induction false} CountConcat(a: seq<real>, b: seq<real>, m: real, above: bool)
    ensures Count(a + b, m, above) == Count(a, m, above) + Count(b, m, above)
  {
    hide Beyond;
    if a == [] {
      assert a + b == b;
    } else {
      assert (a + b)[1..] == a[1..] + b;
      CountConcat(a[1..], b, m, above);
    }
  }

  lemma {:induction false} CountAll(s: seq<real>, m: real, above: bool)
    requires forall i | 0 <= i < |s| :: Beyond(s[i], m, above)
    ensures Count(s, m, above) == |s|
  {
    if s != [] { CountAll(s[1..], m, above); }
  }

  // ----- clients

  /** The number of clients not marked honest. */
  function Faulty(honest: seq<bool>): nat
  {
    if honest == [] then 0 else (if honest[0] then 0 else 1) + Faulty(honest[1..])
  }

  /** lo and hi enclose the values of the honest clients. */
  ghost predicate Encloses(vals: seq<real>, honest: seq<bool>, lo: real, hi: real)
    requires |vals| == |honest|
  {
    forall c | 0 <= c < |vals| && honest[c] :: lo <= vals[c] <= hi
  }

  /** Only faulty clients lie outside the bounds. */
  lemma {:induction false} FewOutside(vals: seq<real>, honest: seq<bool>, lo: real, hi: real)
    requires |vals| == |honest| && Encloses(vals, honest, lo, hi)
    ensures Count(vals, hi, true) <= Faulty(honest) && Count(vals, lo, false) <= Faulty(honest)
  {
    if vals != [] {
      assert Encloses(vals[1..], honest[1..], lo, hi);
      FewOutside(vals[1..], honest[1..], lo, hi);
    }
  }

  // ----- trimming

  /** min(ceil(n / 5), (n - 1) / 2). */
  function TrimCount(n: nat): (t: nat)
    requires n > 0
    ensures 2 * t < n
  {
    var fifth := (n + 4) / 5;
    if fifth <= (n - 1) / 2 then fifth else (n - 1) / 2
  }

  /** A kept value has more values on either side than there are faulty clients. */
  lemma KeptInside(vals: seq<real>, honest: seq<bool>, lo: real, hi: real, t: nat, k: nat)
    requires |vals| == |honest| && Encloses(vals, honest, lo, hi) && Faulty(honest) <= t && t <= k < |vals| - t
    ensures |Sorted(vals)| == |vals| && lo <= Sorted(vals)[k] <= hi
  {
    var s := Sorted(vals);
    SortedSorts(vals);
    FewOutside(vals, honest, lo, hi);
    SortedCount(vals, hi, true);
    SortedCount(vals, lo, false);
    ManyAbove(s, k, hi);
    ManyBelow(s, k, lo);
  }

  /** In ascending order every value from one above m on is above m. */
  lemma ManyAbove(s: seq<real>, k: nat, m: real)
    requires Ascending(s) && k < |s|
    ensures s[k] > m ==> Count(s, m, true) >= |s| - k
  {
    if s[k] > m {
      var tail := s[k..];
      assert s == s[..k] + tail;
      CountConcat(s[..k], tail, m, true);
      forall i | 0 <= i < |tail| ensures Beyond(tail[i], m, true) { assert tail[i] == s[k + i]; }
      CountAll(tail, m, true);
    }
  }

  lemma ManyBelow(s: seq<real>, k: nat, m: real)
    requires Ascending(s) && k < |s|
    ensures s[k] < m ==> Count(s, m, false) >= k + 1
  {
    if s[k] < m {
      var head := s[..k + 1];
      assert s == head + s[k + 1..];
      CountConcat(head, s[k + 1..], m, false);
      forall i | 0 <= i < |head| ensures Beyond(head[i], m, false) { assert head[i] == s[i]; }
      CountAll(head, m, false);
    }
  }

  // ----- means

  function Sum(s: seq<real>): real
  {
    if s == [] then 0.0 else Sum(s[..|s| - 1]) + s[|s| - 1]
  }

  lemma {:induction false} SumBounds(s: seq<real>, lo: real, hi: real)
    requires forall i | 0 <= i < |s| :: lo <= s[i] <= hi
    ensures lo * |s| as real <= Sum(s) <= hi * |s| as real
  {
    if s != [] {
      SumBounds(s[..|s| - 1], lo, hi);
      var n := (|s| - 1) as real;
      assert |s| as real == n + 1.0;
      assert lo * (n + 1.0) == lo * n + lo && hi * (n + 1.0) == hi * n + hi;
    }
  }

  function Mean(s: seq<real>): real
    requires s != []
  {
    Sum(s) / |s| as real
  }

  lemma MeanBounds(s: seq<real>, lo: real, hi: real)
    requires s != [] && forall i | 0 <= i < |s| :: lo <= s[i] <= hi
    ensures lo <= Mean(s) <= hi
  {
    SumBounds(s, lo, hi);
    QuotientBounds(Sum(s), |s| as real, lo, hi);
  }

  lemma QuotientBounds(x: real, n: real, lo: real, hi: real)
    requires n > 0.0 && lo * n <= x <= hi * n
    ensures lo <= x / n <= hi
  {
    var q := x / n;
    assert q * n == x;
    assert q < lo ==> (lo - q) * n > 0.0;
    assert q > hi ==> (q - hi) * n > 0.0;
  }

  /** The values left of a sorted column. */
  function Kept(sorted: seq<real>): (r: seq<real>)
    requires sorted != []
    ensures r != []
  {
    var t := TrimCount(|sorted|);
    sorted[t..|sorted| - t]
  }

  function TrimmedMean(vals: seq<real>): real
    requires vals != []
  {
    SortedSorts(vals);
    Mean(Kept(Sorted(vals)))
  }

  /** With at most trim_count faulty clients the mean lies within the honest clients' values. */
  lemma Robust(vals: seq<real>, honest: seq<bool>, lo: real, hi: real)
    requires vals != [] && |vals| == |honest| && Encloses(vals, honest, lo, hi) && Faulty(honest) <= TrimCount(|vals|)
    ensures lo <= TrimmedMean(vals) <= hi
  {
    hide Mean, Sorted, TrimCount;
    SortedSorts(vals);
    var t := TrimCount(|vals|);
    var s := Sorted(vals);
    var kept := Kept(s);
    forall i | 0 <= i < |kept| ensures lo <= kept[i] <= hi { KeptInside(vals, honest, lo, hi, t, t + i); }
    MeanBounds(kept, lo, hi);
  }

  // ----- what the mean is

  lemma {:induction false} SumConcat(a: seq<real>, b: seq<real>)
    ensures Sum(a + b) == Sum(a) + Sum(b)
    decreases |b|
  {
    if b == [] {
      assert a + b == a;
    } else {
      SumConcat(a, b[..|b| - 1]);
      assert (a + b)[..|a + b| - 1] == a + b[..|b| - 1];
    }
  }

  lemma SumSingle(x: real)
    ensures Sum([x]) == x
  {
    assert [x][..0] == [];
  }

  lemma {:induction false} InsertSum(x: real, s: seq<real>)
    ensures Sum(Insert(x, s)) == x + Sum(s)
  {
    hide Sum;
    if s == [] || x <= s[0] {
      SumConcat([x], s);
      SumSingle(x);
    } else {
      InsertSum(x, s[1..]);
      SumConcat([s[0]], Insert(x, s[1..]));
      SumConcat([s[0]], s[1..]);
      assert s == [s[0]] + s[1..];
    }
  }

  lemma {:induction false} SortedSum(s: seq<real>)
    ensures Sum(Sorted(s)) == Sum(s)
  {
    if s != [] {
      SortedSum(s[1..]);
      InsertSum(s[0], Sorted(s[1..]));
      SumConcat([s[0]], s[1..]);
      SumSingle(s[0]);
      assert s == [s[0]] + s[1..];
    }
  }

  /** The mean of one value is that value. */
  lemma MeanSingle(x: real)
    ensures Mean([x]) == x
  {
    SumSingle(x);
  }

  /** Means combine by weight; with MeanSingle this determines the mean. */
  lemma MeanConcat(a: seq<real>, b: seq<real>)
    requires a != [] && b != []
    ensures Mean(a + b) * |a + b| as real == Mean(a) * |a| as real + Mean(b) * |b| as real
  {
    hide Sum;
    SumConcat(a, b);
    MeanTimes(a);
    MeanTimes(b);
    MeanTimes(a + b);
  }

  lemma MeanTimes(s: seq<real>)
    requires s != []
    ensures Mean(s) * |s| as real == Sum(s)
  {}

  // A rearrangement, as a hidden predicate: its facts are drawn one at a time.

  ghost predicate Rearranges(a: seq<real>, b: seq<real>)
  {
    multiset(a) == multiset(b)
  }

  lemma SameLength(a: seq<real>, b: seq<real>)
    requires Rearranges(a, b)
    ensures |a| == |b|
  {
    assert |multiset(a)| == |a| && |multiset(b)| == |b|;
  }

  lemma SameMember(a: seq<real>, b: seq<real>, x: real)
    requires Rearranges(a, b) && x in a
    ensures x in b
  {
    assert x in multiset(a);
  }

  lemma SameTail(a: seq<real>, b: seq<real>)
    requires Rearranges(a, b) && a != [] && b != [] && a[0] == b[0]
    ensures Rearranges(a[1..], b[1..])
  {
    assert a == [a[0]] + a[1..] && b == [b[0]] + b[1..];
    assert multiset(a[1..]) == multiset(a) - multiset{a[0]};
    assert multiset(b[1..]) == multiset(b) - multiset{b[0]};
  }

  lemma SortedRearranges(s: seq<real>)
    ensures Rearranges(s, Sorted(s)) && Rearranges(Sorted(s), s) && Ascending(Sorted(s)) && |Sorted(s)| == |s|
  {
    SortedSorts(s);
  }

  lemma FirstIsLeast(s: seq<real>, x: real)
    requires Ascending(s) && x in s
    ensures s[0] <= x
  {}

  /** Two ascending sequences of the same values are equal. */
  lemma {:induction false} AscendingUnique(a: seq<real>, b: seq<real>)
    requires Ascending(a) && Ascending(b) && Rearranges(a, b) && Rearranges(b, a)
    ensures a == b
  {
    hide Rearranges;
    SameLength(a, b);
    if a != [] {
      SameMember(a, b, a[0]);
      SameMember(b, a, b[0]);
      FirstIsLeast(a, b[0]);
      FirstIsLeast(b, a[0]);
      SameTail(a, b);
      SameTail(b, a);
      AscendingUnique(a[1..], b[1..]);
      assert a == [a[0]] + a[1..] && b == [b[0]] + b[1..];
    }
  }

  /** Every value of a is at most every value of b. */
  ghost predicate Below(a: seq<real>, b: seq<real>)
  {
    forall x, y | x in a && y in b :: x <= y
  }

  lemma JoinAscending(a: seq<real>, b: seq<real>)
    requires Ascending(a) && Ascending(b) && Below(a, b)
    ensures Ascending(a + b)
  {
    var r := a + b;
    forall i, j | 0 <= i < j < |r|
      ensures r[i] <= r[j]
    {
      if i < |a| <= j { assert a[i] in a && b[j - |a|] in b; }
    }
  }

  lemma SortedBelow(a: seq<real>, b: seq<real>)
    requires Below(a, b)
    ensures Below(Sorted(a), Sorted(b))
  {
    hide Sorted, Rearranges;
    SortedRearranges(a);
    SortedRearranges(b);
    forall x, y | x in Sorted(a) && y in Sorted(b)
      ensures x <= y
    {
      SameMember(Sorted(a), a, x);
      SameMember(Sorted(b), b, y);
    }
  }

  lemma JoinBelow(a: seq<real>, b: seq<real>, c: seq<real>)
    requires Below(a, c) && Below(b, c)
    ensures Below(a + b, c)
  {}

  ghost function Three(a: seq<real>, b: seq<real>, c: seq<real>): seq<real> { a + b + c }

  /** The values fall into three parts, each below the next. */
  ghost predicate Parts(vals: seq<real>, low: seq<real>, mid: seq<real>, high: seq<real>)
  {
    Rearranges(vals, low + mid + high) && Below(low, mid) && Below(mid, high) && Below(low, high)
  }

  lemma JoinRearranges(vals: seq<real>, low: seq<real>, mid: seq<real>, high: seq<real>)
    requires Rearranges(vals, low + mid + high)
    ensures Rearranges(Sorted(vals), Sorted(low) + Sorted(mid) + Sorted(high))
    ensures Rearranges(Sorted(low) + Sorted(mid) + Sorted(high), Sorted(vals))
  {
    hide Sorted;
    SortedSorts(low);
    SortedSorts(mid);
    SortedSorts(high);
    SortedSorts(vals);
  }

  /** Sorting three parts that follow each other. */
  lemma SortedParts(vals: seq<real>, low: seq<real>, mid: seq<real>, high: seq<real>)
    requires Parts(vals, low, mid, high)
    ensures Sorted(vals) == Three(Sorted(low), Sorted(mid), Sorted(high))
  {
    hide Sorted, Rearranges, Below, Ascending;
    var a, b, c := Sorted(low), Sorted(mid), Sorted(high);
    SortedRearranges(low);
    SortedRearranges(mid);
    SortedRearranges(high);
    SortedRearranges(vals);
    SortedBelow(low, mid);
    SortedBelow(mid, high);
    SortedBelow(low, high);
    JoinAscending(a, b);
    JoinBelow(a, b, c);
    JoinAscending(a + b, c);
    JoinRearranges(vals, low, mid, high);
    AscendingUnique(Sorted(vals), a + b + c);
  }

  /** t is a fifth of n rounded up, or the most that leaves a value if that is less. */
  ghost predicate Trims(n: nat, t: nat)
  {
    2 * t < n && (n <= 5 * t < n + 5 || (n <= 2 * t + 2 && 5 * t < n))
  }

  lemma TrimCountIs(n: nat, t: nat)
    requires n > 0
    ensures Trims(n, t) <==> t == TrimCount(n)
  {}

  lemma PartsLength(vals: seq<real>, low: seq<real>, mid: seq<real>, high: seq<real>)
    requires Parts(vals, low, mid, high)
    ensures |vals| == |low| + |mid| + |high|
  {
    SameLength(vals, low + mid + high);
  }

  lemma KeptMiddle(a: seq<real>, b: seq<real>, c: seq<real>)
    requires |a| == |c| && b != [] && TrimCount(|a| + |b| + |c|) == |a|
    ensures Kept(Three(a, b, c)) == b
  {
    hide TrimCount;
  }

  lemma SameMean(a: seq<real>, b: seq<real>)
    requires a != [] && |a| == |b| && Sum(a) == Sum(b)
    ensures Mean(a) == Mean(b)
  {}

  /**
   * The trimmed mean is the mean of what is left without the t smallest and the t largest values,
   * however ties are broken.
   */
  lemma TrimmedMeanIs(vals: seq<real>, low: seq<real>, mid: seq<real>, high: seq<real>)
    requires Parts(vals, low, mid, high) && |low| == |high| && Trims(|vals|, |low|)
    ensures vals != [] && mid != [] && TrimmedMean(vals) == Mean(mid)
  {
    hide Sorted, Parts, Mean, Ascending, TrimCount, Kept, Rearranges;
    var a, b, c := Sorted(low), Sorted(mid), Sorted(high);
    PartsLength(vals, low, mid, high);
    SortedParts(vals, low, mid, high);
    SortedRearranges(low);
    SortedRearranges(mid);
    SortedRearranges(high);
    TrimCountIs(|vals|, |low|);
    KeptMiddle(a, b, c);
    SortedSum(mid);
    SameMean(b, mid);
  }

  /** Times n - 2t, the trimmed mean is the sum of all values less those removed. */
  lemma TrimmedSum(vals: seq<real>, low: seq<real>, mid: seq<real>, high: seq<real>)
    requires Parts(vals, low, mid, high) && |low| == |high| && Trims(|vals|, |low|)
    ensures vals != [] && TrimmedMean(vals) * (|vals| - 2 * |low|) as real == Sum(vals) - Sum(low) - Sum(high)
  {
    hide Parts, Mean, Sum, Trims, TrimmedMean;
    TrimmedMeanIs(vals, low, mid, high);
    PartsLength(vals, low, mid, high);
    SumParts(vals, low, mid, high);
    Rest(vals, mid, |vals| - 2 * |low|, Sum(low) + Sum(high));
  }

  lemma Rest(vals: seq<real>, mid: seq<real>, n: int, removed: real)
    requires mid != [] && n == |mid| && Sum(vals) == Sum(mid) + removed
    ensures Mean(mid) * n as real == Sum(vals) - removed
  {
    MeanTimes(mid);
  }

  lemma SumParts(vals: seq<real>, low: seq<real>, mid: seq<real>, high: seq<real>)
    requires Parts(vals, low, mid, high)
    ensures Sum(vals) == Sum(low) + Sum(mid) + Sum(high)
  {
    hide Parts, Sum, Sorted, Three;
    SortedParts(vals, low, mid, high);
    SortedSum(vals);
    SortedSum(low);
    SortedSum(mid);
    SortedSum(high);
    Sum3(Sorted(low), Sorted(mid), Sorted(high));
  }

  lemma Sum3(a: seq<real>, b: seq<real>, c: seq<real>)
    ensures Sum(Three(a, b, c)) == Sum(a) + Sum(b) + Sum(c)
  {
    hide Sum;
    SumConcat(a + b, c);
    SumConcat(a, b);
  }

  // ----- the bound is tight

  function Mixed(zeros: nat, ones: nat): (r: seq<real>)
    ensures |r| == zeros + ones && forall i | 0 <= i < |r| :: r[i] == if i < zeros then 0.0 else 1.0
  {
    seq(zeros + ones, i requires 0 <= i < zeros + ones => if i < zeros then 0.0 else 1.0)
  }

  lemma {:induction false} AlreadySorted(s: seq<real>)
    requires Ascending(s)
    ensures Sorted(s) == s
  {
    if s != [] {
      AlreadySorted(s[1..]);
      assert s == [s[0]] + s[1..];
    }
  }

  /** The first clients honest, the others faulty. */
  function Mask(honest: nat, faulty: nat): (r: seq<bool>)
    ensures |r| == honest + faulty && forall i | 0 <= i < |r| :: r[i] == (i < honest)
  {
    seq(honest + faulty, i => i < honest)
  }

  lemma {:induction false} MaskFaulty(honest: nat, faulty: nat)
    ensures Faulty(Mask(honest, faulty)) == faulty
    decreases honest + faulty
  {
    var m := Mask(honest, faulty);
    if honest > 0 {
      MaskFaulty(honest - 1, faulty);
      assert m[1..] == Mask(honest - 1, faulty);
    } else if faulty > 0 {
      MaskFaulty(0, faulty - 1);
      assert m[1..] == Mask(0, faulty - 1);
    }
  }

  /** One faulty client more than trim_count can move the mean above every honest value. */
  lemma OneMoreIsTooMany(n: nat) returns (vals: seq<real>, honest: seq<bool>)
    requires n > 1
    ensures |vals| == |honest| == n && true in honest && Faulty(honest) == TrimCount(n) + 1
    ensures Encloses(vals, honest, 0.0, 0.0) && TrimmedMean(vals) > 0.0
  {
    hide Sum, TrimCount, Faulty, Sorted;
    var t := TrimCount(n);
    vals, honest := Mixed(n - t - 1, t + 1), Mask(n - t - 1, t + 1);
    MaskFaulty(n - t - 1, t + 1);
    assert honest[0];
    AlreadySorted(vals);
    MixedKept(n, t);
    PositiveSum(Kept(vals));
    PositiveQuotient(Sum(Kept(vals)), |Kept(vals)| as real);
  }

  /** Of t + 1 ones behind zeros, one is kept. */
  lemma MixedKept(n: nat, t: nat)
    requires 2 * t < n
    ensures var kept := Mixed(n - t - 1, t + 1)[t..n - t];
            kept != [] && kept[|kept| - 1] == 1.0 && forall i | 0 <= i < |kept| :: 0.0 <= kept[i] <= 1.0
  {}

  lemma PositiveSum(s: seq<real>)
    requires s != [] && s[|s| - 1] == 1.0 && forall i | 0 <= i < |s| :: 0.0 <= s[i] <= 1.0
    ensures Sum(s) > 0.0
  {
    SumBounds(s[..|s| - 1], 0.0, 1.0);
  }

  lemma PositiveQuotient(x: real, n: real)
    requires x > 0.0 && n > 0.0
    ensures x / n > 0.0
  {}

  // ----- the aggregation loop

  function Column(updates: seq<seq<real>>, i: nat): (r: seq<real>)
    requires forall c | 0 <= c < |updates| :: i < |updates[c]|
    ensures |r| == |updates| && forall c | 0 <= c < |updates| :: r[c] == updates[c][i]
  {
    seq(|updates|, c requires 0 <= c < |updates| => updates[c][i])
  }

  /** Moves the value at position at up to its place in the ascending rest. */
  method InsertInPlace(vals: array<real>, at: nat)
    requires at < vals.Length
    modifies vals
    ensures vals[..at] == old(vals[..at]) && vals[at..] == Insert(old(vals[at]), old(vals[at + 1..]))
  {
    hide Insert;
    var v := vals[at];
    ghost var rest := vals[at + 1..];
    var j := at;
    assert vals[at..at] + Insert(v, rest) == Insert(v, rest);
    while j + 1 < vals.Length && vals[j + 1] < v
      invariant at <= j < vals.Length && vals[..at] == old(vals[..at]) && vals[j] == v
      invariant Insert(v, rest) == vals[at..j] + Insert(v, vals[j + 1..])
    {
      ghost var front, tail := vals[at..j], vals[j + 1..];
      InsertBeyond(v, tail, front);
      vals[j], vals[j + 1] := vals[j + 1], v;
      assert vals[at..j + 1] == front + [tail[0]] && vals[j + 2..] == tail[1..];
      j := j + 1;
    }
    InsertHere(v, vals[j + 1..]);
    assert vals[at..] == vals[at..j] + ([v] + vals[j + 1..]);
  }

  lemma InsertBeyond(v: real, tail: seq<real>, front: seq<real>)
    requires tail != [] && tail[0] < v
    ensures front + Insert(v, tail) == (front + [tail[0]]) + Insert(v, tail[1..])
  {}

  lemma InsertHere(v: real, tail: seq<real>)
    requires tail == [] || v <= tail[0]
    ensures Insert(v, tail) == [v] + tail
  {}

  /** An insertion sort standing for the library's sort. */
  method SortColumn(vals: array<real>)
    modifies vals
    ensures vals[..] == Sorted(old(vals[..]))
  {
    hide Insert;
    ghost var x := vals[..];
    var done := vals.Length;
    assert x[done..] == [];
    while done > 0
      invariant 0 <= done <= vals.Length && vals[..done] == x[..done] && vals[done..] == Sorted(x[done..])
    {
      done := done - 1;
      assert x[done..][1..] == x[done + 1..];
      assert vals[done] == vals[..done + 1][done] && vals[..done] == vals[..done + 1][..done];
      assert x[..done] == x[..done + 1][..done];
      InsertInPlace(vals, done);
    }
  }

  /** aggregate_weights_robust. */
  method AggregateWeightsRobust(current: seq<real>, updates: seq<seq<real>>) returns (g: seq<real>)
    requires forall c | 0 <= c < |updates| :: |updates[c]| >= |current|
    ensures updates == [] ==> g == current
    ensures updates != []
            ==> |g| == |current| && forall i | 0 <= i < |current| :: g[i] == TrimmedMean(Column(updates, i))
  {
    hide Sorted, Mean;
    if updates == [] { return current; }
    var n := |updates|;
    g := [];
    for i := 0 to |current|
      invariant |g| == i && forall k | 0 <= k < i :: g[k] == TrimmedMean(Column(updates, k))
    {
      var vals := new real[n](c requires 0 <= c < n => updates[c][i]);
      assert vals[..] == Column(updates, i);
      SortedSorts(vals[..]);
      SortColumn(vals);
      var t := TrimCount(n);
      var valid := if t > 0 && 2 * t < n then vals[t..n - t] else vals[..];
      assert valid == Kept(vals[..]);
      g := g + [Mean(valid)];
    }
  }

  /** Every aggregated coordinate is robust, whatever the dimension and the number of clients. */
  lemma AggregateRobust(updates: seq<seq<real>>, honest: seq<bool>, i: nat, lo: real, hi: real)
    requires updates != [] && |honest| == |updates| && Faulty(honest) <= TrimCount(|updates|)
    requires forall c | 0 <= c < |updates| :: i < |updates[c]|
    requires forall c | 0 <= c < |updates| && honest[c] :: lo <= updates[c][i] <= hi
    ensures lo <= TrimmedMean(Column(updates, i)) <= hi
  {
    hide TrimmedMean, Faulty, TrimCount;
    Robust(Column(updates, i), honest, lo, hi);
  }
}
