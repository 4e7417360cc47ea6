/**
 * The Goldilocks field of solomon-zk/src/field.rs: arithmetic modulo p = 2^64 - 2^32 + 1 on
 * 64-bit words, square-and-multiply exponentiation, and the 2-adic roots of unity.
 */
module Goldilocks {
  import opened Congruence

  const P: int := 0xFFFF_FFFF_0000_0001
  const TWO_32: int := 0x1_0000_0000
  const TWO_64: int := 0x1_0000_0000_0000_0000

  type U64 = x: int | 0 <= x < TWO_64

  /** A canonical field element, as GoldilocksField holds it. */
  type Felt = x: int | 0 <= x < P

  /** Remainder with the sign of the dividend, as Rust's % on signed integers. */
  function TruncRem(a: int, b: int): int
    requires b > 0
  {
    if a >= 0 then a % b else -((-a) % b)
  }

  function FromU64(val: U64): (r: Felt)
    ensures r == val % P
  {
    if val >= P then val - P else val
  }

  /** The folding of 2^64 into 2^32 - 1 that reduce_u128 performs on the three upper limbs. */
  function FoldLimbs(x: int): int
    requires 0 <= x < TWO_64 * TWO_64
  {
    var lo := x % TWO_64;
    var hi := x / TWO_64;
    lo + (hi % TWO_32) * TWO_32 - hi + (hi / TWO_32) * 0xFFFF_FFFF
  }

  lemma FoldLimbsCong(x: int)
    requires 0 <= x < TWO_64 * TWO_64
    ensures Cong(FoldLimbs(x), x, P)
  {
    var hi := x / TWO_64;
    var k := hi + hi / TWO_32;
    assert x == FoldLimbs(x) + k * P;
    CongIntro(x, FoldLimbs(x), k, P);
  }

  function ReduceU128(x: int): (r: Felt)
    requires 0 <= x < TWO_64 * TWO_64
    ensures r == x % P
  {
    FoldLimbsCong(x);
    CanonicalRem(FoldLimbs(x));
    var res := TruncRem(FoldLimbs(x), P);
    if res < 0 then res + P else res
  }

  lemma CanonicalRem(t: int)
    ensures var res := TruncRem(t, P);
            -P < res < P && (if res < 0 then res + P else res) == t % P
  {}

  function FAdd(a: Felt, b: Felt): Felt
  {
    var sum := (a + b) % TWO_64;
    var carry := a + b >= TWO_64;
    if carry || sum >= P then (sum - P) % TWO_64 else sum
  }

  function FSub(a: Felt, b: Felt): Felt
  {
    if a >= b then a - b else P - (b - a)
  }

  lemma ProductFits(a: Felt, b: Felt)
    ensures 0 <= a * b < TWO_64 * TWO_64
  {
    assert a * b <= a * P <= P * P;
  }

  function FMul(a: Felt, b: Felt): Felt
  {
    ProductFits(a, b);
    ReduceU128(a * b)
  }

  /** The word-level operations are the field operations: carries, borrows and folded limbs agree
      with the residues of the sum, difference and product. */
  lemma FieldOps(a: Felt, b: Felt)
    ensures FAdd(a, b) == (a + b) % P
    ensures FSub(a, b) == (a - b) % P
    ensures FMul(a, b) == (a * b) % P
  {
    hide FAdd, FSub, FMul;
    FAddValue(a, b);
    FSubValue(a, b);
    FMulValue(a, b);
  }

  lemma FAddValue(a: Felt, b: Felt)
    ensures FAdd(a, b) == (a + b) % P
  {}

  lemma FSubValue(a: Felt, b: Felt)
    ensures FSub(a, b) == (a - b) % P
  {}

  lemma FMulValue(a: Felt, b: Felt)
    ensures FMul(a, b) == (a * b) % P
  {
    hide ReduceU128;
    ProductFits(a, b);
  }

  lemma FAddCong(a: Felt, b: Felt)
    ensures Cong(FAdd(a, b), a + b, P)
  {
    FAddValue(a, b);
    CongMod(a + b, P);
  }

  lemma FSubCong(a: Felt, b: Felt)
    ensures Cong(FSub(a, b), a - b, P)
  {
    FSubValue(a, b);
    CongMod(a - b, P);
  }

  lemma FMulCong(a: Felt, b: Felt)
    ensures Cong(FMul(a, b), a * b, P)
  {
    FMulValue(a, b);
    CongMod(a * b, P);
  }

  /** The power b^e as a canonical element. */
  ghost function FPow(b: int, e: nat): (r: Felt)
    ensures Cong(r, Pow(b, e), P)
  {
    CongMod(Pow(b, e), P);
    Pow(b, e) % P
  }

  lemma FPowUnique(r: Felt, b: int, e: nat)
    requires Cong(r, Pow(b, e), P)
    ensures r == FPow(b, e)
  {
    CongCanonical(r, Pow(b, e), P);
  }

  /** One more factor: the running twiddle w = w * step of the transform loops. */
  lemma FPowStep(b: Felt, e: nat)
    ensures FMul(FPow(b, e), b) == FPow(b, e + 1)
  {
    hide FMul;
    var w := FPow(b, e);
    FMulCong(w, b);
    CongMul(w, Pow(b, e), b, b, P);
    assert Pow(b, e) * b == Pow(b, e + 1);
    FPowUnique(FMul(w, b), b, e + 1);
  }

  lemma SquareAndMultiply(res: Felt, base: Felt, power: nat, total: int)
    requires power > 0 && Cong(res * Pow(base, power), total, P)
    ensures var next := if power % 2 == 1 then FMul(res, base) else res;
            Cong(next * Pow(FMul(base, base), power / 2), total, P)
  {
    hide FMul;
    var h := power / 2;
    var sq := FMul(base, base);
    FMulCong(base, base);
    PowCong(sq, base * base, h, P);
    PowMul(base, 2, h);
    assert Pow(base, 2) == base * Pow(base, 1) == base * base;
    if power % 2 == 1 {
      FMulCong(res, base);
      CongMul(FMul(res, base), res * base, Pow(sq, h), Pow(base, 2 * h), P);
      assert Pow(base, power) == base * Pow(base, 2 * h);
      MulAssoc(res, base, Pow(base, 2 * h));
    } else {
      CongMul(res, res, Pow(sq, h), Pow(base, 2 * h), P);
    }
  }

  /** exp: square-and-multiply on the bits of the exponent. */
  method Exp(self: Felt, exponent: U64) returns (res: Felt)
    ensures res == FPow(self, exponent)
  {
    hide FMul;
    var power := exponent;
    var base := self;
    res := 1;
    while power > 0
      invariant Cong(res * Pow(base, power), Pow(self, exponent), P)
    {
      SquareAndMultiply(res, base, power, Pow(self, exponent));
      if power % 2 == 1 { res := FMul(res, base); }
      base := FMul(base, base);
      power := power / 2;
    }
    assert res * Pow(base, 0) == res;
    FPowUnique(res, self, exponent);
  }

  /** The element invert returns: the power p - 2. */
  ghost function FInv(a: Felt): (r: Felt)
  {
    FPow(a, (P - 2) as nat)
  }

  method Invert(self: Felt) returns (r: Felt)
    requires self != 0
    ensures r == FInv(self)
  {
    r := Exp(self, P - 2);
  }

  /** Fermat inversion is an inversion for every element of order dividing p - 1. */
  lemma FInvWorks(a: Felt, e: nat)
    requires e == P - 1 && Cong(Pow(a, e), 1, P)
    ensures Cong(a * FInv(a), 1, P)
  {
    var d: nat := e - 1;
    CongMul(a, a, FInv(a), Pow(a, d), P);
    assert Pow(a, e) == a * Pow(a, d);
  }

  // ----- 7 generates the roots of unity: 7^((p-1)/2) = -1, by repeated squaring

  lemma Double(e: nat, r: int, q: int, r': int) returns (f: nat)
    requires Cong(Pow(7, e), r, P) && r * r == q * P + r'
    ensures f == 2 * e && Cong(Pow(7, f), r', P)
  {
    f := 2 * e;
    PowAdd(7, e, e);
    CongMul(Pow(7, e), r, Pow(7, e), r, P);
    CongIntro(r * r, r', q, P);
  }

  lemma DoubleAndAdd(e: nat, r: int, q: int, r': int) returns (f: nat)
    requires Cong(Pow(7, e), r, P) && r * r * 7 == q * P + r'
    ensures f == 2 * e + 1 && Cong(Pow(7, f), r', P)
  {
    PowAdd(7, e, e);
    CongMul(Pow(7, e), r, Pow(7, e), r, P);
    f := 2 * e + 1;
    assert Pow(7, f) == 7 * Pow(7, 2 * e);
    CongMulLeft(7, Pow(7, 2 * e), r * r, P);
    CongIntro(r * r * 7, r', q, P);
    assert 7 * (r * r) == r * r * 7;
  }

  lemma Ladder0(e: nat) returns (f: nat)
    requires Cong(Pow(7, e), 7, P)
    ensures f + 1 == 2048 * (e + 1) && Cong(Pow(7, f), 11981551684735969599, P)
  {
    f := e;
    f := DoubleAndAdd(f, 7, 0, 343);
    f := DoubleAndAdd(f, 343, 0, 823543);
    f := DoubleAndAdd(f, 823543, 0, 4747561509943);
    f := DoubleAndAdd(f, 4747561509943, 8553020, 11074261478625843323);
    f := DoubleAndAdd(f, 11074261478625843323, 46538016023229720673, 12148266161370408270);
    f := DoubleAndAdd(f, 12148266161370408270, 56002435508678139577, 7007601668316978083);
    f := DoubleAndAdd(f, 7007601668316978083, 18634473742308562026, 8125271997680889877);
    f := DoubleAndAdd(f, 8125271997680889877, 25052676695413524112, 2624486902016877951);
    f := DoubleAndAdd(f, 2624486902016877951, 2613768603856235308, 8253119735826302939);
    f := DoubleAndAdd(f, 8253119735826302939, 25847265827672469332, 3543566522599720475);
    f := DoubleAndAdd(f, 3543566522599720475, 4764962617243911856, 11981551684735969599);
  }

  lemma Ladder1(e: nat) returns (f: nat)
    requires Cong(Pow(7, e), 11981551684735969599, P)
    ensures f + 1 == 2048 * (e + 1) && Cong(Pow(7, f), 5901922255895126089, P)
  {
    f := e;
    f := DoubleAndAdd(f, 11981551684735969599, 54475904345860342852, 10062120588441922115);
    f := DoubleAndAdd(f, 10062120588441922115, 38419999349886321742, 10485806445487905393);
    f := DoubleAndAdd(f, 10485806445487905393, 41723620970151811147, 4139485063330164956);
    f := DoubleAndAdd(f, 4139485063330164956, 6502359206338864843, 12134830135347446949);
    f := DoubleAndAdd(f, 12134830135347446949, 55878626223541897244, 4326791766630348883);
    f := DoubleAndAdd(f, 4326791766630348883, 7104120296206835795, 206761543466863628);
    f := DoubleAndAdd(f, 206761543466863628, 16222502457426627, 10086585273483141421);
    f := DoubleAndAdd(f, 10086585273483141421, 38607052533218672533, 1855730417186139594);
    f := DoubleAndAdd(f, 1855730417186139594, 1306796883947548869, 7626447102712710903);
    f := DoubleAndAdd(f, 7626447102712710903, 22071042257716239407, 7790920094560990216);
    f := DoubleAndAdd(f, 7790920094560990216, 23033281637127610743, 5901922255895126089);
  }

  lemma Ladder2(e: nat) returns (f: nat)
    requires Cong(Pow(7, e), 5901922255895126089, P)
    ensures f + 1 == 512 * (e + 1) && Cong(Pow(7, f), 1753635133440165772, P)
  {
    f := e;
    f := DoubleAndAdd(f, 5901922255895126089, 13217985964617414221, 8935258787870022506);
    f := DoubleAndAdd(f, 8935258787870022506, 30296508974182092522, 13093775858033092690);
    f := DoubleAndAdd(f, 13093775858033092690, 65059110649923945754, 11243737384857129666);
    f := DoubleAndAdd(f, 11243737384857129666, 47973312218535118729, 2063617152444052883);
    f := DoubleAndAdd(f, 2063617152444052883, 1615982210782367681, 13064848991504552222);
    f := DoubleAndAdd(f, 13064848991504552222, 64771970039786058224, 16593403251012455084);
    f := DoubleAndAdd(f, 16593403251012455084, 104483870589968102175, 5859133952941131217);
    f := DoubleAndAdd(f, 5859133952941131217, 13027022755088247160, 15659105665374529263);
    f := DoubleAndAdd(f, 15659105665374529263, 93049110738273779291, 1753635133440165772);
  }

  lemma Squares0(e: nat) returns (f: nat)
    requires Cong(Pow(7, e), 1753635133440165772, P)
    ensures f == 2048 * e && Cong(Pow(7, f), 17654865857378133588, P)
  {
    f := e;
    f := Double(f, 1753635133440165772, 166708887468903991, 4614640910117430873);
    f := Double(f, 4614640910117430873, 1154399424049971884, 9123114210336311365);
    f := Double(f, 9123114210336311365, 4511973093009996851, 16116352524544190054);
    f := Double(f, 16116352524544190054, 14080361158478670879, 6414415596519834757);
    f := Double(f, 6414415596519834757, 2230460144622294524, 1213594585890690845);
    f := Double(f, 1213594585890690845, 79841288704448195, 17096174751763063430);
    f := Double(f, 17096174751763063430, 15844486704156700236, 5456943929260765144);
    f := Double(f, 5456943929260765144, 1614281465338340559, 9713644485405565297);
    f := Double(f, 9713644485405565297, 5114988793349933654, 16905767614792059275);
    f := Double(f, 16905767614792059275, 15493518941330557636, 5416168637041100469);
    f := Double(f, 5416168637041100469, 1590247178281506213, 17654865857378133588);
  }

  lemma Squares1(e: nat) returns (f: nat)
    requires Cong(Pow(7, e), 17654865857378133588, P)
    ensures f == 2048 * e && Cong(Pow(7, f), 11353340290879379826, P)
  {
    f := e;
    f := Double(f, 17654865857378133588, 16896981237942002723, 3511170319078647661);
    f := Double(f, 3511170319078647661, 668319404399374695, 18146160046829613826);
    f := Double(f, 18146160046829613826, 17850473948468743512, 9306717745644682924);
    f := Double(f, 9306717745644682924, 4695408299218975106, 12380578893860276750);
    f := Double(f, 12380578893860276750, 8309256808156222390, 6115771955107415310);
    f := Double(f, 6115771955107415310, 2027602620068516376, 17776499369601055404);
    f := Double(f, 17776499369601055404, 17130607366173278638, 16207902636198568418);
    f := Double(f, 16207902636198568418, 14240784545824149997, 1532612707718625687);
    f := Double(f, 1532612707718625687, 127334216977357403, 17492915097719143606);
    f := Double(f, 17492915097719143606, 16588405924890216597, 455906449640507599);
    f := Double(f, 455906449640507599, 11267608529812975, 11353340290879379826);
  }

  lemma Squares2(e: nat) returns (f: nat)
    requires Cong(Pow(7, e), 11353340290879379826, P)
    ensures f == 512 * e && Cong(Pow(7, f), 18446744069414584320, P)
  {
    f := e;
    f := Double(f, 11353340290879379826, 6987592784692205430, 1803076106186727246);
    f := Double(f, 1803076106186727246, 176241586724885086, 13797081185216407910);
    f := Double(f, 13797081185216407910, 10319406422896923811, 17870292113338400769);
    f := Double(f, 17870292113338400769, 17311854006015885313, 549755813888);
    f := Double(f, 549755813888, 16384, 70368744161280);
    f := Double(f, 70368744161280, 268435455, 17293822564807737345);
    f := Double(f, 17293822564807737345, 16212958654255595520, 18446744069397807105);
    f := Double(f, 18446744069397807105, 18446744069381029889, 281474976710656);
    f := Double(f, 281474976710656, 4294967296, 18446744069414584320);
  }

  lemma SevenToHalf(half: nat)
    requires half == (P - 1) / 2
    ensures Cong(Pow(7, half), -1, P)
  {
    var one: nat := 1;
    assert Pow(7, one) == 7 * Pow(7, one - 1);
    var e := Ladder0(one);
    e := Ladder1(e);
    e := Ladder2(e);
    e := Squares0(e);
    e := Squares1(e);
    e := Squares2(e);
    assert e == half;
    CongIntro(P - 1, -1, 1, P);
  }

  lemma SevenOrder(order: nat)
    requires order == P - 1
    ensures Cong(Pow(7, order), 1, P)
  {
    var half: nat := (P - 1) / 2;
    SevenToHalf(half);
    PowAdd(7, half, half);
    CongMul(Pow(7, half), -1, Pow(7, half), -1, P);
  }

  /** Powers of 7 are inverted correctly. */
  lemma InverseOfSevenPower(a: Felt, k: nat)
    requires Cong(a, Pow(7, k), P)
    ensures Cong(a * FInv(a), 1, P)
  {
    var order: nat := P - 1;
    SevenOrder(order);
    PowCong(a, Pow(7, k), order, P);
    PowMul(7, k, order);
    PowPeriod(7, order, k, P);
    assert order * k == k * order;
    FInvWorks(a, order);
  }

  // ----- 2 has order dividing 192, and 192 divides p - 1

  lemma TwoOrder(order: nat)
    requires order == P - 1
    ensures Cong(Pow(2, order), 1, P)
  {
    var e8: nat := 8;
    assert Pow(2, e8) == 256 by { assert Pow(2, 8) == 256; }
    PowAdd(2, e8, e8);
    var e32 := 4 * e8;
    PowAdd(2, 2 * e8, 2 * e8);
    assert Pow(2, e32) == TWO_32;
    PowAdd(2, e32, e32);
    PowAdd(2, 2 * e32, e32);
    var e96 := 3 * e32;
    CongIntro(Pow(2, e96), -1, TWO_32 + 1, P);
    PowAdd(2, e96, e96);
    CongMul(Pow(2, e96), -1, Pow(2, e96), -1, P);
    var k: nat := (P - 1) / 192;
    PowPeriod(2, 2 * e96, k, P);
    assert 2 * e96 * k == order;
  }

  /** Powers of 2 are inverted correctly: the scale factors 1/2 and 1/n. */
  lemma InverseOfTwoPower(a: Felt, k: nat)
    requires Cong(a, Pow(2, k), P)
    ensures Cong(a * FInv(a), 1, P)
  {
    var order: nat := P - 1;
    TwoOrder(order);
    PowCong(a, Pow(2, k), order, P);
    PowMul(2, k, order);
    PowPeriod(2, order, k, P);
    assert order * k == k * order;
    FInvWorks(a, order);
  }

  // ----- lengths and roots of unity

  predicate PowerOfTwo(n: nat)
  {
    n == 1 || (n > 0 && n % 2 == 0 && PowerOfTwo(n / 2))
  }

  /** 1 << k. */
  function ShiftLeftOne(k: nat): (r: nat)
    ensures r > 0
  {
    if k == 0 then 1 else 2 * ShiftLeftOne(k - 1)
  }

  /** The number of times a length halves. */
  function Log2(n: nat): nat
  {
    if n <= 1 then 0 else 1 + Log2(n / 2)
  }

  lemma {:induction false} PowerOfTwoDivides(a: nat, b: nat)
    requires PowerOfTwo(a) && PowerOfTwo(b) && a <= b
    ensures a > 0 && b % a == 0 && PowerOfTwo(b / a)
  {
    if a > 1 {
      var c, d := a / 2, b / 2;
      PowerOfTwoDivides(c, d);
      DoubledQuotient(c, d);
    }
  }

  lemma DoubledQuotient(c: nat, d: nat)
    requires c > 0 && d % c == 0
    ensures (2 * d) % (2 * c) == 0 && (2 * d) / (2 * c) == d / c
  {
    var k := d / c;
    assert d == k * c;
    assert 2 * d == k * (2 * c) by { MulAssoc(k, 2, c); }
    DivModUnique(2 * d, k, 0, 2 * c);
  }

  lemma {:induction false} PowerOfTwoExponent(n: nat) returns (k: nat)
    requires PowerOfTwo(n)
    ensures n == Pow(2, k)
  {
    if n == 1 {
      k := 0;
    } else {
      var j := PowerOfTwoExponent(n / 2);
      k := j + 1;
    }
  }

  lemma ByteLength()
    ensures PowerOfTwo(256)
  {
    assert PowerOfTwo(16);
  }

  lemma TwoTo32IsPowerOfTwo(n: nat)
    requires n == TWO_32
    ensures PowerOfTwo(n)
  {
    hide PowerOfTwo;
    assert PowerOfTwo(256) by { ByteLength(); }
    PowerOfTwoProduct(256, 256);
    PowerOfTwoProduct(0x1_0000, 0x1_0000);
  }

  lemma {:induction false} PowerOfTwoProduct(a: nat, b: nat)
    requires PowerOfTwo(a) && PowerOfTwo(b)
    ensures PowerOfTwo(a * b)
  {
    if a > 1 {
      var c := a / 2;
      PowerOfTwoProduct(c, b);
      MulAssoc(2, c, b);
      assert 2 * (c * b) == a * b;
      HalfOfDouble(c * b);
    } else {
      assert a * b == b;
    }
  }

  lemma HalfOfDouble(n: nat)
    requires PowerOfTwo(n)
    ensures PowerOfTwo(2 * n)
  {
  }

  /** The lengths get_root_of_unity accepts. */
  predicate Length(n: nat)
  {
    PowerOfTwo(n) && n <= TWO_32
  }

  lemma LengthDividesOrder(n: nat)
    requires Length(n)
    ensures (P - 1) % n == 0 && (P - 1) / n >= 1
    ensures ((P - 1) / n) * n == P - 1
  {
    hide PowerOfTwo;
    TwoTo32IsPowerOfTwo(TWO_32);
    PowerOfTwoDivides(n, TWO_32);
    OrderQuotient(n);
  }

  lemma OrderQuotient(n: nat)
    requires n > 0 && TWO_32 % n == 0
    ensures (P - 1) % n == 0 && (P - 1) / n >= 1 && ((P - 1) / n) * n == P - 1
  {
    var k := TWO_32 / n;
    assert k * n == TWO_32;
    MulAssoc(0xFFFF_FFFF, k, n);
    ExactQuotient(P - 1, 0xFFFF_FFFF * k, n);
  }

  lemma ExactQuotient(a: int, c: int, n: int)
    requires n > 0 && a > 0 && a == c * n
    ensures a % n == 0 && a / n == c >= 1 && (a / n) * n == a
  {
    DivModUnique(a, c, 0, n);
    assert c <= 0 ==> c * n <= 0;
  }

  /** get_root_of_unity(n) = 7^((p-1)/n). */
  ghost function Root(n: nat): Felt
    requires n > 0
  {
    FPow(7, (P - 1) / n)
  }

  method GetRootOfUnity(n: nat) returns (r: Felt)
    requires Length(n)
    ensures r == Root(n)
  {
    LengthDividesOrder(n);
    r := Exp(7, (P - 1) / n);
  }

  /** w is a primitive n-th root of unity in the sense the transforms use. */
  ghost predicate IsRoot(w: int, n: nat)
  {
    n > 0 && if n == 1 then Cong(w, 1, P) else Cong(Pow(w, n / 2), -1, P)
  }

  lemma RootIsRoot(n: nat)
    requires Length(n)
    ensures IsRoot(Root(n), n)
  {
    LengthDividesOrder(n);
    var c: nat := (P - 1) / n;
    if n == 1 {
      SevenOrder(c);
    } else {
      var h := n / 2;
      PowCong(Root(n), Pow(7, c), h, P);
      PowMul(7, c, h);
      assert 2 * (c * h) == c * n == P - 1;
      SevenToHalf(c * h);
    }
  }

  /** 7^(2^32 - 1) as a number. */
  lemma SevenToOdd(e: nat)
    requires e == TWO_32 - 1
    ensures Cong(Pow(7, e), 1753635133440165772, P)
  {
    var one: nat := 1;
    assert Pow(7, one) == 7 * Pow(7, one - 1);
    var f := Ladder0(one);
    f := Ladder1(f);
    f := Ladder2(f);
    assert f == e;
  }

  /** Which root: the one of length 2^32 is 1753635133440165772, and the others are its powers. */
  lemma RootIsPower(n: nat)
    requires Length(n)
    ensures Root(TWO_32) == 1753635133440165772
    ensures Cong(Root(n), Pow(1753635133440165772, TWO_32 / n), P)
  {
    hide PowerOfTwo, Pow;
    TwoTo32IsPowerOfTwo(TWO_32);
    PowerOfTwoDivides(n, TWO_32);
    var k, odd: nat := TWO_32 / n, TWO_32 - 1;
    assert (P - 1) / n == odd * k by {
      assert k * n == TWO_32;
      MulAssoc(odd, k, n);
      DivModUnique(P - 1, odd * k, 0, n);
    }
    SevenToOdd(odd);
    PowMul(7, odd, k);
    PowCong(Pow(7, odd), 1753635133440165772, k, P);
    assert (P - 1) / TWO_32 == odd;
    CongCanonical(Root(TWO_32), 1753635133440165772, P);
  }

  /** The inverse of a root, as the inverse transforms compute it, is a root. */
  lemma RootInverse(n: nat)
    requires Length(n)
    ensures Cong(Root(n) * FInv(Root(n)), 1, P) && IsRoot(FInv(Root(n)), n)
  {
    InverseOfSevenPower(Root(n), (P - 1) / n);
    RootIsRoot(n);
    InverseIsRoot(Root(n), FInv(Root(n)), n);
  }

  lemma InverseIsRoot(w: int, v: int, n: nat)
    requires IsRoot(w, n) && Cong(w * v, 1, P)
    ensures IsRoot(v, n)
  {
    if n == 1 {
      CongMul(w, 1, v, v, P);
    } else {
      var h := n / 2;
      PowProduct(w, v, h);
      PowCong(w * v, 1, h, P);
      PowOne(h);
      InverseOfMinusOne(Pow(w, h), Pow(v, h));
    }
  }

  lemma InverseOfMinusOne(a: int, b: int)
    requires Cong(a, -1, P) && Cong(a * b, 1, P)
    ensures Cong(b, -1, P)
  {
    CongMul(a, -1, b, b, P);
    CongMulLeft(-1, -1 * b, 1, P);
    assert -1 * (-1 * b) == b;
  }

  lemma RootSquare(w: int, n: nat)
    requires PowerOfTwo(n) && n > 1 && IsRoot(w, n)
    ensures IsRoot(w * w, n / 2)
  {
    var h := n / 2;
    if h == 1 {
      hide Cong;
      assert Pow(w, 1) == w * Pow(w, 0) == w;
      SquareOfMinusOne(w);
    } else {
      hide Pow, Cong;
      PowTwo(w);
      PowMul(w, 2, h / 2);
    }
  }

  lemma PowTwo(w: int)
    ensures Pow(w, 2) == w * w
  {
    assert Pow(w, 2) == w * Pow(w, 1) && Pow(w, 1) == w * Pow(w, 0);
  }

  lemma SquareOfMinusOne(w: int)
    requires Cong(w, -1, P)
    ensures Cong(w * w, 1, P)
  {
    CongMul(w, -1, w, -1, P);
  }

  lemma RootPeriod(w: int, n: nat)
    requires PowerOfTwo(n) && IsRoot(w, n)
    ensures Cong(Pow(w, n), 1, P)
  {
    if n > 1 {
      var h := n / 2;
      PowAdd(w, h, h);
      CongMul(Pow(w, h), -1, Pow(w, h), -1, P);
    } else {
      assert Pow(w, 1) == w * Pow(w, 0) == w;
    }
  }
}
