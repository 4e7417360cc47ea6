/** Digit strings as numbers, least significant digit first. */
module Numerals {
  import opened Congruence

  ghost function Number(s: seq<int>, base: nat): int
  {
    if s == [] then 0 else s[0] + base * Number(s[1..], base)
  }

  ghost predicate DigitsBelow(s: seq<int>, base: nat)
  {
    forall i | 0 <= i < |s| :: 0 <= s[i] < base
  }

  lemma {:induction false} NumberConcat(a: seq<int>, b: seq<int>, base: nat)
    ensures Number(a + b, base) == Number(a, base) + Pow(base, |a|) * Number(b, base)
  {
    if a == [] {
      assert a + b == b;
    } else {
      NumberConcat(a[1..], b, base);
      assert (a + b)[0] == a[0] && (a + b)[1..] == a[1..] + b;
      var p, x, y := Pow(base, |a| - 1), Number(a[1..], base), Number(b, base);
      MulDistr(base, x, p * y);
      MulAssoc(base, p, y);
    }
  }

  /** A digit string of known length is determined by its number. */
  lemma {:induction false} NumberInjective(s: seq<int>, t: seq<int>, base: nat)
    requires |s| == |t| && DigitsBelow(s, base) && DigitsBelow(t, base) && Number(s, base) == Number(t, base)
    ensures s == t
  {
    if s != [] {
      FirstDigit(s, base);
      FirstDigit(t, base);
      NumberInjective(s[1..], t[1..], base);
      assert s == [s[0]] + s[1..] && t == [t[0]] + t[1..];
    }
  }

  lemma FirstDigit(s: seq<int>, base: nat)
    requires s != [] && DigitsBelow(s, base)
    ensures base > 0 && Number(s, base) % base == s[0] && Number(s, base) / base == Number(s[1..], base)
    ensures DigitsBelow(s[1..], base)
  {
    var n := Number(s[1..], base);
    assert base * n == n * base;
    DivModUnique(Number(s, base), n, s[0], base);
  }
}
