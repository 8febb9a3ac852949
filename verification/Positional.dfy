/** Positional notation in any base: the arithmetic under base58, base256, hexadecimal and decimal text. */
module Positional {

  type Base = b: int | 2 <= b witness 2

  ghost predicate DigitsIn(ds: seq<nat>, base: Base) {
    forall i :: 0 <= i < |ds| ==> ds[i] < base
  }

  /** The number a big-endian digit string denotes. */
  function Value(ds: seq<nat>, base: Base): nat {
    if ds == [] then 0 else Value(ds[..|ds| - 1], base) * base + ds[|ds| - 1]
  }

  /** The shortest big-endian digit string of `n`; zero has no digits. */
  function Digits(n: nat, base: Base): (ds: seq<nat>)
    ensures DigitsIn(ds, base)
    ensures ds == [] <==> n == 0
    ensures n > 0 ==> ds[0] > 0
  {
    if n == 0 then [] else Shrinks(n, base); Digits(n / base, base) + [n % base]
  }

  lemma Shrinks(n: nat, base: Base)
    requires n > 0
    ensures n / base < n
  {
    assert n == base * (n / base) + n % base;
    Monotone(2, base, n / base);
  }

  lemma Monotone(a: nat, b: nat, k: nat)
    requires a <= b
    ensures a * k <= b * k
  {
  }

  function Pow(base: nat, e: nat): nat {
    if e == 0 then 1 else Pow(base, e - 1) * base
  }

  function Zeros(n: nat): (zs: seq<nat>)
    ensures |zs| == n && forall i :: 0 <= i < n ==> zs[i] == 0
  {
    seq(n, _ => 0)
  }

  /** Leading zeros of a digit string. */
  function LeadingZeros(ds: seq<nat>): (z: nat)
    ensures z <= |ds|
    ensures forall i :: 0 <= i < z ==> ds[i] == 0
    ensures z < |ds| ==> ds[z] != 0
  {
    if ds == [] || ds[0] != 0 then 0 else 1 + LeadingZeros(ds[1..])
  }

  lemma DivModOf(n: nat, base: Base) returns (q: nat, r: nat)
    ensures q == n / base && r == n % base && n == q * base + r
    ensures n > 0 ==> Digits(n, base) == Digits(q, base) + [r]
  {
    q, r := n / base, n % base;
  }

  lemma ValueOfSnoc(ds: seq<nat>, d: nat, base: Base)
    ensures Value(ds + [d], base) == Value(ds, base) * base + d
  {
    assert (ds + [d])[..|ds|] == ds;
  }

  lemma {:induction false} ValueOfDigits(n: nat, base: Base)
    ensures Value(Digits(n, base), base) == n
  {
    if n > 0 {
      Shrinks(n, base);
      var q, r := DivModOf(n, base);
      ValueOfDigits(q, base);
      ValueOfSnoc(Digits(q, base), r, base);
    }
  }

  lemma DivMod(q: nat, r: nat, base: Base)
    requires r < base
    ensures (q * base + r) / base == q
    ensures (q * base + r) % base == r
  {
    var n := q * base + r;
    var q', r' := n / base, n % base;
    assert n == q' * base + r';
    assert (q - q') * base == r' - r;
    assert (q' - q) * base == r - r';
    if q > q' {
      Monotone(1, q - q', base);
    } else if q < q' {
      Monotone(1, q' - q, base);
    }
  }

  lemma {:induction false} ValueConcat(a: seq<nat>, b: seq<nat>, base: Base)
    ensures Value(a + b, base) == Value(a, base) * Pow(base, |b|) + Value(b, base)
  {
    if b == [] {
      assert a + b == a;
    } else {
      var b' := b[..|b| - 1];
      var last := b[|b| - 1];
      ValueConcat(a, b', base);
      assert (a + b)[..|a + b| - 1] == a + b';
      ShiftSum(Value(a, base), Pow(base, |b'|), Value(b', base), base, last);
    }
  }

  lemma ShiftSum(x: nat, p: nat, y: nat, base: nat, last: nat)
    ensures (x * p + y) * base + last == x * (p * base) + (y * base + last)
  {
    Associate(x, p, base);
  }

  lemma {:induction false} LeadingZerosOf(n: nat, ds: seq<nat>)
    requires ds == [] || ds[0] != 0
    ensures LeadingZeros(Zeros(n) + ds) == n
  {
    if n > 0 {
      assert (Zeros(n) + ds)[1..] == Zeros(n - 1) + ds;
      LeadingZerosOf(n - 1, ds);
    } else {
      assert Zeros(n) + ds == ds;
    }
  }

  lemma {:induction false} ValueOfZeros(n: nat, base: Base)
    ensures Value(Zeros(n), base) == 0
  {
    if n > 0 {
      assert Zeros(n)[..n - 1] == Zeros(n - 1);
      ValueOfZeros(n - 1, base);
    }
  }

  /** Leading zeros do not change the number. */
  lemma ValueSkipsZeros(n: nat, ds: seq<nat>, base: Base)
    ensures Value(Zeros(n) + ds, base) == Value(ds, base)
  {
    ValueConcat(Zeros(n), ds, base);
    ValueOfZeros(n, base);
    assert 0 * Pow(base, |ds|) == 0;
  }

  /** A digit string without leading zero is the shortest one of its number. */
  lemma {:induction false} DigitsOfValue(ds: seq<nat>, base: Base)
    requires DigitsIn(ds, base)
    requires ds == [] || ds[0] != 0
    ensures Digits(Value(ds, base), base) == ds
  {
    if ds != [] {
      var init, last := ds[..|ds| - 1], ds[|ds| - 1];
      DivMod(Value(init, base), last, base);
      DigitsOfValue(init, base);
      if init == [] {
        assert Value(ds, base) == last == ds[0];
      } else {
        assert Value(init, base) > 0;
      }
      assert Value(ds, base) > 0;
      assert ds == init + [last];
    }
  }

  /** The digits of a digit string with its leading zeros dropped. */
  lemma DigitsDropZeros(ds: seq<nat>, base: Base)
    requires DigitsIn(ds, base)
    ensures Digits(Value(ds, base), base) == ds[LeadingZeros(ds)..]
  {
    var z := LeadingZeros(ds);
    assert ds == Zeros(z) + ds[z..];
    ValueSkipsZeros(z, ds[z..], base);
    DigitsOfValue(ds[z..], base);
  }

  lemma {:induction false} PowPositive(base: Base, e: nat)
    ensures Pow(base, e) > 0
  {
    if e > 0 {
      PowPositive(base, e - 1);
      Monotone(1, Pow(base, e - 1), base);
    }
  }

  lemma Associate(a: nat, b: nat, c: nat)
    ensures a * (b * c) == a * b * c
  {
  }

  lemma {:induction false} PowAdd(base: nat, a: nat, b: nat)
    ensures Pow(base, a + b) == Pow(base, a) * Pow(base, b)
  {
    if b > 0 {
      PowAdd(base, a, b - 1);
      Associate(Pow(base, a), Pow(base, b - 1), base);
      assert a + b - 1 == a + (b - 1);
    }
  }

  lemma {:induction false} PowMonotone(a: nat, b: nat, e: nat)
    requires a <= b
    ensures Pow(a, e) <= Pow(b, e)
  {
    if e > 0 {
      PowMonotone(a, b, e - 1);
      Monotone(Pow(a, e - 1), Pow(b, e - 1), a);
      assert Pow(b, e - 1) * a <= Pow(b, e - 1) * b by { Monotone(a, b, Pow(b, e - 1)); }
    }
  }

  lemma {:induction false} PowGrows(base: Base, a: nat, b: nat)
    requires a <= b
    ensures Pow(base, a) <= Pow(base, b)
    decreases b
  {
    if a < b {
      PowGrows(base, a, b - 1);
      Monotone(1, base, Pow(base, b - 1));
    }
  }

  /** Dividing by the base shifts a bound by one digit. */
  lemma DivideBelow(q: nat, r: nat, base: Base, bound: nat)
    requires r < base
    ensures q < bound <==> q * base + r < bound * base
  {
    if q < bound { Monotone(q + 1, bound, base); } else { Monotone(bound, q, base); }
  }

  /** `len` digits suffice exactly for the numbers below `base^len`. */
  lemma {:induction false} DigitsFit(n: nat, base: Base, len: nat)
    ensures |Digits(n, base)| <= len <==> n < Pow(base, len)
    decreases len
  {
    hide Digits;
    PowPositive(base, len);
    if n > 0 && len > 0 {
      var q, r := DivModOf(n, base);
      DigitsFit(q, base, len - 1);
      DivideBelow(q, r, base, Pow(base, len - 1));
    }
  }
}
