/**
 * JavaScript numbers and their text.
 *
 * A finite nonzero double is known here by what Number::toString (ECMA-262,
 * section 6.1.6.1.20) first computes from it: its sign, its shortest decimal
 * digits and the position of the decimal point. The search for the shortest
 * digits is not modelled; the layout of the digits is.
 */
module Numbers {
  import opened Text
  import P = Positional

  datatype Number =
    | NotANumber
    | Infinite(negative: bool)
    | Zero(negative: bool)
    | Decimal(negative: bool, digits: seq<nat>, point: int) // 0.digits times 10^point
  {
    predicate Valid() {
      Decimal? ==>
        && digits != []
        && (forall i :: 0 <= i < |digits| ==> digits[i] < 10)
        && digits[0] != 0
        && digits[|digits| - 1] != 0
    }

    predicate IsFinite() {
      Zero? || Decimal?
    }

    predicate IsInteger() {
      Zero? || (Decimal? && |digits| <= point)
    }

    /** The number JSON text can carry: negative zero prints as zero. */
    function Unsigned(): Number {
      if Zero? then Zero(false) else this
    }
  }

  /** `===` on numbers. */
  predicate StrictEqual(a: Number, b: Number) {
    a.Unsigned() == b.Unsigned() && !a.NotANumber?
  }

  const MINUS := '-' as int
  const PLUS := '+' as int
  const POINT := '.' as int
  const EXPONENT := 'e' as int

  function NatText(n: nat): (t: Text)
    ensures t != []
    ensures forall i :: 0 <= i < |t| ==> IsDigit(t[i])
  {
    if n == 0 then DigitText([0]) else DigitText(P.Digits(n, 10))
  }

  /** The text `whole.fraction` followed by a decimal exponent, if there is one. */
  datatype Layout = Layout(whole: seq<nat>, fraction: seq<nat>, scientific: bool, exponent: int)

  /** Where Number::toString puts the digits. */
  function LayoutOf(digits: seq<nat>, point: int): (l: Layout)
    requires Decimal(false, digits, point).Valid()
    ensures l.whole != []
    ensures forall i :: 0 <= i < |l.whole| ==> l.whole[i] < 10
    ensures forall i :: 0 <= i < |l.fraction| ==> l.fraction[i] < 10
    ensures !l.scientific ==> l.exponent == 0
  {
    var k := |digits|;
    if k <= point <= 21 then Layout(digits + P.Zeros(point - k), [], false, 0)
    else if 0 < point <= 21 then Layout(digits[..point], digits[point..], false, 0)
    else if -6 < point <= 0 then Layout([0], P.Zeros(-point) + digits, false, 0)
    else Layout(digits[..1], digits[1..], true, point - 1)
  }

  function Fraction(ds: seq<nat>): Text
    requires forall i :: 0 <= i < |ds| ==> ds[i] < 10
  {
    if ds == [] then [] else [POINT] + DigitText(ds)
  }

  function ExponentText(e: int): Text {
    [EXPONENT, if e < 0 then MINUS else PLUS] + NatText(if e < 0 then -e else e)
  }

  function LaidOut(l: Layout): (t: Text)
    requires forall i :: 0 <= i < |l.whole| ==> l.whole[i] < 10
    requires forall i :: 0 <= i < |l.fraction| ==> l.fraction[i] < 10
    ensures l.whole != [] ==> t != [] && IsDigit(t[0])
  {
    DigitText(l.whole) + (Fraction(l.fraction) + if l.scientific then ExponentText(l.exponent) else [])
  }

  function Magnitude(digits: seq<nat>, point: int): (t: Text)
    requires Decimal(false, digits, point).Valid()
    ensures t != [] && IsDigit(t[0])
  {
    LaidOut(LayoutOf(digits, point))
  }

  /** Number::toString with radix 10. */
  function ToString(n: Number): (t: Text)
    requires n.Valid()
    ensures t != []
  {
    match n
    case NotANumber => U("NaN")
    case Infinite(negative) => if negative then U("-Infinity") else U("Infinity")
    case Zero(_) => DigitText([0])
    case Decimal(negative, digits, point) =>
      if negative then [MINUS] + Magnitude(digits, point) else Magnitude(digits, point)
  }

  // ---- Reading numbers back ----

  function DropTrailingZeros(ds: seq<nat>): seq<nat> {
    if ds == [] || ds[|ds| - 1] != 0 then ds else DropTrailingZeros(ds[..|ds| - 1])
  }

  /** The number 0.ds times 10^point, zeros at both ends dropped. */
  function Normalize(negative: bool, ds: seq<nat>, point: int): Number {
    var z := P.LeadingZeros(ds);
    var core := DropTrailingZeros(ds[z..]);
    if core == [] then Zero(false) else Decimal(negative, core, point - z)
  }

  /** Digits before the point and what follows them. */
  function ReadWhole(t: Text): (seq<nat>, Text) {
    var n := DigitRun(t);
    (TextDigits(t[..n]), t[n..])
  }

  /** Fraction digits and what follows them. */
  function ReadFraction(t: Text): (seq<nat>, Text) {
    if t != [] && t[0] == POINT then
      var n := DigitRun(t[1..]);
      (TextDigits(t[1..][..n]), t[1..][n..])
    else ([], t)
  }

  /** Exponent and what follows it. */
  function ReadExponent(t: Text): (int, Text) {
    if |t| >= 2 && t[0] == EXPONENT && t[1] in {PLUS, MINUS} then
      var n := DigitRun(t[2..]);
      var e: int := P.Value(TextDigits(t[2..][..n]), 10);
      (if t[1] == MINUS then -e else e, t[2..][n..])
    else (0, t)
  }

  function ReadMagnitude(negative: bool, t: Text): (Number, Text) {
    var (whole, t0) := ReadWhole(t);
    var (fraction, t1) := ReadFraction(t0);
    var (e, t2) := ReadExponent(t1);
    (Normalize(negative, whole + fraction, |whole| + e), t2)
  }

  /** Reads a number from the front of `t`. */
  function Read(t: Text): (Number, Text) {
    if t != [] && t[0] == MINUS then ReadMagnitude(true, t[1..]) else ReadMagnitude(false, t)
  }

  /** A character that could continue a number. */
  predicate Continues(u: CodeUnit) {
    IsDigit(u) || u in {POINT, EXPONENT, PLUS, MINUS}
  }

  lemma {:induction false} TrailingZerosOf(ds: seq<nat>, n: nat)
    requires ds == [] || ds[|ds| - 1] != 0
    ensures DropTrailingZeros(ds + P.Zeros(n)) == ds
  {
    var zs := ds + P.Zeros(n);
    if n > 0 {
      assert zs[..|zs| - 1] == ds + P.Zeros(n - 1);
      TrailingZerosOf(ds, n - 1);
    } else {
      assert zs == ds;
    }
  }

  /** Zeros around a digit string do not change the number. */
  lemma NormalizeOf(negative: bool, lead: nat, digits: seq<nat>, trail: nat, point: int)
    requires Decimal(negative, digits, point).Valid()
    ensures Normalize(negative, P.Zeros(lead) + digits + P.Zeros(trail), point) == Decimal(negative, digits, point - lead)
  {
    var ds := P.Zeros(lead) + (digits + P.Zeros(trail));
    assert P.Zeros(lead) + digits + P.Zeros(trail) == ds;
    P.LeadingZerosOf(lead, digits + P.Zeros(trail));
    assert ds[lead..] == digits + P.Zeros(trail);
    TrailingZerosOf(digits, trail);
  }

  lemma NatTextValue(n: nat)
    ensures P.Value(TextDigits(NatText(n)), 10) == n
  {
    if n == 0 {
      assert TextDigits(NatText(n)) == P.Zeros(1);
      P.ValueOfZeros(1, 10);
    } else {
      DigitTextRoundTrip(P.Digits(n, 10));
      P.ValueOfDigits(n, 10);
    }
  }

  lemma ReadExponentParts(sign: CodeUnit, digits: Text, rest: Text)
    requires sign == PLUS || sign == MINUS
    requires forall i :: 0 <= i < |digits| ==> IsDigit(digits[i])
    requires rest == [] || !IsDigit(rest[0])
    ensures var value: int := P.Value(TextDigits(digits), 10);
            ReadExponent([EXPONENT, sign] + digits + rest) == (if sign == MINUS then -value else value, rest)
  {
    hide P.Value, TextDigits, DigitRun;
    var t := [EXPONENT, sign] + digits + rest;
    assert t[2..] == digits + rest;
    DigitRunOf(digits, rest);
    assert t[0] == EXPONENT && t[1] == sign;
  }

  lemma ReadExponentOf(e: int, rest: Text)
    requires rest == [] || !Continues(rest[0])
    ensures ReadExponent(ExponentText(e) + rest) == (e, rest)
  {
    hide ReadExponent, NatText, TextDigits, P.Value;
    var m: nat := if e < 0 then -e else e;
    ReadExponentParts(if e < 0 then MINUS else PLUS, NatText(m), rest);
    NatTextValue(m);
  }

  lemma ReadWholeOf(whole: seq<nat>, tail: Text)
    requires forall i :: 0 <= i < |whole| ==> whole[i] < 10
    requires tail == [] || !IsDigit(tail[0])
    ensures ReadWhole(DigitText(whole) + tail) == (whole, tail)
  {
    DigitRunOf(DigitText(whole), tail);
    DigitTextRoundTrip(whole);
  }

  lemma ReadFractionOf(fraction: seq<nat>, tail: Text)
    requires forall i :: 0 <= i < |fraction| ==> fraction[i] < 10
    requires tail == [] || (!IsDigit(tail[0]) && tail[0] != POINT)
    ensures ReadFraction(Fraction(fraction) + tail) == (fraction, tail)
  {
    if fraction == [] {
      assert [] + tail == tail;
    } else {
      var t := [POINT] + DigitText(fraction) + tail;
      assert t[1..] == DigitText(fraction) + tail;
      DigitRunOf(DigitText(fraction), tail);
      DigitTextRoundTrip(fraction);
    }
  }

  /** Reading `whole . fraction tail` back: the one fact every layout reduces to. */
  lemma ReadParts(negative: bool, whole: seq<nat>, fraction: seq<nat>, e: int, tail: Text, rest: Text, t: Text)
    requires forall i :: 0 <= i < |whole| ==> whole[i] < 10
    requires forall i :: 0 <= i < |fraction| ==> fraction[i] < 10
    requires tail == [] || (!IsDigit(tail[0]) && tail[0] != POINT)
    requires ReadExponent(tail) == (e, rest)
    requires t == DigitText(whole) + (Fraction(fraction) + tail)
    ensures ReadMagnitude(negative, t) == (Normalize(negative, whole + fraction, |whole| + e), rest)
  {
    hide ReadWhole, ReadFraction, ReadExponent, Normalize;
    var t0 := Fraction(fraction) + tail;
    assert ReadFraction(t0) == (fraction, tail) by { ReadFractionOf(fraction, tail); }
    assert t0 == [] || !IsDigit(t0[0]);
    assert ReadWhole(t) == (whole, t0) by { ReadWholeOf(whole, t0); }
  }

  lemma NoExponent(rest: Text)
    requires rest == [] || !Continues(rest[0])
    ensures ReadExponent(rest) == (0, rest)
  {
  }

  // The digits of each layout still denote the number.

  lemma PaddedRight(negative: bool, digits: seq<nat>, point: int, trail: nat)
    requires Decimal(negative, digits, point).Valid()
    ensures Normalize(negative, digits + P.Zeros(trail), point) == Decimal(negative, digits, point)
  {
    hide Normalize;
    NormalizeOf(negative, 0, digits, trail, point);
    assert P.Zeros(0) + digits == digits;
  }

  lemma PaddedLeft(negative: bool, digits: seq<nat>, point: int, lead: nat)
    requires Decimal(negative, digits, point).Valid()
    ensures Normalize(negative, P.Zeros(lead) + digits, point + lead) == Decimal(negative, digits, point)
  {
    hide Normalize;
    NormalizeOf(negative, lead, digits, 0, point + lead);
    assert P.Zeros(lead) + digits + P.Zeros(0) == P.Zeros(lead) + digits;
  }

  lemma OneMoreZero(n: nat, ds: seq<nat>)
    ensures [0] + (P.Zeros(n) + ds) == P.Zeros(1 + n) + ds
  {
  }

  lemma Unpadded(digits: seq<nat>)
    ensures digits + P.Zeros(0) == digits
  {
  }

  /** The digits of a layout still denote the number. */
  lemma LayoutKeepsNumber(negative: bool, digits: seq<nat>, point: int)
    requires Decimal(negative, digits, point).Valid()
    ensures var l := LayoutOf(digits, point);
            Normalize(negative, l.whole + l.fraction, |l.whole| + l.exponent) == Decimal(negative, digits, point)
  {
    hide Normalize, P.Zeros;
    var k := |digits|;
    if k <= point <= 21 {
      PaddedRight(negative, digits, point, point - k);
      assert digits + P.Zeros(point - k) + [] == digits + P.Zeros(point - k);
    } else if 0 < point <= 21 {
      PaddedRight(negative, digits, point, 0);
      Unpadded(digits);
      assert digits[..point] + digits[point..] == digits;
    } else if -6 < point <= 0 {
      PaddedLeft(negative, digits, point, 1 - point);
      OneMoreZero(-point, digits);
    } else {
      PaddedRight(negative, digits, point, 0);
      Unpadded(digits);
      assert digits[..1] + digits[1..] == digits;
    }
  }

  lemma Regroup(a: Text, b: Text, c: Text, d: Text)
    ensures a + (b + c) + d == a + (b + (c + d))
  {
  }

  lemma ReadLaidOut(negative: bool, l: Layout, rest: Text)
    requires forall i :: 0 <= i < |l.whole| ==> l.whole[i] < 10
    requires forall i :: 0 <= i < |l.fraction| ==> l.fraction[i] < 10
    requires rest == [] || !Continues(rest[0])
    requires !l.scientific ==> l.exponent == 0
    ensures ReadMagnitude(negative, LaidOut(l) + rest) ==
            (Normalize(negative, l.whole + l.fraction, |l.whole| + l.exponent), rest)
  {
    hide Fraction, DigitText, ReadExponent, ReadMagnitude, Normalize, ExponentText;
    var tail := if l.scientific then ExponentText(l.exponent) else [];
    Regroup(DigitText(l.whole), Fraction(l.fraction), tail, rest);
    if l.scientific {
      ReadExponentOf(l.exponent, rest);
      ExponentHead(l.exponent);
      ReadParts(negative, l.whole, l.fraction, l.exponent, tail + rest, rest, LaidOut(l) + rest);
    } else {
      NoExponent(rest);
      assert tail + rest == rest;
      ReadParts(negative, l.whole, l.fraction, 0, rest, rest, LaidOut(l) + rest);
    }
  }

  lemma ExponentHead(e: int)
    ensures ExponentText(e) != [] && ExponentText(e)[0] == EXPONENT
  {
  }

  lemma ReadMagnitudeOf(negative: bool, digits: seq<nat>, point: int, rest: Text)
    requires Decimal(negative, digits, point).Valid()
    requires rest == [] || !Continues(rest[0])
    ensures ReadMagnitude(negative, Magnitude(digits, point) + rest) == (Decimal(negative, digits, point), rest)
  {
    hide LayoutOf, LaidOut, ReadMagnitude, Normalize;
    LayoutKeepsNumber(negative, digits, point);
    ReadLaidOut(negative, LayoutOf(digits, point), rest);
  }

  lemma ReadZero(rest: Text)
    requires rest == [] || !Continues(rest[0])
    ensures Read(DigitText([0]) + rest) == (Zero(false), rest)
  {
    hide ReadMagnitude, ReadExponent, DigitText, P.Zeros, Normalize;
    var t := DigitText([0]) + rest;
    NoExponent(rest);
    assert Fraction([]) + rest == rest;
    ReadParts(false, [0], [], 0, rest, rest, t);
    NormalizeZero();
    assert t[0] == DigitText([0])[0];
  }

  lemma NormalizeZero()
    ensures Normalize(false, [0] + [], 1) == Zero(false)
  {
    assert [0] + [] == P.Zeros(1) + [];
    P.LeadingZerosOf(1, []);
  }

  /** Reading undoes printing, up to the sign of zero. */
  lemma ReadToString(n: Number, rest: Text)
    requires n.Valid() && n.IsFinite()
    requires rest == [] || !Continues(rest[0])
    ensures Read(ToString(n) + rest) == (n.Unsigned(), rest)
  {
    hide ReadMagnitude, ReadExponent, Magnitude, DigitText, P.Zeros;
    match n
    case Zero(_) => ReadZero(rest);
    case Decimal(negative, digits, point) =>
      ReadMagnitudeOf(negative, digits, point, rest);
      var t := ToString(n) + rest;
      if negative {
        assert t[1..] == Magnitude(digits, point) + rest;
      } else {
        assert t[0] == Magnitude(digits, point)[0];
      }
  }
}
