/** Exact conversion between decimal display amounts and integer base units. */
module Amount {
  import opened Text
  import P = Positional
  import N = Numbers

  datatype ParseResult =
    | BaseUnits(units: nat)
    | InternalError  // decimals is not a non-negative integer
    | PaymentInvalid // not a plain decimal, or more precision than the asset has

  /** A plain decimal, split at the point: `^\d+(?:\.\d+)?$`. */
  datatype Plain = Plain(whole: Text, fraction: Text) | NotPlain {
    ghost predicate Valid() {
      Plain? ==>
        && whole != []
        && (forall i :: 0 <= i < |whole| ==> IsDigit(whole[i]))
        && (forall i :: 0 <= i < |fraction| ==> IsDigit(fraction[i]))
    }
  }

  function Split(t: Text): (p: Plain)
    ensures p.Valid()
  {
    var n := DigitRun(t);
    if n == 0 then NotPlain
    else if n == |t| then Plain(t, [])
    else
      var tail := t[n + 1..];
      if t[n] == N.POINT && tail != [] && DigitRun(tail) == |tail| then Plain(t[..n], tail) else NotPlain
  }

  /** The digits of an amount as one number. */
  function DigitValue(t: Text): nat
    requires forall i :: 0 <= i < |t| ==> IsDigit(t[i])
  {
    P.Value(TextDigits(t), 10)
  }

  /** `fraction.padEnd(decimals, '0')`. */
  function PadEnd(t: Text, length: nat): (r: Text)
    requires forall i :: 0 <= i < |t| ==> IsDigit(t[i])
    ensures forall i :: 0 <= i < |r| ==> IsDigit(r[i])
  {
    t + DigitText(P.Zeros(if |t| < length then length - |t| else 0))
  }

  function ParseCanonicalAmount(amount: Text, decimals: int): ParseResult {
    if decimals < 0 then InternalError
    else
      var plain := Split(amount);
      if plain.NotPlain? || |plain.fraction| > decimals then PaymentInvalid
      else BaseUnits(DigitValue(plain.whole + PadEnd(plain.fraction, decimals)))
  }

  /** `^0(?:\.0+)?$`: zero with a single leading zero. */
  predicate IsZeroPattern(amount: Text) {
    var plain := Split(amount);
    plain.Plain? && |plain.whole| == 1 && AllZero(plain.whole) && AllZero(plain.fraction)
  }

  predicate AllZero(t: Text) {
    forall i :: 0 <= i < |t| ==> t[i] == '0' as int
  }

  /** What config accepts against an optional bound on fraction digits. */
  predicate ConfigAccepts(amount: Text, decimals: int, bounded: bool) {
    var plain := Split(amount);
    plain.Plain? && !IsZeroPattern(amount) && (bounded ==> |plain.fraction| <= decimals)
  }

  /** `Math.min(...decimals)` over the offers. */
  function Coarsest(offers: seq<nat>): (m: nat)
    requires offers != []
    ensures m in offers
    ensures forall d :: d in offers ==> m <= d
  {
    if |offers| == 1 then offers[0]
    else
      var m := Coarsest(offers[1..]);
      assert forall d :: d in offers ==> d == offers[0] || d in offers[1..];
      if offers[0] <= m then offers[0] else m
  }

  lemma DigitsTimesPower(a: Text, zeros: nat)
    requires forall i :: 0 <= i < |a| ==> IsDigit(a[i])
    ensures DigitValue(a + DigitText(P.Zeros(zeros))) == DigitValue(a) * P.Pow(10, zeros)
  {
    hide P.Value, P.Pow;
    DigitTextRoundTrip(P.Zeros(zeros));
    assert TextDigits(a + DigitText(P.Zeros(zeros))) == TextDigits(a) + P.Zeros(zeros);
    P.ValueConcat(TextDigits(a), P.Zeros(zeros), 10);
    P.ValueOfZeros(zeros, 10);
  }

  lemma PaddedValue(whole: Text, fraction: Text, decimals: nat)
    requires forall i :: 0 <= i < |whole| ==> IsDigit(whole[i])
    requires forall i :: 0 <= i < |fraction| ==> IsDigit(fraction[i])
    requires |fraction| <= decimals
    ensures DigitValue(whole + PadEnd(fraction, decimals)) * P.Pow(10, |fraction|)
         == DigitValue(whole + fraction) * P.Pow(10, decimals)
  {
    hide P.Pow, DigitValue, DigitText;
    var f := |fraction|;
    var pad := DigitText(P.Zeros(decimals - f));
    assert whole + (fraction + pad) == whole + fraction + pad;
    DigitsTimesPower(whole + fraction, decimals - f);
    P.PowAdd(10, decimals - f, f);
    P.Associate(DigitValue(whole + fraction), P.Pow(10, decimals - f), P.Pow(10, f));
  }

  /** The result times 10^(fraction digits) is the digit string times 10^decimals. */
  lemma ParseIsExact(amount: Text, decimals: int)
    requires ParseCanonicalAmount(amount, decimals).BaseUnits?
    ensures var plain := Split(amount);
            && plain.Plain?
            && |plain.fraction| <= decimals
            && ParseCanonicalAmount(amount, decimals).units * P.Pow(10, |plain.fraction|)
            == DigitValue(plain.whole + plain.fraction) * P.Pow(10, decimals)
  {
    hide P.Pow, DigitValue, Split, PadEnd;
    PaddedValue(Split(amount).whole, Split(amount).fraction, decimals);
  }

  predicate AllDigits(t: Text) {
    forall i :: 0 <= i < |t| ==> IsDigit(t[i])
  }

  /** A decimal as it is written: the point only where a fraction follows. */
  function Written(whole: Text, fraction: Text): Text {
    whole + if fraction == [] then [] else [N.POINT] + fraction
  }

  lemma SplitReadsWritten(whole: Text, fraction: Text)
    requires whole != [] && AllDigits(whole) && AllDigits(fraction)
    ensures Split(Written(whole, fraction)) == Plain(whole, fraction)
  {
    hide DigitRun;
    if fraction == [] {
      DigitRunOf(whole, []);
      assert whole + [] == whole;
    } else {
      var t, rest := Written(whole, fraction), [N.POINT] + fraction;
      assert t == whole + rest && rest[1..] == fraction;
      DigitRunOf(whole, rest);
      DigitRunOf(fraction, []);
      assert fraction + [] == fraction;
      assert t[|whole| + 1..] == fraction;
    }
  }

  lemma SplitWasWritten(t: Text)
    requires Split(t).Plain?
    ensures t == Written(Split(t).whole, Split(t).fraction)
  {
  }

  /**
   * Nothing is rounded away: an amount parses exactly when it is written as
   * digits with at most as many after the point as the asset has, trailing
   * zeros included.
   */
  lemma ParsesExactlyDecimals(amount: Text, decimals: nat)
    ensures ParseCanonicalAmount(amount, decimals).BaseUnits? <==>
            exists whole, fraction ::
              && whole != [] && AllDigits(whole) && AllDigits(fraction) && |fraction| <= decimals
              && amount == Written(whole, fraction)
  {
    hide Written;
    var plain := Split(amount);
    if plain.Plain? { SplitWasWritten(amount); }
    forall whole, fraction
      | whole != [] && AllDigits(whole) && AllDigits(fraction) && amount == Written(whole, fraction)
      ensures plain == Plain(whole, fraction)
    {
      SplitReadsWritten(whole, fraction);
    }
  }

  lemma CancelPower(a: nat, b: nat, e: nat)
    requires a * P.Pow(10, e) == b * P.Pow(10, e)
    ensures a == b
  {
    hide P.Pow;
    P.PowPositive(10, e);
    var p := P.Pow(10, e);
    if a < b { P.Monotone(a + 1, b, p); } else if b < a { P.Monotone(b + 1, a, p); }
  }

  /** Offers with different decimals charge the same value. */
  lemma OffersAgree(amount: Text, d1: int, d2: int)
    requires ParseCanonicalAmount(amount, d1).BaseUnits? && ParseCanonicalAmount(amount, d2).BaseUnits?
    ensures ParseCanonicalAmount(amount, d1).units * P.Pow(10, d2) == ParseCanonicalAmount(amount, d2).units * P.Pow(10, d1)
  {
    hide P.Pow, DigitValue, ParseCanonicalAmount;
    ParseIsExact(amount, d1);
    ParseIsExact(amount, d2);
    var plain := Split(amount);
    var u1, u2 := ParseCanonicalAmount(amount, d1).units, ParseCanonicalAmount(amount, d2).units;
    var v, f := DigitValue(plain.whole + plain.fraction), P.Pow(10, |plain.fraction|);
    var p1, p2 := P.Pow(10, d1), P.Pow(10, d2);
    assert u1 * f == v * p1 && u2 * f == v * p2;
    assert u1 * p2 * f == u1 * f * p2 == v * p1 * p2 == u2 * f * p1 == u2 * p1 * f;
    CancelPower(u1 * p2, u2 * p1, |plain.fraction|);
  }

  /** What config accepts against the coarsest offer parses for every offer. */
  lemma AcceptedPriceParsesForEveryOffer(amount: Text, offers: seq<nat>, d: nat)
    requires offers != [] && d in offers
    requires ConfigAccepts(amount, Coarsest(offers), true)
    ensures ParseCanonicalAmount(amount, d).BaseUnits?
  {
  }

  lemma {:induction false} ValueZero(ds: seq<nat>)
    ensures P.Value(ds, 10) == 0 <==> forall i :: 0 <= i < |ds| ==> ds[i] == 0
  {
    if ds != [] {
      var init := ds[..|ds| - 1];
      ValueZero(init);
      forall i | 0 <= i < |ds| && P.Value(ds, 10) == 0 ensures ds[i] == 0 {
        if i < |init| { assert init[i] == ds[i]; }
      }
    }
  }

  /**
   * The zero check is not complete: among accepted amounts, exactly the
   * all-zero ones with more than one whole digit charge nothing.
   */
  lemma AcceptedZeroPrices(amount: Text, decimals: int)
    requires ConfigAccepts(amount, decimals, true) && decimals >= 0
    ensures ParseCanonicalAmount(amount, decimals) == BaseUnits(0) <==>
            AllZero(Split(amount).whole) && AllZero(Split(amount).fraction) && |Split(amount).whole| > 1
  {
    var plain := Split(amount);
    var combined := plain.whole + PadEnd(plain.fraction, decimals);
    ValueZero(TextDigits(combined));
    if AllZero(plain.whole) && AllZero(plain.fraction) {
      assert AllZero(combined);
    }
    if DigitValue(combined) == 0 {
      forall i | 0 <= i < |plain.whole| ensures plain.whole[i] == '0' as int { assert TextDigits(combined)[i] == 0; }
      forall i | 0 <= i < |plain.fraction| ensures plain.fraction[i] == '0' as int {
        assert TextDigits(combined)[|plain.whole| + i] == 0;
      }
    }
  }

  lemma DoubleZeroIsAccepted()
    ensures ConfigAccepts(U("00"), 6, true)
    ensures ParseCanonicalAmount(U("00"), 6) == BaseUnits(0)
  {
    var t := U("00");
    assert t == [0x30, 0x30];
    assert DigitRun(t[1..]) == 1;
    assert DigitRun(t) == 2;
    assert Split(t) == Plain(t, []);
    AcceptedZeroPrices(t, 6);
  }

  // ---- The reverse direction ----

  function TrimEnd(t: Text): (r: Text)
    ensures |r| <= |t| && t[..|r|] == r
    ensures AllZero(t[|r|..])
  {
    if t == [] || t[|t| - 1] != '0' as int then t else TrimEnd(t[..|t| - 1])
  }

  /** `value.toString().padStart(decimals, '0')`. */
  function Padded(units: nat, decimals: nat): (t: Text)
    ensures |t| >= decimals
    ensures forall i :: 0 <= i < |t| ==> IsDigit(t[i])
  {
    var digits := N.NatText(units);
    DigitText(P.Zeros(if |digits| < decimals then decimals - |digits| else 0)) + digits
  }

  /** viem's `formatUnits`: digits padded on the left, split, trailing zeros trimmed. */
  function FormatUnits(units: nat, decimals: nat): Text {
    var padded := Padded(units, decimals);
    var whole, fraction := padded[..|padded| - decimals], TrimEnd(padded[|padded| - decimals..]);
    Written(if whole == [] then DigitText([0]) else whole, fraction)
  }

  lemma LeadingZerosAddNothing(zeros: nat, t: Text)
    requires forall i :: 0 <= i < |t| ==> IsDigit(t[i])
    ensures DigitValue(DigitText(P.Zeros(zeros)) + t) == DigitValue(t)
  {
    hide P.Value;
    DigitTextRoundTrip(P.Zeros(zeros));
    assert TextDigits(DigitText(P.Zeros(zeros)) + t) == P.Zeros(zeros) + TextDigits(t);
    P.ValueSkipsZeros(zeros, TextDigits(t), 10);
  }

  lemma ZeroText(k: nat)
    ensures forall i :: 0 <= i < k ==> DigitText(P.Zeros(k))[i] == '0' as int
  {
  }

  lemma AllZeroUnits(t: Text)
    requires AllZero(t)
    ensures forall i :: 0 <= i < |t| ==> t[i] == '0' as int
  {
  }

  lemma PadMeans(t: Text, length: nat)
    requires |t| <= length && forall i :: 0 <= i < |t| ==> IsDigit(t[i])
    ensures PadEnd(t, length) == t + DigitText(P.Zeros(length - |t|))
  {
  }

  /** Text of zeros is what padding adds. */
  lemma ZerosArePadding(t: Text)
    requires AllZero(t)
    ensures DigitText(P.Zeros(|t|)) == t
  {
    hide DigitText, AllZero;
    ZeroText(|t|);
    AllZeroUnits(t);
  }

  lemma PadUndoesTrim(t: Text)
    requires forall i :: 0 <= i < |t| ==> IsDigit(t[i])
    ensures PadEnd(TrimEnd(t), |t|) == t
  {
    hide *;
    var r := TrimEnd(t);
    assert forall i :: 0 <= i < |r| ==> r[i] == t[i];
    ZerosArePadding(t[|r|..]);
    PadMeans(r, |t|);
  }

  lemma ShownValue(whole: Text, rest: Text)
    requires forall i :: 0 <= i < |whole| ==> IsDigit(whole[i])
    requires forall i :: 0 <= i < |rest| ==> IsDigit(rest[i])
    ensures DigitValue((if whole == [] then DigitText([0]) else whole) + rest) == DigitValue(whole + rest)
  {
    hide DigitValue;
    if whole == [] {
      assert whole + rest == rest;
      assert DigitText([0]) == DigitText(P.Zeros(1));
      LeadingZerosAddNothing(1, rest);
    }
  }

  /** Parsing undoes printing for all base-unit integers. */
  lemma ParseUndoesFormat(units: nat, decimals: nat)
    ensures ParseCanonicalAmount(FormatUnits(units, decimals), decimals) == BaseUnits(units)
  {
    hide DigitValue, Split, TrimEnd, PadEnd, Padded, DigitText, Written;
    var padded := Padded(units, decimals);
    var cut := |padded| - decimals;
    var whole, rest := padded[..cut], padded[cut..];
    SplitReadsWritten(if whole == [] then DigitText([0]) else whole, TrimEnd(rest));
    PadUndoesTrim(rest);
    assert padded == whole + rest;
    ShownValue(whole, rest);
    PaddedDigits(units, decimals);
  }

  lemma PaddedDigits(units: nat, decimals: nat)
    ensures DigitValue(Padded(units, decimals)) == units
  {
    hide DigitValue, N.NatText;
    var digits := N.NatText(units);
    LeadingZerosAddNothing(if |digits| < decimals then decimals - |digits| else 0, digits);
    FormatDigits(units);
  }

  lemma FormatDigits(units: nat)
    ensures DigitValue(N.NatText(units)) == units
  {
    N.NatTextValue(units);
  }
}
