/** JavaScript strings: sequences of UTF-16 code units, surrogates included. */
module Text {

  type CodeUnit = u: int | 0 <= u < 0x10000

  type Text = seq<CodeUnit>

  /** The code units of a literal. */
  function U(s: string): (t: Text)
    ensures |t| == |s|
    ensures forall i :: 0 <= i < |s| && s[i] as int < 0x10000 ==> t[i] == s[i] as int
  {
    seq(|s|, i requires 0 <= i < |s| => if s[i] as int < 0x10000 then s[i] as int else 0xFFFD)
  }

  predicate IsHighSurrogate(u: CodeUnit) {
    0xD800 <= u < 0xDC00
  }

  predicate IsLowSurrogate(u: CodeUnit) {
    0xDC00 <= u < 0xE000
  }

  predicate StartsWithPair(t: Text) {
    |t| >= 2 && IsHighSurrogate(t[0]) && IsLowSurrogate(t[1])
  }

  predicate IsSurrogate(u: CodeUnit) {
    IsHighSurrogate(u) || IsLowSurrogate(u)
  }

  /** Some surrogate is not half of a pair. */
  predicate HasLoneSurrogate(t: Text) {
    if t == [] then false
    else if StartsWithPair(t) then HasLoneSurrogate(t[2..])
    else IsSurrogate(t[0]) || HasLoneSurrogate(t[1..])
  }

  /** The order of `Array.prototype.sort`: by code unit, a proper prefix first. */
  predicate Before(a: Text, b: Text) {
    if b == [] then false
    else if a == [] then true
    else a[0] < b[0] || (a[0] == b[0] && Before(a[1..], b[1..]))
  }

  lemma {:induction false} BeforeIsTotal(a: Text, b: Text)
    ensures Before(a, b) || a == b || Before(b, a)
    ensures !(Before(a, b) && Before(b, a))
    ensures a == b ==> !Before(a, b)
  {
    if a != [] && b != [] {
      BeforeIsTotal(a[1..], b[1..]);
      assert a == [a[0]] + a[1..] && b == [b[0]] + b[1..];
    }
  }

  lemma {:induction false} BeforeIsTransitive(a: Text, b: Text, c: Text)
    requires Before(a, b) && Before(b, c)
    ensures Before(a, c)
  {
    if a != [] && a[0] == b[0] && b[0] == c[0] {
      BeforeIsTransitive(a[1..], b[1..], c[1..]);
    }
  }

  predicate IsDigit(u: CodeUnit) {
    '0' as int <= u <= '9' as int
  }

  /** Length of the longest prefix of decimal digits. */
  function DigitRun(t: Text): (n: nat)
    ensures n <= |t|
    ensures forall i :: 0 <= i < n ==> IsDigit(t[i])
    ensures n < |t| ==> !IsDigit(t[n])
  {
    if t == [] || !IsDigit(t[0]) then 0 else 1 + DigitRun(t[1..])
  }

  /** Decimal digits as text. */
  function DigitText(ds: seq<nat>): (t: Text)
    requires forall i :: 0 <= i < |ds| ==> ds[i] < 10
    ensures |t| == |ds|
    ensures forall i :: 0 <= i < |t| ==> IsDigit(t[i])
  {
    seq(|ds|, i requires 0 <= i < |ds| => '0' as int + ds[i])
  }

  function DigitOf(u: CodeUnit): (d: nat)
    requires IsDigit(u)
    ensures d < 10
  {
    u - '0' as int
  }

  /** The digits a run of digit characters denotes. */
  function TextDigits(t: Text): (ds: seq<nat>)
    requires forall i :: 0 <= i < |t| ==> IsDigit(t[i])
    ensures |ds| == |t|
    ensures forall i :: 0 <= i < |ds| ==> ds[i] < 10
  {
    seq(|t|, i requires 0 <= i < |t| => DigitOf(t[i]))
  }

  lemma DigitTextRoundTrip(ds: seq<nat>)
    requires forall i :: 0 <= i < |ds| ==> ds[i] < 10
    ensures TextDigits(DigitText(ds)) == ds
  {
  }

  lemma {:induction false} DigitRunOf(ds: Text, rest: Text)
    requires forall i :: 0 <= i < |ds| ==> IsDigit(ds[i])
    requires rest == [] || !IsDigit(rest[0])
    ensures DigitRun(ds + rest) == |ds|
    ensures (ds + rest)[..|ds|] == ds && (ds + rest)[|ds|..] == rest
  {
    if ds == [] {
      assert ds + rest == rest;
    } else {
      assert (ds + rest)[1..] == ds[1..] + rest;
      DigitRunOf(ds[1..], rest);
    }
  }
}
