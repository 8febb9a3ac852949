/** `encodeURIComponent` and `decodeURIComponent` (ECMA-262, section 19.2.6). */
module Uri {
  import opened Text
  import opened Options

  const PERCENT: CodeUnit := 0x25

  type Byte = b: int | 0 <= b < 256

  type CodePoint = c: int | 0 <= c < 0x110000

  /** Letters, digits and - _ . ! ~ * ' ( ) stay as they are. */
  predicate Unescaped(u: CodeUnit) {
    || 0x30 <= u <= 0x39
    || 0x41 <= u <= 0x5A
    || 0x61 <= u <= 0x7A
    || u in {0x2D, 0x5F, 0x2E, 0x21, 0x7E, 0x2A, 0x27, 0x28, 0x29}
  }

  function PairCodePoint(high: CodeUnit, low: CodeUnit): (c: CodePoint)
    requires IsHighSurrogate(high) && IsLowSurrogate(low)
    ensures 0x10000 <= c
  {
    0x10000 + (high - 0xD800) * 0x400 + (low - 0xDC00)
  }

  function Utf16(c: CodePoint): Text {
    if c < 0x10000 then [c]
    else [0xD800 + (c - 0x10000) / 0x400, 0xDC00 + (c - 0x10000) % 0x400]
  }

  function Utf8(c: CodePoint): (bs: seq<Byte>)
    ensures 1 <= |bs| <= 4
  {
    if c < 0x80 then [c]
    else if c < 0x800 then [0xC0 + c / 0x40, 0x80 + c % 0x40]
    else if c < 0x10000 then [0xE0 + c / 0x1000, 0x80 + c / 0x40 % 0x40, 0x80 + c % 0x40]
    else [0xF0 + c / 0x40000, 0x80 + c / 0x1000 % 0x40, 0x80 + c / 0x40 % 0x40, 0x80 + c % 0x40]
  }

  function UpperHex(d: int): CodeUnit
    requires 0 <= d < 16
  {
    if d < 10 then 0x30 + d else 0x41 + d - 10
  }

  function PercentByte(b: Byte): Text {
    [PERCENT, UpperHex(b / 16), UpperHex(b % 16)]
  }

  function PercentBytes(bs: seq<Byte>): Text {
    if bs == [] then [] else PercentByte(bs[0]) + PercentBytes(bs[1..])
  }

  /** `None` is the URIError a lone surrogate raises. */
  function Encode(t: Text): Option<Text> {
    if t == [] then Some([])
    else if StartsWithPair(t) then
      var tail := Encode(t[2..]);
      if tail.None? then None else Some(PercentBytes(Utf8(PairCodePoint(t[0], t[1]))) + tail.value)
    else if IsSurrogate(t[0]) then None
    else
      var tail := Encode(t[1..]);
      if tail.None? then None
      else Some((if Unescaped(t[0]) then [t[0]] else PercentBytes(Utf8(t[0]))) + tail.value)
  }

  lemma {:induction false} EncodesUnlessLoneSurrogate(t: Text)
    ensures Encode(t).None? <==> HasLoneSurrogate(t)
  {
    if t == [] {
    } else if StartsWithPair(t) {
      EncodesUnlessLoneSurrogate(t[2..]);
    } else {
      EncodesUnlessLoneSurrogate(t[1..]);
    }
  }

  // ---- Decoding ----

  function HexValue(u: CodeUnit): Option<int> {
    if 0x30 <= u <= 0x39 then Some(u - 0x30)
    else if 0x41 <= u <= 0x46 then Some(u - 0x41 + 10)
    else if 0x61 <= u <= 0x66 then Some(u - 0x61 + 10)
    else None
  }

  /** The byte of a leading percent escape. */
  function ReadByte(t: Text): (b: Option<Byte>)
    ensures b.Some? ==> |t| >= 3
  {
    if |t| < 3 || t[0] != PERCENT then None
    else
      var a, b := HexValue(t[1]), HexValue(t[2]);
      if a.Some? && b.Some? then HexBound(t[1]); HexBound(t[2]); Some(a.value * 16 + b.value) else None
  }

  lemma HexBound(u: CodeUnit)
    ensures HexValue(u).Some? ==> 0 <= HexValue(u).value < 16
  {
  }

  /** `n` continuation bytes at the front of `t`, joined below `high`. */
  function ReadContinuation(t: Text, n: nat, high: nat): (r: Option<(nat, Text)>)
    ensures r.Some? ==> |r.value.1| <= |t|
    decreases n
  {
    if n == 0 then Some((high, t))
    else
      var b := ReadByte(t);
      if b.None? || !(0x80 <= b.value < 0xC0) then None
      else ReadContinuation(t[3..], n - 1, high * 0x40 + (b.value - 0x80))
  }

  /** The code point that starts at a percent escape; overlong forms and surrogates are refused. */
  function ReadEscaped(t: Text): (r: Option<(CodePoint, Text)>)
    ensures r.Some? ==> |r.value.1| < |t|
  {
    var b := ReadByte(t);
    if b.None? then None
    else if b.value < 0x80 then Some((b.value, t[3..]))
    else
      var (n, high, least) :=
        if 0xC0 <= b.value < 0xE0 then (1, b.value - 0xC0, 0x80)
        else if 0xE0 <= b.value < 0xF0 then (2, b.value - 0xE0, 0x800)
        else if 0xF0 <= b.value < 0xF8 then (3, b.value - 0xF0, 0x10000)
        else (0, 0, 0x110000);
      var c := ReadContinuation(t[3..], n, high);
      if c.None? || c.value.0 < least || c.value.0 >= 0x110000 || 0xD800 <= c.value.0 < 0xE000 then None
      else Some(c.value)
  }

  /** `None` is the URIError of a malformed escape. */
  function Decode(t: Text): Option<Text>
    decreases |t|
  {
    if t == [] then Some([])
    else if t[0] != PERCENT then
      var tail := Decode(t[1..]);
      if tail.None? then None else Some([t[0]] + tail.value)
    else
      var c := ReadEscaped(t);
      if c.None? then None
      else
        var tail := Decode(c.value.1);
        if tail.None? then None else Some(Utf16(c.value.0) + tail.value)
  }

  // ---- Decoding undoes encoding ----

  lemma ReadPercentByte(b: Byte, rest: Text)
    ensures ReadByte(PercentByte(b) + rest) == Some(b)
    ensures (PercentByte(b) + rest)[3..] == rest
  {
  }

  lemma {:induction false} ReadPercentBytes(bs: seq<Byte>, high: nat, rest: Text)
    requires forall i :: 0 <= i < |bs| ==> 0x80 <= bs[i] < 0xC0
    ensures ReadContinuation(PercentBytes(bs) + rest, |bs|, high) == Some((Joined(bs, high), rest))
  {
    hide PercentByte, ReadByte;
    var t := PercentBytes(bs) + rest;
    if bs == [] {
      assert t == rest;
    } else {
      assert t == PercentByte(bs[0]) + (PercentBytes(bs[1..]) + rest);
      ReadPercentByte(bs[0], PercentBytes(bs[1..]) + rest);
      ReadPercentBytes(bs[1..], high * 0x40 + (bs[0] - 0x80), rest);
    }
  }

  function Joined(bs: seq<Byte>, high: nat): nat
    requires forall i :: 0 <= i < |bs| ==> 0x80 <= bs[i] < 0xC0
  {
    if bs == [] then high else Joined(bs[1..], high * 0x40 + (bs[0] - 0x80))
  }

  lemma JoinedOne(a: Byte, high: nat)
    requires 0x80 <= a < 0xC0
    ensures Joined([a], high) == high * 0x40 + (a - 0x80)
  {
    assert [a][1..] == [];
  }

  lemma JoinedMore(a: Byte, bs: seq<Byte>, high: nat)
    requires forall i :: 0 <= i < |bs| ==> 0x80 <= bs[i] < 0xC0
    requires 0x80 <= a < 0xC0
    ensures Joined([a] + bs, high) == Joined(bs, high * 0x40 + (a - 0x80))
  {
    assert ([a] + bs)[1..] == bs;
  }

  /** The number of continuation bytes, the bits of the first byte and the continuation bytes. */
  lemma Utf8Joins(c: CodePoint) returns (high: nat, tail: seq<Byte>)
    requires c >= 0x80
    ensures Utf8(c)[1..] == tail
    ensures forall i :: 0 <= i < |tail| ==> 0x80 <= tail[i] < 0xC0
    ensures Joined(tail, high) == c
    ensures c < 0x800 ==> |tail| == 1 && high < 0x20 && Utf8(c)[0] == 0xC0 + high
    ensures 0x800 <= c < 0x10000 ==> |tail| == 2 && high < 0x10 && Utf8(c)[0] == 0xE0 + high
    ensures 0x10000 <= c ==> |tail| == 3 && high < 8 && Utf8(c)[0] == 0xF0 + high
  {
    hide Joined;
    var low: Byte := 0x80 + c % 0x40;
    var middle: Byte := 0x80 + c / 0x40 % 0x40;
    var upper: Byte := 0x80 + c / 0x1000 % 0x40;
    SixBits(c);
    JoinedOne(low, c / 0x40);
    JoinedMore(middle, [low], c / 0x1000);
    JoinedMore(upper, [middle] + [low], c / 0x40000);
    if c < 0x800 {
      high, tail := c / 0x40, [low];
    } else if c < 0x10000 {
      high, tail := c / 0x1000, [middle] + [low];
    } else {
      high, tail := c / 0x40000, [upper] + ([middle] + [low]);
    }
  }

  lemma SixBits(c: CodePoint)
    ensures c / 0x40 * 0x40 + c % 0x40 == c
    ensures c / 0x1000 * 0x40 + c / 0x40 % 0x40 == c / 0x40
    ensures c / 0x40000 * 0x40 + c / 0x1000 % 0x40 == c / 0x1000
  {
  }

  lemma ReadEscapedCodePoint(c: CodePoint, rest: Text)
    requires !(0xD800 <= c < 0xE000)
    ensures ReadEscaped(PercentBytes(Utf8(c)) + rest) == Some((c, rest))
  {
    hide PercentByte, ReadByte, Utf8;
    var bs := Utf8(c);
    var tail := PercentBytes(bs[1..]) + rest;
    assert PercentBytes(bs) + rest == PercentByte(bs[0]) + tail;
    ReadPercentByte(bs[0], tail);
    if c < 0x80 {
      assert bs == [c] by { AsciiUtf8(c); }
      assert tail == rest;
    } else {
      var high, cont := Utf8Joins(c);
      ReadPercentBytes(cont, high, rest);
    }
  }

  lemma AsciiUtf8(c: CodePoint)
    requires c < 0x80
    ensures Utf8(c) == [c]
  {
  }

  /** What the backend decodes is what the caller sent. */
  lemma {:induction false} DecodeUndoesEncode(t: Text)
    requires Encode(t).Some?
    ensures Decode(Encode(t).value) == Some(t)
  {
    hide Utf8, PercentBytes, ReadEscaped;
    if t == [] {
    } else if StartsWithPair(t) {
      DecodeUndoesEncode(t[2..]);
      var c := PairCodePoint(t[0], t[1]);
      DecodeEscaped(c, Encode(t[2..]).value);
      assert Utf16(c) == t[..2];
      assert t == t[..2] + t[2..];
    } else {
      DecodeUndoesEncode(t[1..]);
      assert t == [t[0]] + t[1..];
      var tail := Encode(t[1..]).value;
      if Unescaped(t[0]) {
        assert ([t[0]] + tail)[1..] == tail;
      } else {
        DecodeEscaped(t[0], tail);
      }
    }
  }

  lemma DecodeEscaped(c: CodePoint, tail: Text)
    requires !(0xD800 <= c < 0xE000) && Decode(tail).Some?
    ensures Decode(PercentBytes(Utf8(c)) + tail) == Some(Utf16(c) + Decode(tail).value)
  {
    hide Utf8, ReadEscaped;
    ReadEscapedCodePoint(c, tail);
    assert (PercentBytes(Utf8(c)) + tail)[0] == PERCENT;
  }
}
