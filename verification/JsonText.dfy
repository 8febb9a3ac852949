/** `JSON.stringify` and the text a request carries for one value. */
module JsonText {
  import opened Text
  import opened Numbers
  import opened Json
  import C = CanonicalJson

  /** `JSON.stringify` of a value inside a structure; members come in sorted order. */
  function Stringify(v: Json): (t: Text)
    ensures v.Arr? ==> t != [] && t[0] == C.OPEN_BRACKET
    ensures v.Obj? ==> t != [] && t[0] == C.OPEN_BRACE
    decreases v, 1, 0
  {
    match v
    case Undefined => C.NULL_TEXT
    case Null => C.NULL_TEXT
    case Bool(b) => if b then C.TRUE_TEXT else C.FALSE_TEXT
    case Num(n) => if n.IsFinite() then ToString(n) else C.NULL_TEXT
    case Str(s) => C.Quote(s)
    case Arr(_) => [C.OPEN_BRACKET] + StringifyItems(v, 0) + [C.CLOSE_BRACKET]
    case Obj(_) => [C.OPEN_BRACE] + StringifyMembers(v, DefinedKeys(v)) + [C.CLOSE_BRACE]
  }

  /** Members that are `undefined` are not printed. */
  function DefinedKeys(v: Json): (keys: seq<Text>)
    requires v.Obj?
    ensures forall k :: k in keys ==> k in v.members
  {
    C.SortedKeys(set k | k in v.members && !v.members[k].Undefined?)
  }

  function StringifyItems(v: Json, i: nat): Text
    requires v.Arr? && i <= |v.items|
    decreases v, 0, |v.items| - i
  {
    if i == |v.items| then []
    else Stringify(v.items[i]) + ((if i + 1 == |v.items| then [] else [C.COMMA]) + StringifyItems(v, i + 1))
  }

  function StringifyMembers(v: Json, keys: seq<Text>): Text
    requires v.Obj? && forall k :: k in keys ==> k in v.members
    decreases v, 0, |keys|
  {
    if keys == [] then []
    else
      C.Quote(keys[0]) + ([C.COLON] + (Stringify(v.members[keys[0]])
        + ((if |keys| == 1 then [] else [C.COMMA]) + StringifyMembers(v, keys[1..]))))
  }

  /** `stringifyPrimitive`. */
  function StringifyPrimitive(v: Json): Text {
    match v
    case Undefined => []
    case Null => []
    case Str(s) => s
    case Num(n) => ToString(n)
    case Bool(b) => if b then C.TRUE_TEXT else C.FALSE_TEXT
    case _ => Stringify(v)
  }

  // ---- Only a string can carry a lone surrogate ----

  lemma {:induction false} PairedConcat(a: Text, b: Text)
    requires !HasLoneSurrogate(a) && !HasLoneSurrogate(b)
    ensures !HasLoneSurrogate(a + b)
  {
    if a == [] {
      assert a + b == b;
    } else if StartsWithPair(a) {
      assert (a + b)[2..] == a[2..] + b;
      PairedConcat(a[2..], b);
    } else {
      assert (a + b)[1..] == a[1..] + b;
      PairedConcat(a[1..], b);
    }
  }

  lemma {:induction false} PlainIsPaired(t: Text)
    requires forall i :: 0 <= i < |t| ==> !IsSurrogate(t[i])
    ensures !HasLoneSurrogate(t)
  {
    if t != [] { PlainIsPaired(t[1..]); }
  }

  lemma {:induction false} EscapeIsPaired(s: Text)
    ensures !HasLoneSurrogate(C.Escape(s))
  {
    if s == [] {
    } else if StartsWithPair(s) {
      EscapeIsPaired(s[2..]);
      PairIsPaired(s[..2]);
      PairedConcat(s[..2], C.Escape(s[2..]));
    } else {
      EscapeIsPaired(s[1..]);
      PlainIsPaired(C.EscapeUnit(s[0]));
      PairedConcat(C.EscapeUnit(s[0]), C.Escape(s[1..]));
    }
  }

  lemma PairIsPaired(t: Text)
    requires |t| == 2 && StartsWithPair(t)
    ensures !HasLoneSurrogate(t)
  {
    assert t[2..] == [];
  }

  lemma QuoteIsPaired(s: Text)
    ensures !HasLoneSurrogate(C.Quote(s))
  {
    hide C.Escape, HasLoneSurrogate;
    EscapeIsPaired(s);
    PlainIsPaired([C.QUOTE]);
    PairedConcat([C.QUOTE], C.Escape(s));
    PairedConcat([C.QUOTE] + C.Escape(s), [C.QUOTE]);
  }

  ghost predicate Plain(t: Text) {
    forall i :: 0 <= i < |t| ==> !IsSurrogate(t[i])
  }

  lemma PlainConcat(a: Text, b: Text)
    requires Plain(a) && Plain(b)
    ensures Plain(a + b)
  {
  }

  lemma MagnitudeIsPlain(digits: seq<nat>, point: int)
    requires Decimal(false, digits, point).Valid()
    ensures Plain(Magnitude(digits, point))
  {
    hide LayoutOf, DigitText, NatText, Plain;
    var l := LayoutOf(digits, point);
    DigitsArePlain(DigitText(l.whole));
    DigitsArePlain(NatText(if l.exponent < 0 then -l.exponent else l.exponent));
    FractionIsPlain(l.fraction);
    SignIsPlain(l.exponent < 0);
    PlainConcat([EXPONENT, if l.exponent < 0 then MINUS else PLUS], NatText(if l.exponent < 0 then -l.exponent else l.exponent));
    var tail := if l.scientific then ExponentText(l.exponent) else [];
    DigitsArePlain([]);
    PlainConcat(Fraction(l.fraction), tail);
    PlainConcat(DigitText(l.whole), Fraction(l.fraction) + tail);
  }

  lemma DigitsArePlain(t: Text)
    requires forall i :: 0 <= i < |t| ==> IsDigit(t[i])
    ensures Plain(t)
  {
  }

  lemma SignIsPlain(negative: bool)
    ensures Plain([EXPONENT, if negative then MINUS else PLUS])
  {
  }

  lemma FractionIsPlain(ds: seq<nat>)
    requires forall i :: 0 <= i < |ds| ==> ds[i] < 10
    ensures Plain(Fraction(ds))
  {
    if ds != [] {
      DigitsArePlain(DigitText(ds));
      PlainConcat([POINT], DigitText(ds));
    }
  }

  /** A number's text is never a dot segment. */
  lemma NumberIsPaired(n: ValidNumber)
    ensures !HasLoneSurrogate(ToString(n))
    ensures ToString(n) != [0x2E] && ToString(n) != [0x2E, 0x2E]
  {
    hide HasLoneSurrogate, Magnitude;
    if n.Decimal? {
      MagnitudeIsPlain(n.digits, n.point);
      assert Plain(ToString(n)) by { PlainConcat([MINUS], Magnitude(n.digits, n.point)); }
    }
    PlainIsPaired(ToString(n));
    assert ToString(n)[0] != 0x2E by {
      assert n.NotANumber? ==> ToString(n)[0] == 'N' as int;
      assert n.Infinite? ==> ToString(n)[0] == if n.negative then '-' as int else 'I' as int;
      assert n.Zero? ==> IsDigit(ToString(n)[0]);
      assert n.Decimal? && !n.negative ==> IsDigit(Magnitude(n.digits, n.point)[0]);
    }
  }

  lemma {:induction false} StringifyIsPaired(v: Json)
    ensures !HasLoneSurrogate(Stringify(v))
    decreases v, 1, 0
  {
    hide C.Quote, HasLoneSurrogate, ToString;
    match v
    case Num(n) => NumberIsPaired(n); PlainIsPaired(C.NULL_TEXT);
    case Str(s) => QuoteIsPaired(s);
    case Arr(_) =>
      ItemsArePaired(v, 0);
      Bracketed(C.OPEN_BRACKET, StringifyItems(v, 0), C.CLOSE_BRACKET);
    case Obj(_) =>
      MembersArePaired(v, DefinedKeys(v));
      Bracketed(C.OPEN_BRACE, StringifyMembers(v, DefinedKeys(v)), C.CLOSE_BRACE);
    case _ => PlainIsPaired(Stringify(v));
  }

  lemma Bracketed(a: CodeUnit, t: Text, b: CodeUnit)
    requires !IsSurrogate(a) && !IsSurrogate(b) && !HasLoneSurrogate(t)
    ensures !HasLoneSurrogate([a] + t + [b])
  {
    hide HasLoneSurrogate;
    PlainIsPaired([a]);
    PlainIsPaired([b]);
    PairedConcat([a], t);
    PairedConcat([a] + t, [b]);
  }

  lemma {:induction false} ItemsArePaired(v: Json, i: nat)
    requires v.Arr? && i <= |v.items|
    ensures !HasLoneSurrogate(StringifyItems(v, i))
    decreases v, 0, |v.items| - i
  {
    hide HasLoneSurrogate, Stringify;
    PlainIsPaired([]);
    if i < |v.items| {
      StringifyIsPaired(v.items[i]);
      ItemsArePaired(v, i + 1);
      SeparatedIsPaired(i + 1 == |v.items|, StringifyItems(v, i + 1));
      PairedConcat(Stringify(v.items[i]), (if i + 1 == |v.items| then [] else [C.COMMA]) + StringifyItems(v, i + 1));
    }
  }

  lemma SeparatedIsPaired(last: bool, t: Text)
    requires !HasLoneSurrogate(t)
    ensures !HasLoneSurrogate((if last then [] else [C.COMMA]) + t)
  {
    hide HasLoneSurrogate;
    PlainIsPaired(if last then [] else [C.COMMA]);
    PairedConcat(if last then [] else [C.COMMA], t);
  }

  lemma {:induction false} MembersArePaired(v: Json, keys: seq<Text>)
    requires v.Obj? && forall k :: k in keys ==> k in v.members
    ensures !HasLoneSurrogate(StringifyMembers(v, keys))
    decreases v, 0, |keys|
  {
    hide HasLoneSurrogate, Stringify, C.Quote;
    PlainIsPaired([]);
    if keys != [] {
      var value := Stringify(v.members[keys[0]]);
      var rest := (if |keys| == 1 then [] else [C.COMMA]) + StringifyMembers(v, keys[1..]);
      QuoteIsPaired(keys[0]);
      StringifyIsPaired(v.members[keys[0]]);
      MembersArePaired(v, keys[1..]);
      SeparatedIsPaired(|keys| == 1, StringifyMembers(v, keys[1..]));
      PairedConcat(value, rest);
      PlainIsPaired([C.COLON]);
      PairedConcat([C.COLON], value + rest);
      PairedConcat(C.Quote(keys[0]), [C.COLON] + (value + rest));
    }
  }
}
