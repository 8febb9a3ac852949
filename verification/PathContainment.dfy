/**
 * Where a filled path ends up once the URL parser has removed its dot
 * segments (RFC 3986, section 5.2.4, as the URL standard's path state does it).
 */
module PathContainment {
  import opened Text
  import opened Json
  import opened Options
  import opened PathTemplate
  import opened BackendRequest
  import JsonText
  import Uri

  const SLASH: CodeUnit := 0x2F
  const PERCENT: CodeUnit := 0x25
  const DOT_UNIT: CodeUnit := 0x2E

  /** A backslash separates segments too. */
  predicate IsSeparator(u: CodeUnit) {
    u == SLASH || u == 0x5C
  }

  /** `?` and `#` end the path. */
  predicate EndsPath(u: CodeUnit) {
    u == 0x3F || u == 0x23
  }

  /** Tabs and line breaks are dropped from a URL. */
  predicate IsDropped(u: CodeUnit) {
    u == 0x09 || u == 0x0A || u == 0x0D
  }

  /** Length of the dot, written `.` or `%2e`, that starts the text; 0 when none does. */
  function DotLength(t: Text): (n: nat)
    ensures n <= |t|
  {
    if t == [] then 0
    else if t[0] == DOT_UNIT then 1
    else if |t| >= 3 && t[0] == PERCENT && t[1] == 0x32 && (t[2] == 0x65 || t[2] == 0x45) then 3
    else 0
  }

  /** The number of dots that make up the whole text. */
  function DotCount(t: Text): Option<nat> {
    if t == [] then Some(0)
    else if DotLength(t) == 0 then None
    else
      var n := DotCount(t[DotLength(t)..]);
      if n.None? then None else Some(n.value + 1)
  }

  // ---- The path state ----

  datatype State = State(stack: seq<Text>, buffer: Text, ended: bool)

  const START := State([], [], false)

  function Shorten<T>(stack: seq<T>): seq<T> {
    if stack == [] then [] else stack[..|stack| - 1]
  }

  function CloseSegment(s: State): seq<Text> {
    if DotCount(s.buffer) == Some(2) then Shorten(s.stack)
    else if DotCount(s.buffer) == Some(1) then s.stack
    else s.stack + [s.buffer]
  }

  function LastSegment(s: State): seq<Text> {
    if DotCount(s.buffer) == Some(2) then Shorten(s.stack) + [[]]
    else if DotCount(s.buffer) == Some(1) then s.stack + [[]]
    else s.stack + [s.buffer]
  }

  function Step(s: State, u: CodeUnit): State {
    if s.ended || IsDropped(u) then s
    else if EndsPath(u) then s.(ended := true)
    else if IsSeparator(u) then State(CloseSegment(s), [], false)
    else s.(buffer := s.buffer + [u])
  }

  function Run(s: State, t: Text): State
    decreases |t|
  {
    if t == [] then s else Run(Step(s, t[0]), t[1..])
  }

  function Slashed(segments: seq<Text>): Text {
    if segments == [] then [] else [SLASH] + segments[0] + Slashed(segments[1..])
  }

  /** The path percent-encode set of the URL standard. */
  predicate InPathSet(u: CodeUnit) {
    u <= 0x20 || u > 0x7E || u in {0x22, 0x23, 0x3C, 0x3E, 0x3F, 0x5E, 0x60, 0x7B, 0x7D}
  }

  /** One code unit that is not half of a pair; a lone surrogate is replaced. */
  function EncodeUnit(u: CodeUnit): Text {
    if IsSurrogate(u) then Uri.PercentBytes(Uri.Utf8(0xFFFD))
    else if InPathSet(u) then Uri.PercentBytes(Uri.Utf8(u))
    else [u]
  }

  /** What the parser makes of the characters of a segment. */
  function EncodeSegment(t: Text): Text {
    if t == [] then []
    else if StartsWithPair(t) then Uri.PercentBytes(Uri.Utf8(Uri.PairCodePoint(t[0], t[1]))) + EncodeSegment(t[2..])
    else EncodeUnit(t[0]) + EncodeSegment(t[1..])
  }

  function EncodeAll(segments: seq<Text>): (texts: seq<Text>)
    ensures |texts| == |segments|
    ensures forall i :: 0 <= i < |texts| ==> texts[i] == EncodeSegment(segments[i])
  {
    seq(|segments|, i requires 0 <= i < |segments| => EncodeSegment(segments[i]))
  }

  /** Control characters and spaces at the end of a URL are dropped before anything else. */
  function TrimEnd(t: Text): (r: Text)
    ensures r <= t
    ensures t != [] && t[0] > 0x20 ==> r != []
  {
    if t != [] && t[|t| - 1] <= 0x20 then TrimEnd(t[..|t| - 1]) else t
  }

  /** `URL.pathname` of what follows the origin. */
  function Pathname(path: Text): Text
    requires path != [] && path[0] == SLASH
  {
    Slashed(EncodeAll(LastSegment(Run(START, TrimEnd(path)[1..]))))
  }

  // ---- The path state over a template ----

  /** The path state of a template, with its parameters left in place. */
  datatype Shape = Shape(stack: seq<seq<Token>>, buffer: seq<Token>, ended: bool)

  const BLANK := Shape([], [], false)

  predicate LiteralOnly(ts: seq<Token>) {
    forall i :: 0 <= i < |ts| ==> ts[i].Literal?
  }

  /** Only literals make a dot segment. */
  predicate IsDots(segment: seq<Token>, n: nat) {
    LiteralOnly(segment) && DotCount(Source(segment)) == Some(n)
  }

  function ShapeClose(s: Shape): seq<seq<Token>> {
    if IsDots(s.buffer, 2) then Shorten(s.stack)
    else if IsDots(s.buffer, 1) then s.stack
    else s.stack + [s.buffer]
  }

  function ShapeLast(s: Shape): seq<seq<Token>> {
    if IsDots(s.buffer, 2) then Shorten(s.stack) + [[]]
    else if IsDots(s.buffer, 1) then s.stack + [[]]
    else s.stack + [s.buffer]
  }

  function ShapeStep(s: Shape, t: Token): Shape {
    if s.ended then s
    else
      match t
      case Parameter(_) => s.(buffer := s.buffer + [t])
      case Literal(u) =>
        if IsDropped(u) then s
        else if EndsPath(u) then s.(ended := true)
        else if IsSeparator(u) then Shape(ShapeClose(s), [], false)
        else s.(buffer := s.buffer + [t])
  }

  function ShapeRun(s: Shape, ts: seq<Token>): Shape
    decreases |ts|
  {
    if ts == [] then s else ShapeRun(ShapeStep(s, ts[0]), ts[1..])
  }

  function Literals(t: Text): (ts: seq<Token>)
    ensures |ts| == |t| && forall i :: 0 <= i < |t| ==> ts[i] == PathTemplate.Literal(t[i])
  {
    seq(|t|, i requires 0 <= i < |t| => PathTemplate.Literal(t[i]))
  }

  predicate PairAhead(ts: seq<Token>) {
    |ts| >= 2 && ts[0].Literal? && ts[1].Literal? && IsHighSurrogate(ts[0].unit) && IsLowSurrogate(ts[1].unit)
  }

  /** The code of the first token, or of the pair the first two are. */
  function FirstCode(ts: seq<Token>): seq<Token>
    requires ts != []
  {
    if PairAhead(ts) then Literals(Uri.PercentBytes(Uri.Utf8(Uri.PairCodePoint(ts[0].unit, ts[1].unit))))
    else if ts[0].Parameter? then [ts[0]]
    else Literals(EncodeUnit(ts[0].unit))
  }

  /** A segment with its literals encoded. */
  function EncodeTokens(ts: seq<Token>): seq<Token> {
    if ts == [] then [] else FirstCode(ts) + EncodeTokens(ts[if PairAhead(ts) then 2 else 1..])
  }

  function EncodeShapes(segments: seq<seq<Token>>): (r: seq<seq<Token>>)
    ensures |r| == |segments|
    ensures forall i :: 0 <= i < |r| ==> r[i] == EncodeTokens(segments[i])
  {
    seq(|segments|, i requires 0 <= i < |segments| => EncodeTokens(segments[i]))
  }

  predicate Blank(t: Token) {
    t.Literal? && t.unit <= 0x20
  }

  function TrimTokens(ts: seq<Token>): (r: seq<Token>)
    ensures r <= ts
    ensures ts != [] && !Blank(ts[0]) ==> r != [] && r[0] == ts[0]
  {
    if ts != [] && Blank(ts[|ts| - 1]) then TrimTokens(ts[..|ts| - 1]) else ts
  }

  /** The resolved segments of a path template, before any value is known. */
  function Segments(ts: seq<Token>): seq<seq<Token>>
    requires ts != [] && !Blank(ts[0])
  {
    EncodeShapes(ShapeLast(ShapeRun(BLANK, TrimTokens(ts)[1..])))
  }

  /** The resolved segments of its literal prefix. */
  function PrefixSegments(ts: seq<Token>): seq<seq<Token>>
    requires ts != [] && ts[0] == Literal(SLASH)
  {
    Segments(ts[..FirstParameter(ts)])
  }

  /** One or two dots once the escape that is cut off at the end is completed. */
  predicate Completable(t: Text, dots: nat) {
    if t == [] then false
    else if t == [PERCENT] || t == [PERCENT, 0x32] then dots <= 1
    else DotLength(t) > 0 && Completable(t[DotLength(t)..], dots + 1)
  }

  /** No value can complete a literal escape into a dot segment. */
  predicate EscapesComplete(s: Shape, ts: seq<Token>)
    decreases |ts|
  {
    ts != [] ==>
      && (ts[0].Parameter? && !s.ended && LiteralOnly(s.buffer) ==> !Completable(Source(s.buffer), 0))
      && EscapesComplete(ShapeStep(s, ts[0]), ts[1..])
  }

  /** Path `p` leads path `s`, segment by segment. */
  predicate Leads<T(==)>(p: seq<seq<T>>, s: seq<seq<T>>) {
    && 1 <= |p| <= |s|
    && p[..|p| - 1] == s[..|p| - 1]
    && p[|p| - 1] <= s[|p| - 1]
  }

  /** The template itself, read as a path, stays under its own prefix. */
  predicate Under(ts: seq<Token>)
    requires ts != [] && ts[0] == Literal(SLASH)
  {
    Leads(PrefixSegments(ts), Segments(ts))
  }

  function FirstParameter(ts: seq<Token>): (n: nat)
    ensures n <= |ts|
    ensures forall i :: 0 <= i < n ==> ts[i].Literal?
    ensures n < |ts| ==> ts[n].Parameter?
  {
    if ts == [] || ts[0].Parameter? then 0 else 1 + FirstParameter(ts[1..])
  }

  // ---- Dots and closed text ----

  predicate IsHex(u: CodeUnit) {
    0x30 <= u <= 0x39 || 0x41 <= u <= 0x46 || 0x61 <= u <= 0x66
  }

  /** Every `%` starts a complete escape. */
  predicate Closed(t: Text) {
    t != [] ==>
      if t[0] == PERCENT then |t| >= 3 && IsHex(t[1]) && IsHex(t[2]) && Closed(t[3..]) else Closed(t[1..])
  }

  function Sum(a: Option<nat>, b: Option<nat>): Option<nat> {
    if a.None? || b.None? then None else Some(a.value + b.value)
  }

  /** What follows closed text leaves its dots alone. */
  lemma ClosedDot(a: Text, b: Text)
    requires Closed(a) && a != []
    ensures DotLength(a + b) == DotLength(a) && Closed(a[DotLength(a)..])
  {
  }

  lemma {:induction false} DotsAdd(a: Text, b: Text)
    requires Closed(a)
    ensures DotCount(a + b) == Sum(DotCount(a), DotCount(b))
  {
    hide DotLength, Closed;
    if a == [] {
      assert a + b == b;
    } else {
      ClosedDot(a, b);
      var n := DotLength(a);
      if n > 0 {
        assert (a + b)[n..] == a[n..] + b;
        DotsAdd(a[n..], b);
      }
    }
  }

  lemma {:induction false} ClosedConcat(a: Text, b: Text)
    requires Closed(a) && Closed(b)
    ensures Closed(a + b)
  {
    if a == [] {
      assert a + b == b;
    } else if a[0] == PERCENT {
      assert (a + b)[3..] == a[3..] + b;
      ClosedConcat(a[3..], b);
    } else {
      assert (a + b)[1..] == a[1..] + b;
      ClosedConcat(a[1..], b);
    }
  }

  /** Text that stays inside one segment. */
  ghost predicate InSegment(t: Text) {
    forall i :: 0 <= i < |t| ==> !IsSeparator(t[i]) && !EndsPath(t[i]) && !IsDropped(t[i])
  }

  ghost predicate AllDots(t: Text) {
    forall i :: 0 <= i < |t| ==> t[i] == DOT_UNIT
  }

  lemma PercentByteShape(b: Uri.Byte)
    ensures var t := Uri.PercentByte(b);
            Closed(t) && InSegment(t) && (b != DOT_UNIT ==> DotCount(t).None?)
  {
    var t := Uri.PercentByte(b);
    assert t[3..] == [];
  }

  lemma {:induction false} PercentBytesShape(bs: seq<Uri.Byte>)
    ensures var t := Uri.PercentBytes(bs);
            Closed(t) && InSegment(t) && (bs != [] && bs[0] != DOT_UNIT ==> DotCount(t).None?)
  {
    hide Uri.PercentByte, DotCount;
    if bs != [] {
      PercentByteShape(bs[0]);
      PercentBytesShape(bs[1..]);
      ClosedConcat(Uri.PercentByte(bs[0]), Uri.PercentBytes(bs[1..]));
      DotsAdd(Uri.PercentByte(bs[0]), Uri.PercentBytes(bs[1..]));
    }
  }

  lemma EscapedShape(c: Uri.CodePoint)
    ensures var t := Uri.PercentBytes(Uri.Utf8(c));
            Closed(t) && InSegment(t) && (c != DOT_UNIT ==> DotCount(t).None?)
  {
    hide DotCount, Uri.PercentBytes;
    PercentBytesShape(Uri.Utf8(c));
  }

  lemma UnescapedShape(u: CodeUnit)
    requires Uri.Unescaped(u)
    ensures Closed([u]) && InSegment([u]) && DotCount([u]) == if u == DOT_UNIT then Some(1) else None
  {
    assert [u][1..] == [];
  }

  /** An encoded value stays in its segment and is all dots only where the value is. */
  lemma {:induction false} EncodedShape(t: Text)
    requires Uri.Encode(t).Some?
    ensures var e := Uri.Encode(t).value;
            Closed(e) && InSegment(e) && (DotCount(e).Some? ==> |t| == DotCount(e).value && AllDots(t))
  {
    hide DotCount, Uri.PercentBytes, Uri.Utf8, Closed;
    if t == [] {
      assert Closed([]) && DotCount([]) == Some(0) by { EmptyShape(); }
    } else if StartsWithPair(t) {
      EncodedShape(t[2..]);
      var c := Uri.PairCodePoint(t[0], t[1]);
      EscapedShape(c);
      Prepend(Uri.PercentBytes(Uri.Utf8(c)), Uri.Encode(t[2..]).value);
    } else {
      EncodedShape(t[1..]);
      var piece := if Uri.Unescaped(t[0]) then [t[0]] else Uri.PercentBytes(Uri.Utf8(t[0]));
      if Uri.Unescaped(t[0]) { UnescapedShape(t[0]); } else { EscapedShape(t[0]); }
      Prepend(piece, Uri.Encode(t[1..]).value);
    }
  }

  lemma EmptyShape()
    ensures Closed([]) && DotCount([]) == Some(0)
  {
  }

  lemma Prepend(a: Text, b: Text)
    requires Closed(a) && Closed(b) && InSegment(a) && InSegment(b)
    ensures Closed(a + b) && InSegment(a + b) && DotCount(a + b) == Sum(DotCount(a), DotCount(b))
  {
    hide Closed, DotCount;
    ClosedConcat(a, b);
    DotsAdd(a, b);
  }

  // ---- Running the path state over a filled template ----

  lemma {:induction false} RunConcat(s: State, a: Text, b: Text)
    ensures Run(s, a + b) == Run(Run(s, a), b)
    decreases |a|
  {
    hide Step;
    if a == [] {
      assert a + b == b;
    } else {
      assert (a + b)[0] == a[0] && (a + b)[1..] == a[1..] + b;
      RunConcat(Step(s, a[0]), a[1..], b);
    }
  }

  lemma {:induction false} RunInSegment(s: State, t: Text)
    requires !s.ended && InSegment(t)
    ensures Run(s, t) == s.(buffer := s.buffer + t)
    decreases |t|
  {
    if t == [] {
      assert s.buffer + t == s.buffer;
    } else {
      RunInSegment(Step(s, t[0]), t[1..]);
      assert s.buffer + [t[0]] + t[1..] == s.buffer + t;
    }
  }

  lemma {:induction false} RunEnded(s: State, t: Text)
    requires s.ended
    ensures Run(s, t) == s
    decreases |t|
  {
    if t != [] { RunEnded(s, t[1..]); }
  }

  /** A text no continuation can turn into a dot segment. */
  ghost predicate Firm(t: Text) {
    forall more: Text :: Dotless(t + more)
  }

  ghost predicate Dotless(t: Text) {
    DotCount(t).None? || DotCount(t).value >= 3
  }

  lemma FirmGrows(a: Text, b: Text)
    requires Firm(a)
    ensures Firm(a + b) && Dotless(a)
  {
    hide Dotless;
    forall more: Text ensures Dotless(a + b + more) {
      assert a + b + more == a + (b + more);
    }
    assert a + [] == a;
  }

  /** More text changes no dot the literal starts with, unless it ends inside one. */
  lemma LiteralDot(literal: Text, more: Text)
    requires literal != [] && literal != [PERCENT] && literal != [PERCENT, 0x32]
    ensures DotLength(literal + more) == DotLength(literal)
  {
  }

  /** After literals that no value completes into dots, a value leaves no dot segment. */
  lemma {:induction false} ValueBreaksDots(literal: Text, dots: nat, raw: Text, more: Text)
    requires !Completable(literal, dots) && Uri.Encode(raw).Some? && !IsTraversal(raw)
    ensures var n := DotCount(literal + Uri.Encode(raw).value + more);
            n.None? || dots + n.value >= 3
    decreases |literal|
  {
    hide Uri.Encode, IsTraversal, AllDots, Closed, DotLength;
    var e := Uri.Encode(raw).value;
    var t := literal + e + more;
    if literal == [] {
      assert t == e + more;
      EncodedShape(raw);
      ShortDots(raw);
      DotsAdd(e, more);
    } else if literal != [PERCENT] && literal != [PERCENT, 0x32] {
      assert t == literal + (e + more);
      LiteralDot(literal, e + more);
      var n := DotLength(literal);
      if n > 0 {
        assert t[n..] == literal[n..] + e + more;
        ValueBreaksDots(literal[n..], dots + 1, raw, more);
      }
    }
  }

  lemma ShortDots(raw: Text)
    ensures AllDots(raw) && |raw| < 3 ==> IsTraversal(raw)
  {
  }

  ghost predicate AllFilled(ts: seq<Token>, input: Members) {
    forall i :: 0 <= i < |ts| && ts[i].Parameter? ==> Fills(ts[i].name, input)
  }

  ghost predicate Fills(name: Text, input: Members) {
    && name in input
    && !IsTraversal(JsonText.StringifyPrimitive(input[name]))
    && Uri.Encode(JsonText.StringifyPrimitive(input[name])).Some?
  }

  /** What is known of a filled segment before it is closed. */
  ghost predicate Tracks(buffer: seq<Token>, input: Members) {
    if LiteralOnly(buffer) then Expand(buffer, input) == Source(buffer) else Firm(Expand(buffer, input))
  }

  function FillAll(segments: seq<seq<Token>>, input: Members): (texts: seq<Text>)
    ensures |texts| == |segments|
    ensures forall i :: 0 <= i < |texts| ==> texts[i] == Expand(segments[i], input)
  {
    seq(|segments|, i requires 0 <= i < |segments| => Expand(segments[i], input))
  }

  function FillState(s: Shape, input: Members): State {
    State(FillAll(s.stack, input), Expand(s.buffer, input), s.ended)
  }

  lemma ExpandNone(input: Members)
    ensures Expand([], input) == [] && Source([]) == []
  {
  }

  lemma ExpandOne(t: Token, input: Members)
    ensures Expand([t], input) == Piece(t, input)
  {
    assert [t][1..] == [];
    ExpandNone(input);
  }

  lemma TrackedDots(buffer: seq<Token>, input: Members, n: nat)
    requires Tracks(buffer, input) && n < 3
    ensures DotCount(Expand(buffer, input)) == Some(n) <==> IsDots(buffer, n)
  {
    hide DotCount;
    if !LiteralOnly(buffer) { FirmGrows(Expand(buffer, input), []); }
  }

  /** Closing a segment does the same before and after filling. */
  lemma ClosingSimulates(s: Shape, input: Members)
    requires Tracks(s.buffer, input)
    ensures CloseSegment(FillState(s, input)) == FillAll(ShapeClose(s), input)
    ensures LastSegment(FillState(s, input)) == FillAll(ShapeLast(s), input)
  {
    hide DotCount, Expand, Tracks, IsDots;
    TrackedDots(s.buffer, input, 1);
    TrackedDots(s.buffer, input, 2);
    ExpandNone(input);
  }

  lemma StepSimulates(s: Shape, t: Token, input: Members)
    requires Tracks(s.buffer, input) && (t.Parameter? ==> Fills(t.name, input))
    requires t.Parameter? && !s.ended && LiteralOnly(s.buffer) ==> !Completable(Source(s.buffer), 0)
    ensures Run(FillState(s, input), Piece(t, input)) == FillState(ShapeStep(s, t), input)
    ensures Tracks(ShapeStep(s, t).buffer, input)
  {
    hide DotCount, Fills, Completable, Run, CloseSegment, ShapeClose, Firm, Expand, Source, Piece;
    var f := FillState(s, input);
    if s.ended {
      RunEnded(f, Piece(t, input));
    } else {
      ExpandConcat(s.buffer, [t], input);
      ExpandOne(t, input);
      if t.Parameter? {
        ParameterTracks(s.buffer, t.name, input);
        RunInSegment(f, Piece(t, input));
      } else {
        assert Piece(t, input) == [t.unit] by { LiteralPiece(t, input); }
        RunOne(f, t.unit);
        StepMeans(f, t.unit);
        ClosingSimulates(s, input);
        ExpandNone(input);
        LiteralTracks(s.buffer, t, input);
      }
    }
  }

  lemma LiteralPiece(t: Token, input: Members)
    requires t.Literal?
    ensures Piece(t, input) == [t.unit]
  {
  }

  lemma LiteralTracks(buffer: seq<Token>, t: Token, input: Members)
    requires Tracks(buffer, input) && t.Literal?
    ensures Tracks(buffer + [t], input)
  {
    hide Firm;
    if LiteralOnly(buffer) {
      LiteralsExpandToSource(buffer + [t], input);
    } else {
      ExpandConcat(buffer, [t], input);
      FirmGrows(Expand(buffer, input), Expand([t], input));
      var i :| 0 <= i < |buffer| && !buffer[i].Literal?;
      assert (buffer + [t])[i] == buffer[i];
    }
  }

  lemma ParameterTracks(buffer: seq<Token>, name: Text, input: Members)
    requires Tracks(buffer, input) && Fills(name, input)
    requires LiteralOnly(buffer) ==> !Completable(Source(buffer), 0)
    ensures InSegment(Piece(Parameter(name), input)) && Tracks(buffer + [Parameter(name)], input)
  {
    hide Firm, Completable, IsTraversal, Uri.Encode, Expand, Source, JsonText.StringifyPrimitive;
    var t := Parameter(name);
    var raw := JsonText.StringifyPrimitive(input[name]);
    var e := Uri.Encode(raw).value;
    EncodedShape(raw);
    ExpandConcat(buffer, [t], input);
    ExpandOne(t, input);
    assert !LiteralOnly(buffer + [t]) by { assert (buffer + [t])[|buffer|] == t; }
    if LiteralOnly(buffer) {
      assert Firm(Source(buffer) + e) by { ValueIsFirm(Source(buffer), raw); }
    } else {
      FirmGrows(Expand(buffer, input), e);
    }
  }

  lemma ValueIsFirm(literal: Text, raw: Text)
    requires !Completable(literal, 0) && Uri.Encode(raw).Some? && !IsTraversal(raw)
    ensures Firm(literal + Uri.Encode(raw).value)
  {
    hide Completable, IsTraversal, Uri.Encode, DotCount;
    forall more: Text ensures Dotless(literal + Uri.Encode(raw).value + more) {
      ValueBreaksDots(literal, 0, raw, more);
    }
  }

  /** Filling and then resolving is resolving and then filling. */
  lemma {:induction false} RunSimulates(s: Shape, ts: seq<Token>, input: Members)
    requires Tracks(s.buffer, input) && AllFilled(ts, input) && EscapesComplete(s, ts)
    ensures Run(FillState(s, input), Expand(ts, input)) == FillState(ShapeRun(s, ts), input)
    ensures Tracks(ShapeRun(s, ts).buffer, input)
    decreases |ts|
  {
    hide Fills, Completable, Tracks, ShapeStep, FillState, Run, Piece, Source;
    if ts == [] {
      RunNothing(FillState(s, input));
    } else {
      StepSimulates(s, ts[0], input);
      RunConcat(FillState(s, input), Piece(ts[0], input), Expand(ts[1..], input));
      RunSimulates(ShapeStep(s, ts[0]), ts[1..], input);
    }
  }

  lemma RunNothing(s: State)
    ensures Run(s, []) == s
  {
  }

  lemma RunOne(s: State, u: CodeUnit)
    ensures Run(s, [u]) == Step(s, u)
  {
    assert [u][1..] == [];
  }

  lemma StepMeans(s: State, u: CodeUnit)
    requires !s.ended
    ensures Step(s, u) ==
            if IsDropped(u) then s
            else if EndsPath(u) then s.(ended := true)
            else if IsSeparator(u) then State(CloseSegment(s), [], false)
            else s.(buffer := s.buffer + [u])
  {
  }

  // ---- Encoding and trimming, before and after filling ----

  /** Text the parser leaves as it is. */
  ghost predicate Plain(t: Text) {
    forall i :: 0 <= i < |t| ==> !InPathSet(t[i])
  }

  lemma EscapesArePlain(bs: seq<Uri.Byte>)
    ensures Plain(Uri.PercentBytes(bs))
  {
    if bs != [] {
      EscapesArePlain(bs[1..]);
      assert Plain(Uri.PercentByte(bs[0]));
    }
  }

  /** An encoded value is text the parser leaves alone, and there is some. */
  lemma {:induction false} ValueIsPlain(raw: Text)
    requires Uri.Encode(raw).Some?
    ensures Plain(Uri.Encode(raw).value) && (raw != [] ==> Uri.Encode(raw).value != [])
  {
    hide Uri.PercentBytes, Uri.Utf8;
    if raw != [] {
      if StartsWithPair(raw) {
        ValueIsPlain(raw[2..]);
        EscapesArePlain(Uri.Utf8(Uri.PairCodePoint(raw[0], raw[1])));
        EscapeIsSomething(Uri.PairCodePoint(raw[0], raw[1]));
      } else {
        ValueIsPlain(raw[1..]);
        if !Uri.Unescaped(raw[0]) {
          EscapesArePlain(Uri.Utf8(raw[0]));
          EscapeIsSomething(raw[0]);
        }
      }
    }
  }

  lemma EscapeIsSomething(c: Uri.CodePoint)
    ensures Uri.PercentBytes(Uri.Utf8(c)) != []
  {
    hide Uri.Utf8;
  }

  lemma FilledIsPlain(name: Text, input: Members)
    requires Fills(name, input)
    ensures var e := Piece(Parameter(name), input); Plain(e) && e != []
  {
    hide Uri.Encode, JsonText.StringifyPrimitive;
    ValueIsPlain(JsonText.StringifyPrimitive(input[name]));
  }

  lemma {:induction false} PlainPasses(e: Text, more: Text)
    requires Plain(e)
    ensures EncodeSegment(e + more) == e + EncodeSegment(more)
  {
    hide EncodeSegment, InPathSet;
    if e == [] {
      assert e + more == more;
    } else {
      var t := e + more;
      assert t[0] == e[0] && t[1..] == e[1..] + more;
      assert EncodeSegment(t) == [e[0]] + EncodeSegment(t[1..]) by { PlainUnitPasses(t); }
      PlainPasses(e[1..], more);
      assert [e[0]] + (e[1..] + EncodeSegment(more)) == e + EncodeSegment(more);
    }
  }

  lemma PlainUnitPasses(t: Text)
    requires t != [] && !InPathSet(t[0])
    ensures EncodeSegment(t) == [t[0]] + EncodeSegment(t[1..])
  {
    hide Uri.PercentBytes, Uri.Utf8, Uri.PairCodePoint;
  }

  lemma {:induction false} LiteralsExpand(t: Text, more: seq<Token>, input: Members)
    ensures Expand(Literals(t) + more, input) == t + Expand(more, input)
  {
    ExpandConcat(Literals(t), more, input);
    LiteralsExpandToSource(Literals(t), input);
    SourceUnits(Literals(t));
    assert Source(Literals(t)) == t;
  }

  /** Encoding a filled segment is filling the encoded one. */
  lemma {:induction false} EncodingSimulates(ts: seq<Token>, input: Members)
    requires AllFilled(ts, input)
    ensures EncodeSegment(Expand(ts, input)) == Expand(EncodeTokens(ts), input)
    decreases |ts|
  {
    hide Fills, EncodeUnit, Uri.PercentBytes, Uri.Utf8, Piece;
    if ts == [] {
      ExpandNone(input);
    } else {
      var t := Expand(ts, input);
      ExpandCons(ts, input);
      TailIsFilled(ts, input, 1);
      if PairAhead(ts) {
        TailIsFilled(ts, input, 2);
        PairExpands(ts, input);
        EncodingSimulates(ts[2..], input);
        LiteralsExpand(Uri.PercentBytes(Uri.Utf8(Uri.PairCodePoint(ts[0].unit, ts[1].unit))), EncodeTokens(ts[2..]), input);
      } else if ts[0].Parameter? {
        assert Fills(ts[0].name, input);
        FilledIsPlain(ts[0].name, input);
        PlainPasses(Piece(ts[0], input), Expand(ts[1..], input));
        EncodingSimulates(ts[1..], input);
        ExpandCons([ts[0]] + EncodeTokens(ts[1..]), input);
        assert ([ts[0]] + EncodeTokens(ts[1..]))[1..] == EncodeTokens(ts[1..]);
      } else {
        LiteralPiece(ts[0], input);
        NoPairAhead(ts, input);
        assert t[1..] == Expand(ts[1..], input);
        EncodingSimulates(ts[1..], input);
        LiteralsExpand(EncodeUnit(ts[0].unit), EncodeTokens(ts[1..]), input);
      }
    }
  }

  lemma TailIsFilled(ts: seq<Token>, input: Members, n: nat)
    requires AllFilled(ts, input) && n <= |ts|
    ensures AllFilled(ts[n..], input)
  {
    hide Fills;
    assert forall i :: 0 <= i < |ts[n..]| ==> ts[n..][i] == ts[i + n];
  }

  lemma PairExpands(ts: seq<Token>, input: Members)
    requires PairAhead(ts)
    ensures var t := Expand(ts, input);
            StartsWithPair(t) && t[0] == ts[0].unit && t[1] == ts[1].unit && t[2..] == Expand(ts[2..], input)
  {
    assert ts[1..][1..] == ts[2..];
    ExpandCons(ts, input);
    ExpandCons(ts[1..], input);
  }

  /** Where the tokens start no pair, neither does the filled text: a value never supplies half of one. */
  lemma NoPairAhead(ts: seq<Token>, input: Members)
    requires ts != [] && ts[0].Literal? && !PairAhead(ts) && AllFilled(ts, input)
    ensures Expand(ts, input) != [] && Expand(ts, input)[0] == ts[0].unit && !StartsWithPair(Expand(ts, input))
  {
    hide Fills;
    var rest := ts[1..];
    ExpandCons(ts, input);
    LiteralPiece(ts[0], input);
    if rest == [] {
      ExpandNone(input);
    } else {
      ExpandCons(rest, input);
      if rest[0].Parameter? {
        assert rest[0] == ts[1] && Fills(ts[1].name, input);
        FilledIsPlain(rest[0].name, input);
        assert Expand(rest, input)[0] == Piece(rest[0], input)[0];
        assert Expand(ts, input)[1] == Expand(rest, input)[0];
        assert !InPathSet(Expand(ts, input)[1]);
      } else {
        LiteralPiece(rest[0], input);
        assert Expand(ts, input)[1] == ts[1].unit;
      }
    }
  }

  /** Trimming a filled template is filling the trimmed one. */
  lemma {:induction false} TrimmingSimulates(ts: seq<Token>, input: Members)
    requires AllFilled(ts, input)
    ensures TrimEnd(Expand(ts, input)) == Expand(TrimTokens(ts), input)
    decreases |ts|
  {
    hide Fills, Expand;
    if ts == [] {
      ExpandNone(input);
    } else {
      var init, last := ts[..|ts| - 1], ts[|ts| - 1];
      assert ts == init + [last];
      ExpandConcat(init, [last], input);
      ExpandOne(last, input);
      var t := Expand(ts, input);
      if last.Literal? {
        LiteralPiece(last, input);
        assert t[..|t| - 1] == Expand(init, input) && t[|t| - 1] == last.unit;
        if Blank(last) {
          assert forall i :: 0 <= i < |init| ==> init[i] == ts[i];
          TrimmingSimulates(init, input);
        }
      } else {
        assert Fills(last.name, input);
        FilledIsPlain(last.name, input);
        var e := Piece(last, input);
        assert t[|t| - 1] == e[|e| - 1];
        assert !InPathSet(e[|e| - 1]);
      }
    }
  }

  /**
   * The segments of a filled path are the template's own, filled: a value adds
   * no segment, removes none and becomes none.
   */
  lemma FillingKeepsSegments(ts: seq<Token>, input: Members)
    requires ts != [] && ts[0] == Literal(SLASH)
    requires EscapesComplete(BLANK, ts[1..]) && AllFilled(ts, input)
    ensures var filled := Expand(ts, input);
            && filled != [] && filled[0] == SLASH
            && Pathname(filled) == Slashed(FillAll(Segments(ts), input))
            && SlashFree(FillAll(Segments(ts), input))
  {
    hide Fills, EscapesComplete, ShapeRun, ShapeLast, LastSegment, Run, Slashed, Expand, Firm, Tracks, EncodeTokens, EncodeSegment, TrimEnd, TrimTokens;
    var tt := TrimTokens(ts);
    var filled := Expand(ts, input);
    ExpandCons(ts, input);
    assert Piece(ts[0], input) == [SLASH];
    TrimmingSimulates(ts, input);
    TrimmedIsFilled(ts, input);
    ExpandCons(tt, input);
    assert TrimEnd(filled)[1..] == Expand(tt[1..], input);
    TailIsFilled(tt, input, 1);
    TrimmedCompletes(ts);
    assert Tracks([], input) by { NothingTracks(input); }
    RunSimulates(BLANK, tt[1..], input);
    ExpandNone(input);
    assert FillState(BLANK, input) == START;
    ClosingSimulates(ShapeRun(BLANK, tt[1..]), input);
    var raw := ShapeLast(ShapeRun(BLANK, tt[1..]));
    assert LastSegment(Run(START, TrimEnd(filled)[1..])) == FillAll(raw, input);
    RawIsFilled(tt, ts, input);
    assert EncodeAll(FillAll(raw, input)) == FillAll(EncodeShapes(raw), input) by {
      forall i | 0 <= i < |raw| ensures EncodeSegment(Expand(raw[i], input)) == Expand(EncodeTokens(raw[i]), input) {
        EncodingSimulates(raw[i], input);
      }
    }
    ResolvedIsSlashFree(filled);
  }

  lemma TrimmedIsFilled(ts: seq<Token>, input: Members)
    requires AllFilled(ts, input)
    ensures AllFilled(TrimTokens(ts), input)
  {
    hide Fills;
    assert forall i :: 0 <= i < |TrimTokens(ts)| ==> TrimTokens(ts)[i] == ts[i];
  }

  /** The parameters of the resolved segments are the template's. */
  lemma RawIsFilled(tt: seq<Token>, ts: seq<Token>, input: Members)
    requires tt != [] && tt <= ts && AllFilled(ts, input)
    ensures var raw := ShapeLast(ShapeRun(BLANK, tt[1..]));
            forall i :: 0 <= i < |raw| ==> AllFilled(raw[i], input)
  {
    hide Fills, ShapeRun, IsDots;
    assert forall i :: 0 <= i < |tt[1..]| ==> tt[1..][i] == ts[i + 1];
    RunKeepsTokens(BLANK, tt[1..], ts);
    var raw := ShapeLast(ShapeRun(BLANK, tt[1..]));
    forall i | 0 <= i < |raw| ensures AllFilled(raw[i], input) {
      assert TokensFrom(raw[i], ts);
    }
  }

  lemma {:induction false} PrefixCompletes(s: Shape, a: seq<Token>, b: seq<Token>)
    requires EscapesComplete(s, a + b)
    ensures EscapesComplete(s, a)
    decreases |a|
  {
    hide ShapeStep, Completable;
    if a != [] {
      assert (a + b)[1..] == a[1..] + b && (a + b)[0] == a[0];
      PrefixCompletes(ShapeStep(s, a[0]), a[1..], b);
    }
  }

  lemma TrimmedCompletes(ts: seq<Token>)
    requires ts != [] && !Blank(ts[0]) && EscapesComplete(BLANK, ts[1..])
    ensures EscapesComplete(BLANK, TrimTokens(ts)[1..])
  {
    hide EscapesComplete;
    var tt := TrimTokens(ts);
    assert ts[1..] == tt[1..] + ts[|tt|..];
    PrefixCompletes(BLANK, tt[1..], ts[|tt|..]);
  }

  lemma NothingTracks(input: Members)
    ensures Tracks([], input)
  {
    ExpandNone(input);
  }

  // ---- The containment check ----

  predicate SlashFree(segments: seq<Text>) {
    forall i :: 0 <= i < |segments| ==> SLASH !in segments[i]
  }

  lemma {:induction false} SlashedLeads(p: seq<Text>, s: seq<Text>)
    requires p != [] && SlashFree(p) && SlashFree(s)
    ensures Slashed(p) <= Slashed(s) <==> Leads(p, s)
  {
    hide Slashed, Leads;
    SlashedStarts(p[1..]);
    SlashedStarts(s);
    SlashedCons(p);
    if s == [] {
      assert !Leads(p, s) by { LeadsNothing(p); }
    } else {
      SlashedCons(s);
      SlashedStarts(s[1..]);
      var a, b := Slashed(p[1..]), Slashed(s[1..]);
      assert Slashed(p) <= Slashed(s) <==> p[0] + a <= s[0] + b by { AfterSlash(p[0] + a, s[0] + b); }
      LeadsCons(p, s);
      if |p| == 1 {
        assert p[0] + a == p[0];
        FirstLeads(p[0], s[0], b);
      } else {
        SlashedLeads(p[1..], s[1..]);
        FirstMatches(p[0], a, s[0], b);
      }
    }
  }

  lemma SlashedCons(segments: seq<Text>)
    requires segments != []
    ensures Slashed(segments) == [SLASH] + (segments[0] + Slashed(segments[1..]))
  {
  }

  lemma SlashedStarts(segments: seq<Text>)
    ensures if segments == [] then Slashed(segments) == [] else Slashed(segments) != [] && Slashed(segments)[0] == SLASH
  {
  }

  lemma AfterSlash(a: Text, b: Text)
    ensures [SLASH] + a <= [SLASH] + b <==> a <= b
  {
    if a <= b {
      assert ([SLASH] + b)[..|a| + 1] == [SLASH] + b[..|a|];
    }
    if [SLASH] + a <= [SLASH] + b {
      assert ([SLASH] + a)[1..] == a && ([SLASH] + b)[1..] == b;
      assert forall i :: 0 <= i < |a| ==> a[i] == ([SLASH] + a)[i + 1] == ([SLASH] + b)[i + 1] == b[i];
    }
  }

  lemma LeadsAt(p: seq<Text>, s: seq<Text>, i: nat)
    requires i < |p|
    ensures Leads(p, s) ==> i < |s| && if i < |p| - 1 then p[i] == s[i] else p[i] <= s[i]
  {
    if Leads(p, s) && i < |p| - 1 {
      assert p[..|p| - 1][i] == s[..|p| - 1][i];
    }
  }

  lemma LeadsNothing(p: seq<Text>)
    ensures !Leads(p, [])
  {
  }

  lemma LeadsCons(p: seq<Text>, s: seq<Text>)
    requires p != [] && s != []
    ensures Leads(p, s) <==> if |p| == 1 then p[0] <= s[0] else p[0] == s[0] && Leads(p[1..], s[1..])
  {
    if |p| > 1 && |p| <= |s| {
      var m := |p| - 1;
      assert p[..m] == [p[0]] + p[1..][..m - 1];
      assert s[..m] == [s[0]] + s[1..][..m - 1];
    }
  }

  lemma FirstLeads(x: Text, y: Text, b: Text)
    requires SLASH !in x && (b == [] || b[0] == SLASH)
    ensures x <= y + b <==> x <= y
  {
    var r := y + b;
    assert b != [] ==> r[|y|] == SLASH;
    assert forall i :: 0 <= i < |y| ==> r[i] == y[i];
    if x <= r {
      assert forall i :: 0 <= i < |x| ==> x[i] == r[i] && r[i] != SLASH;
      assert |x| <= |y|;
    }
  }

  lemma FirstMatches(x: Text, a: Text, y: Text, b: Text)
    requires SLASH !in x && SLASH !in y && a != [] && a[0] == SLASH && (b == [] || b[0] == SLASH)
    ensures x + a <= y + b <==> x == y && a <= b
  {
    var l, r := x + a, y + b;
    assert l[|x|] == SLASH && (b != [] ==> r[|y|] == SLASH);
    assert forall i :: 0 <= i < |x| ==> l[i] == x[i] && l[i] != SLASH;
    assert forall i :: 0 <= i < |y| ==> r[i] == y[i] && r[i] != SLASH;
    if l <= r {
      assert forall i :: 0 <= i < |l| ==> l[i] == r[i];
      assert |x| == |y|;
      assert forall i :: 0 <= i < |a| ==> a[i] == l[|x| + i] == r[|x| + i] == b[i];
    }
    if x == y && a <= b {
      assert forall i :: 0 <= i < |l| ==> l[i] == r[i];
    }
  }

  /** The path state never puts a separator inside a segment. */
  lemma {:induction false} RunIsSlashFree(s: State, t: Text)
    requires SlashFree(s.stack) && SLASH !in s.buffer
    ensures SlashFree(Run(s, t).stack) && SLASH !in Run(s, t).buffer
    decreases |t|
  {
    hide DotCount;
    if t != [] { RunIsSlashFree(Step(s, t[0]), t[1..]); }
  }

  lemma EncodedUnitIsSlashFree(u: CodeUnit)
    requires u != SLASH
    ensures SLASH !in EncodeUnit(u)
  {
    hide Uri.Utf8;
    EscapesAreSlashFree(Uri.Utf8(0xFFFD));
    if !IsSurrogate(u) { EscapesAreSlashFree(Uri.Utf8(u)); }
  }

  lemma {:induction false} EscapesAreSlashFree(bs: seq<Uri.Byte>)
    ensures SLASH !in Uri.PercentBytes(bs)
  {
    if bs != [] { EscapesAreSlashFree(bs[1..]); }
  }

  lemma {:induction false} EncodedIsSlashFree(t: Text)
    requires SLASH !in t
    ensures SLASH !in EncodeSegment(t)
  {
    hide EncodeUnit, Uri.PercentBytes, Uri.Utf8;
    if t != [] {
      assert t[0] in t && forall u :: u in t[1..] ==> u in t;
      if StartsWithPair(t) {
        assert forall u :: u in t[2..] ==> u in t;
        EscapesAreSlashFree(Uri.Utf8(Uri.PairCodePoint(t[0], t[1])));
        EncodedIsSlashFree(t[2..]);
      } else {
        EncodedUnitIsSlashFree(t[0]);
        EncodedIsSlashFree(t[1..]);
      }
    }
  }

  lemma ResolvedIsSlashFree(path: Text)
    requires path != [] && path[0] == SLASH
    ensures SlashFree(EncodeAll(LastSegment(Run(START, TrimEnd(path)[1..]))))
  {
    hide Run, DotCount, EncodeSegment, TrimEnd;
    RunIsSlashFree(START, TrimEnd(path)[1..]);
    var raw := LastSegment(Run(START, TrimEnd(path)[1..]));
    forall i | 0 <= i < |raw| ensures SLASH !in EncodeSegment(raw[i]) {
      EncodedIsSlashFree(raw[i]);
    }
  }

  lemma {:induction false} ExpandConcat(a: seq<Token>, b: seq<Token>, input: Members)
    ensures Expand(a + b, input) == Expand(a, input) + Expand(b, input)
  {
    hide Piece;
    if a == [] {
      assert a + b == b;
    } else {
      assert (a + b)[1..] == a[1..] + b;
      ExpandConcat(a[1..], b, input);
    }
  }

  lemma {:induction false} LiteralsExpandToSource(ts: seq<Token>, input: Members)
    requires forall i :: 0 <= i < |ts| ==> ts[i].Literal?
    ensures Expand(ts, input) == Source(ts)
    ensures |Source(ts)| == |ts|
    ensures ts != [] ==> Source(ts)[0] == ts[0].unit
  {
    if ts != [] { LiteralsExpandToSource(ts[1..], input); }
  }

  /** `url.split('{')[0]`. */
  function BeforeBrace(t: Text): Text {
    if t == [] || t[0] == OPEN then [] else [t[0]] + BeforeBrace(t[1..])
  }

  lemma {:induction false} PrefixIsLiteral(ts: seq<Token>)
    requires !HasStrayBrace(ts)
    ensures BeforeBrace(Source(ts)) == Source(ts[..FirstParameter(ts)])
  {
    if ts == [] {
    } else if ts[0].Parameter? {
      assert ts[..0] == [];
    } else {
      assert !IsBrace(ts[0].unit);
      forall i | 0 <= i < |ts[1..]| && ts[1..][i].Literal? ensures !IsBrace(ts[1..][i].unit) {
        assert ts[1..][i] == ts[i + 1];
      }
      PrefixIsLiteral(ts[1..]);
      assert Source(ts)[1..] == Source(ts[1..]);
      assert ts[..FirstParameter(ts)] == [ts[0]] + ts[1..][..FirstParameter(ts[1..])];
      SourceOfCons(ts[0], ts[1..][..FirstParameter(ts[1..])]);
    }
  }

  lemma {:induction false} BracelessPrefix(a: Text, b: Text)
    requires Braceless(a)
    ensures BeforeBrace(a + b) == a + BeforeBrace(b)
  {
    if a == [] {
      assert a + b == b;
    } else {
      assert (a + b)[1..] == a[1..] + b;
      BracelessPrefix(a[1..], b);
    }
  }

  /** What a built path was filled with. */
  lemma BuiltMeansFilled(template: Text, input: Members)
    requires Apply(template, input).Built?
    ensures AllFilled(Parse(template), input)
    ensures Apply(template, input).value.url == Expand(Parse(template), input)
  {
    hide Parse, JsonText.StringifyPrimitive, Uri.Encode, HasLoneSurrogate, Usable, IsTraversal;
    var ts := Parse(template);
    ApplyIsExact(template, input);
    forall i | 0 <= i < |ts| && ts[i].Parameter? ensures Fills(ts[i].name, input) {
      var name := ts[i].name;
      assert name in Names(ts);
      UsableIsExact(input[name]);
      Uri.EncodesUnlessLoneSurrogate(JsonText.StringifyPrimitive(input[name]));
    }
  }

  lemma NothingExpands(input: Members)
    ensures Expand([], input) == []
  {
  }

  lemma ExpandCons(ts: seq<Token>, input: Members)
    requires ts != []
    ensures Expand(ts, input) == Piece(ts[0], input) + Expand(ts[1..], input)
  {
  }

  lemma SlashLeads(path: Text)
    requires path != [] && path[0] == SLASH
    ensures Parse(path) != [] && Parse(path)[0] == Literal(SLASH) && FirstParameter(Parse(path)) > 0
  {
  }

  /** Filling leaves the origin alone and fills the path by itself. */
  lemma FilledBelowOrigin(origin: Text, path: Text, input: Members)
    requires Braceless(origin)
    ensures Expand(Parse(origin + path), input) == origin + Expand(Parse(path), input)
    ensures AllFilled(Parse(origin + path), input) ==> AllFilled(Parse(path), input)
  {
    hide Parse, Expand, Fills, Braceless;
    BracelessHasNoOpen(origin);
    ParseUnopened(origin, path);
    var lead, ts := Parse(origin), Parse(path);
    ExpandConcat(lead, ts, input);
    LiteralsExpandToSource(lead, input);
    SourceOfParse(origin);
    if AllFilled(lead + ts, input) {
      forall i | 0 <= i < |ts| && ts[i].Parameter? ensures Fills(ts[i].name, input) {
        assert (lead + ts)[|lead| + i] == ts[i];
      }
    }
  }

  // ---- Exactly when the containment check can fire ----

  /** What is asked of a path template: no stray brace, and no escape left for a value to complete. */
  predicate WellFormed(ts: seq<Token>) {
    && ts != [] && ts[0] == Literal(SLASH)
    && !HasStrayBrace(ts)
    && EscapesComplete(BLANK, ts[1..])
  }

  /** The check made after payment: the filled path resolves to one under the resolved literal prefix. */
  predicate Contained(path: Text, filled: Text) {
    && filled != [] && filled[0] == SLASH
    && var literal := BeforeBrace(path);
       literal != [] && literal[0] == SLASH && Pathname(literal) <= Pathname(filled)
  }

  /** The request built for this input passes that check. */
  predicate Passes(origin: Text, path: Text, input: Members)
    requires Apply(origin + path, input).Built?
  {
    var url := Apply(origin + path, input).value.url;
    origin <= url && Contained(path, url[|origin|..])
  }

  lemma {:induction false} LiteralsComplete(s: Shape, ts: seq<Token>)
    requires LiteralOnly(ts)
    ensures EscapesComplete(s, ts)
    decreases |ts|
  {
    hide ShapeStep, Completable;
    if ts != [] { LiteralsComplete(ShapeStep(s, ts[0]), ts[1..]); }
  }

  /** The literal prefix is itself such a template. */
  lemma PrefixFills(path: Text, input: Members)
    requires path != [] && path[0] == SLASH && !HasStrayBrace(Parse(path))
    ensures var ts := Parse(path);
            && ts != [] && ts[0] == Literal(SLASH)
            && var literal := BeforeBrace(path);
               && literal != [] && literal[0] == SLASH
               && Pathname(literal) == Slashed(FillAll(PrefixSegments(ts), input))
               && SlashFree(FillAll(PrefixSegments(ts), input)) && PrefixSegments(ts) != []
  {
    hide Parse, Source, Expand, BeforeBrace, EscapesComplete, Slashed, Pathname, ShapeRun;
    var ts := Parse(path);
    var n := FirstParameter(ts);
    SlashLeads(path);
    SourceOfParse(path);
    PrefixIsLiteral(ts);
    var pre := ts[..n];
    LiteralsExpandToSource(pre, input);
    LiteralsComplete(BLANK, pre[1..]);
    FillingKeepsSegments(pre, input);
  }

  /**
   * For each input: the check passes exactly when the template's resolved
   * segments, filled, begin with the prefix's.
   */
  lemma ContainedExactly(path: Text, input: Members)
    requires WellFormed(Parse(path)) && path != [] && path[0] == SLASH
    requires AllFilled(Parse(path), input)
    ensures var ts := Parse(path);
            Contained(path, Expand(ts, input)) <==>
            Leads(FillAll(PrefixSegments(ts), input), FillAll(Segments(ts), input))
  {
    hide Parse, Expand, BeforeBrace, EscapesComplete, Slashed, Pathname, Segments, PrefixSegments, SlashFree, Leads, Fills;
    var ts := Parse(path);
    PrefixFills(path, input);
    FillingKeepsSegments(ts, input);
    SlashedLeads(FillAll(PrefixSegments(ts), input), FillAll(Segments(ts), input));
  }

  lemma UnderLeads(ts: seq<Token>, input: Members)
    requires ts != [] && ts[0] == Literal(SLASH) && Under(ts)
    ensures Leads(FillAll(PrefixSegments(ts), input), FillAll(Segments(ts), input))
  {
    hide Segments, PrefixSegments, Expand;
    var p, s := PrefixSegments(ts), Segments(ts);
    var m := |p| - 1;
    var rest := s[m][|p[m]|..];
    assert s[m] == p[m] + rest;
    ExpandConcat(p[m], rest, input);
    forall i | 0 <= i < m ensures p[i] == s[i] {
      assert p[..m][i] == s[..m][i];
    }
    assert FillAll(p, input)[..m] == FillAll(s, input)[..m];
  }

  /**
   * Where the template itself stays under its prefix, a request that has been
   * built passes the check made after payment, whatever the values.
   */
  lemma ContainmentNeverFires(origin: Text, path: Text, input: Members)
    requires Braceless(origin) && path != [] && path[0] == SLASH
    requires WellFormed(Parse(path)) && Under(Parse(path))
    requires Apply(origin + path, input).Built?
    ensures Passes(origin, path, input)
  {
    hide Apply, Parse, Expand, AllFilled, Braceless, Contained, WellFormed, Under, Segments, PrefixSegments, Leads;
    FilledUrl(origin, path, input);
    SlashLeads(path);
    ContainedExactly(path, input);
    UnderLeads(Parse(path), input);
  }

  lemma FilledUrl(origin: Text, path: Text, input: Members)
    requires Braceless(origin) && Apply(origin + path, input).Built?
    ensures AllFilled(Parse(path), input)
    ensures var url := Apply(origin + path, input).value.url;
            origin <= url && url[|origin|..] == Expand(Parse(path), input)
  {
    hide Apply, Parse, Expand, AllFilled, Braceless;
    BuiltMeansFilled(origin + path, input);
    FilledBelowOrigin(origin, path, input);
  }

  /** A literal segment out of place puts every built request outside the prefix. */
  predicate Astray(ts: seq<Token>)
    requires ts != [] && ts[0] == Literal(SLASH)
  {
    var p, s := PrefixSegments(ts), Segments(ts);
    || |s| < |p|
    || exists i :: 0 <= i < |p| && i < |s| && LiteralOnly(s[i]) && !(if i < |p| - 1 then p[i] == s[i] else p[i] <= s[i])
  }

  /** Climbing past the first parameter's segment, with nothing to put the prefix back, refuses every request. */
  lemma AstrayIsAlwaysRefused(origin: Text, path: Text, input: Members)
    requires Braceless(origin) && path != [] && path[0] == SLASH
    requires WellFormed(Parse(path)) && Astray(Parse(path))
    requires Apply(origin + path, input).Built?
    ensures !Passes(origin, path, input)
  {
    hide Apply, Parse, Expand, AllFilled, Braceless, Contained, WellFormed, Segments, PrefixSegments, Source;
    var ts := Parse(path);
    FilledUrl(origin, path, input);
    SlashLeads(path);
    ContainedExactly(path, input);
    var p, s := PrefixSegments(ts), Segments(ts);
    if |s| >= |p| {
      var i :| 0 <= i < |p| && i < |s| && LiteralOnly(s[i]) && !(if i < |p| - 1 then p[i] == s[i] else p[i] <= s[i]);
      PrefixIsLiteralOnly(ts, i);
      LiteralsDiffer(p[i], s[i], input);
      LeadsAt(FillAll(p, input), FillAll(s, input), i);
    }
  }

  /** Literal text and literal tokens say the same. */
  lemma LiteralsDiffer(p: seq<Token>, s: seq<Token>, input: Members)
    requires LiteralOnly(p) && LiteralOnly(s)
    ensures Expand(p, input) == Expand(s, input) <==> p == s
    ensures Expand(p, input) <= Expand(s, input) <==> p <= s
  {
    hide Expand, Source;
    LiteralsExpandToSource(p, input);
    LiteralsExpandToSource(s, input);
    SourceUnits(p);
    SourceUnits(s);
    var a, b := Source(p), Source(s);
    if a <= b {
      forall i | 0 <= i < |p| ensures p[i] == s[i] {
        assert a[i] == b[i];
      }
    }
    if p <= s {
      forall i | 0 <= i < |a| ensures a[i] == b[i] {
        assert p[i] == s[i];
      }
    }
  }

  /** The parameters of a segment are among those of `ts`. */
  ghost predicate TokensFrom(segment: seq<Token>, ts: seq<Token>) {
    forall i :: 0 <= i < |segment| && segment[i].Parameter? ==> segment[i] in ts
  }

  ghost predicate ShapeFrom(s: Shape, ts: seq<Token>) {
    TokensFrom(s.buffer, ts) && forall i :: 0 <= i < |s.stack| ==> TokensFrom(s.stack[i], ts)
  }

  lemma {:induction false} RunKeepsTokens(s: Shape, rest: seq<Token>, ts: seq<Token>)
    requires ShapeFrom(s, ts) && TokensFrom(rest, ts)
    ensures ShapeFrom(ShapeRun(s, rest), ts)
    decreases |rest|
  {
    hide IsDots;
    if rest != [] {
      RunKeepsTokens(ShapeStep(s, rest[0]), rest[1..], ts);
    }
  }

  lemma {:induction false} EncodingKeepsParameters(ts: seq<Token>, all: seq<Token>)
    requires TokensFrom(ts, all)
    ensures TokensFrom(EncodeTokens(ts), all)
    decreases |ts|
  {
    hide EncodeUnit, Uri.PercentBytes, Uri.Utf8;
    if ts != [] {
      EncodingKeepsParameters(ts[1..], all);
      if PairAhead(ts) { EncodingKeepsParameters(ts[2..], all); }
    }
  }

  /** Resolving makes no parameter up. */
  lemma SegmentTokens(ts: seq<Token>)
    requires ts != [] && !Blank(ts[0])
    ensures forall i :: 0 <= i < |Segments(ts)| ==> TokensFrom(Segments(ts)[i], ts)
  {
    hide IsDots, ShapeRun, EncodeTokens, TrimTokens;
    var tt := TrimTokens(ts);
    assert forall i :: 0 <= i < |tt[1..]| ==> tt[1..][i] == ts[i + 1];
    RunKeepsTokens(BLANK, tt[1..], ts);
    var raw := ShapeLast(ShapeRun(BLANK, tt[1..]));
    forall i | 0 <= i < |raw| ensures TokensFrom(EncodeTokens(raw[i]), ts) {
      assert TokensFrom(raw[i], ts);
      EncodingKeepsParameters(raw[i], ts);
    }
  }

  lemma PrefixIsLiteralOnly(ts: seq<Token>, i: nat)
    requires ts != [] && ts[0] == Literal(SLASH) && i < |PrefixSegments(ts)|
    ensures LiteralOnly(PrefixSegments(ts)[i])
  {
    hide Segments;
    var pre := ts[..FirstParameter(ts)];
    SegmentTokens(pre);
    assert forall t :: t in pre ==> t.Literal?;
  }

  // ---- Templates that never climb ----

  /** From here on no segment written in literals is a parent segment. */
  predicate NeverClimbs(s: Shape, ts: seq<Token>)
    decreases |ts|
  {
    && (!s.ended && (ts == [] || (ts[0].Literal? && (EndsPath(ts[0].unit) || IsSeparator(ts[0].unit)))) ==> !IsDots(s.buffer, 2))
    && (ts != [] ==> NeverClimbs(ShapeStep(s, ts[0]), ts[1..]))
  }

  /** The path is in, or below, a segment that starts with `p` and has a parameter. */
  ghost predicate Below(s: Shape, base: seq<seq<Token>>, p: seq<Token>) {
    && (s.ended ==> !IsDots(s.buffer, 2))
    && (|| (s.stack == base && p <= s.buffer && !LiteralOnly(s.buffer))
        || (|s.stack| > |base| && base <= s.stack && p <= s.stack[|base|]))
  }

  ghost predicate Kept(segments: seq<seq<Token>>, base: seq<seq<Token>>, p: seq<Token>) {
    |segments| > |base| && base <= segments && p <= segments[|base|]
  }

  lemma StepStaysBelow(s: Shape, t: Token, base: seq<seq<Token>>, p: seq<Token>)
    requires Below(s, base, p)
    requires !s.ended && t.Literal? && (EndsPath(t.unit) || IsSeparator(t.unit)) ==> !IsDots(s.buffer, 2)
    ensures Below(ShapeStep(s, t), base, p)
  {
    hide DotCount, Source;
    if !s.ended && !LiteralOnly(s.buffer) {
      assert !LiteralOnly(s.buffer + [t]) by {
        var i :| 0 <= i < |s.buffer| && !s.buffer[i].Literal?;
        assert (s.buffer + [t])[i] == s.buffer[i];
      }
    }
  }

  lemma BelowIsKept(s: Shape, base: seq<seq<Token>>, p: seq<Token>)
    requires Below(s, base, p) && !IsDots(s.buffer, 2)
    ensures Kept(ShapeLast(s), base, p)
  {
    hide DotCount, Source;
  }

  lemma {:induction false} StaysBelow(s: Shape, ts: seq<Token>, base: seq<seq<Token>>, p: seq<Token>)
    requires Below(s, base, p) && NeverClimbs(s, ts)
    ensures Kept(ShapeLast(ShapeRun(s, ts)), base, p)
    decreases |ts|
  {
    hide IsDots, ShapeStep, ShapeLast, Kept;
    if ts == [] {
      BelowIsKept(s, base, p);
    } else {
      StepStaysBelow(s, ts[0], base, p);
      StaysBelow(ShapeStep(s, ts[0]), ts[1..], base, p);
    }
  }

  lemma {:induction false} ShapeRunConcat(s: Shape, a: seq<Token>, b: seq<Token>)
    ensures ShapeRun(s, a + b) == ShapeRun(ShapeRun(s, a), b)
    decreases |a|
  {
    hide ShapeStep;
    if a == [] {
      assert a + b == b;
    } else {
      assert (a + b)[1..] == a[1..] + b;
      ShapeRunConcat(ShapeStep(s, a[0]), a[1..], b);
    }
  }

  lemma {:induction false} EncodingSplits(a: seq<Token>, b: seq<Token>)
    requires b == [] || b[0].Parameter? || !IsLowSurrogate(b[0].unit)
    ensures EncodeTokens(a + b) == EncodeTokens(a) + EncodeTokens(b)
    decreases |a|
  {
    hide FirstCode, PairAhead, EncodeTokens;
    var ts := a + b;
    if a == [] {
      assert ts == b;
      NothingEncoded();
      Regroup([], [], EncodeTokens(b));
    } else {
      FirstCodeStays(a, b);
      var n := if PairAhead(a) then 2 else 1;
      assert ts[n..] == a[n..] + b;
      EncodingSplits(a[n..], b);
      FirstIsEncoded(a);
      FirstIsEncoded(ts);
      Regroup(FirstCode(a), EncodeTokens(a[n..]), EncodeTokens(b));
    }
  }

  lemma FirstIsEncoded(ts: seq<Token>)
    requires ts != []
    ensures EncodeTokens(ts) == FirstCode(ts) + EncodeTokens(ts[if PairAhead(ts) then 2 else 1..])
  {
    hide FirstCode;
  }

  lemma Regroup<T>(a: seq<T>, b: seq<T>, c: seq<T>)
    ensures a + (b + c) == a + b + c && [] + c == c
  {
  }

  lemma FirstCodeStays(a: seq<Token>, b: seq<Token>)
    requires a != [] && (b == [] || b[0].Parameter? || !IsLowSurrogate(b[0].unit))
    ensures PairAhead(a + b) == PairAhead(a) && FirstCode(a + b) == FirstCode(a)
    ensures PairAhead(a) ==> |a| >= 2
  {
    hide EncodeUnit, Literals, Uri.PercentBytes, Uri.Utf8;
    assert (a + b)[0] == a[0] && (|a| >= 2 ==> (a + b)[1] == a[1]) && (|a| == 1 && b != [] ==> (a + b)[1] == b[0]);
  }

  /**
   * What the prefix `w` resolves to leads every path kept in a segment that
   * goes on from it with `more`, which starts no second half of a pair.
   */
  lemma KeptLeads(w: Shape, s: seq<seq<Token>>, more: seq<Token>)
    requires Kept(s, w.stack, w.buffer + more)
    requires more != [] && (more[0].Parameter? || !IsLowSurrogate(more[0].unit))
    ensures Leads(EncodeShapes(ShapeLast(w)), EncodeShapes(s))
  {
    hide DotCount, Source, EncodeTokens;
    var raw := ShapeLast(w);
    var m := |raw| - 1;
    assert raw[..m] == s[..m];
    assert EncodeTokens([]) == [] by { NothingEncoded(); }
    if raw[m] != [] {
      var rest := s[m][|w.buffer|..];
      assert s[m] == w.buffer + rest && rest[0] == more[0] by {
        assert (w.buffer + more)[|w.buffer|] == more[0];
        assert s[m][|w.buffer|] == more[0];
        assert forall i :: 0 <= i < |w.buffer| ==> s[m][i] == (w.buffer + more)[i] == w.buffer[i];
      }
      EncodingSplits(w.buffer, rest);
    }
    forall i | 0 <= i < m ensures raw[i] == s[i] {
      assert raw[..m][i] == s[..m][i];
    }
  }

  lemma NothingEncoded()
    ensures EncodeTokens([]) == []
  {
  }

  lemma {:induction false} EndedRun(s: Shape, ts: seq<Token>)
    requires s.ended
    ensures ShapeRun(s, ts) == s
    decreases |ts|
  {
    if ts != [] { EndedRun(s, ts[1..]); }
  }

  /** Past the prefix and the first parameter. */
  lemma FirstIsBelow(w: Shape, t: Token, rest: seq<Token>)
    requires !w.ended && t.Parameter? && NeverClimbs(ShapeStep(w, t), rest)
    ensures Kept(ShapeLast(ShapeRun(w, [t] + rest)), w.stack, w.buffer + [t])
  {
    hide IsDots, ShapeRun, NeverClimbs, ShapeLast, ShapeStep;
    ShapeRunConcat(w, [t], rest);
    OneToken(w, t);
    ShapeAppends(w, t);
    var named := ShapeStep(w, t);
    assert named.buffer[|w.buffer|] == t && !LiteralOnly(named.buffer);
    StaysBelow(named, rest, w.stack, w.buffer + [t]);
  }

  /** Trimming takes blanks off the end and stops at the first parameter. */
  lemma {:induction false} TrimSplits(ts: seq<Token>)
    ensures var tt := TrimTokens(ts);
            && (forall i :: |tt| <= i < |ts| ==> Blank(ts[i]))
            && (FirstParameter(ts) < |ts| ==> FirstParameter(tt) == FirstParameter(ts) < |tt|)
    decreases |ts|
  {
    hide FirstParameter;
    if ts != [] && Blank(ts[|ts| - 1]) {
      var m := |ts| - 1;
      var init := ts[..m];
      TrimSplits(init);
      FirstOfPrefix(ts, m);
      assert FirstParameter(ts) != m;
      var tt := TrimTokens(init);
      assert TrimTokens(ts) == tt;
      forall i | |tt| <= i < |ts| ensures Blank(ts[i]) {
        if i < m { assert init[i] == ts[i]; }
      }
    }
  }

  lemma {:induction false} FirstOfPrefix(ts: seq<Token>, n: nat)
    requires n <= |ts|
    ensures FirstParameter(ts[..n]) == if FirstParameter(ts) < n then FirstParameter(ts) else n
  {
    if n > 0 && ts[0].Literal? {
      assert ts[..n][1..] == ts[1..][..n - 1];
      FirstOfPrefix(ts[1..], n - 1);
    }
  }

  /** Blanks stay in the segment, or are dropped. */
  lemma {:induction false} BlanksStay(s: Shape, blanks: seq<Token>) returns (kept: seq<Token>)
    requires !s.ended && forall i :: 0 <= i < |blanks| ==> Blank(blanks[i])
    ensures ShapeRun(s, blanks) == Shape(s.stack, s.buffer + kept, false)
    ensures forall i :: 0 <= i < |kept| ==> Blank(kept[i])
    decreases |blanks|
  {
    hide ShapeClose;
    if blanks == [] {
      kept := [];
      assert s.buffer + kept == s.buffer;
    } else {
      var next := ShapeStep(s, blanks[0]);
      var rest := BlanksStay(next, blanks[1..]);
      kept := if IsDropped(blanks[0].unit) then rest else [blanks[0]] + rest;
      assert s.buffer + ([blanks[0]] + rest) == s.buffer + [blanks[0]] + rest;
    }
  }

  /** With no literal parent segment from the first parameter on, the template stays under its prefix. */
  lemma NeverClimbingIsUnder(ts: seq<Token>)
    requires ts != [] && ts[0] == Literal(SLASH)
    requires var tt := TrimTokens(ts);
             var n := FirstParameter(tt);
             n < |tt| ==> NeverClimbs(ShapeRun(BLANK, tt[1..n + 1]), tt[n + 1..])
    ensures Under(ts)
  {
    hide ShapeRun, NeverClimbs, ShapeStep, ShapeLast, Kept, EncodeShapes, TrimTokens, FirstParameter, PrefixSegments, Segments, Leads;
    var n := FirstParameter(ts);
    TrimSplits(ts);
    if n < |ts| {
      ParameterIsUnder(ts, TrimTokens(ts), n);
    } else {
      WholeIsPrefix(ts);
      SameLeads(Segments(ts));
    }
  }

  lemma ParameterIsUnder(ts: seq<Token>, tt: seq<Token>, n: nat)
    requires ts != [] && ts[0] == Literal(SLASH) && tt == TrimTokens(ts)
    requires tt != [] && tt[0] == Literal(SLASH) && n == FirstParameter(ts) == FirstParameter(tt) < |tt|
    requires NeverClimbs(ShapeRun(BLANK, tt[1..n + 1]), tt[n + 1..])
    ensures Leads(PrefixSegments(ts), Segments(ts))
  {
    hide *;
    SlashComesFirst(tt);
    ByShapes(ts, tt, n);
    PrefixAndRest(tt[..n], tt, n);
  }

  lemma ByShapes(ts: seq<Token>, tt: seq<Token>, n: nat)
    requires ts != [] && ts[0] == Literal(SLASH) && tt == TrimTokens(ts) && n == FirstParameter(ts) <= |tt| && 0 < n
    ensures Segments(ts) == EncodeShapes(ShapeLast(ShapeRun(BLANK, tt[1..])))
    ensures PrefixSegments(ts) == EncodeShapes(ShapeLast(ShapeRun(BLANK, TrimTokens(tt[..n])[1..])))
  {
    hide ShapeRun, ShapeLast, EncodeShapes, TrimTokens, FirstParameter;
    assert ts[..n] == tt[..n];
  }

  lemma WholeIsPrefix(ts: seq<Token>)
    requires ts != [] && ts[0] == Literal(SLASH) && FirstParameter(ts) == |ts|
    ensures PrefixSegments(ts) == Segments(ts) != []
  {
    hide ShapeRun, ShapeLast, TrimTokens, FirstParameter;
    assert ts[..|ts|] == ts;
    LastIsSomething(ShapeRun(BLANK, TrimTokens(ts)[1..]));
  }

  lemma SlashComesFirst(ts: seq<Token>)
    requires ts != [] && ts[0] == Literal(SLASH)
    ensures 0 < FirstParameter(ts) && (FirstParameter(ts) < |ts| ==> ts[FirstParameter(ts)].Parameter?)
  {
  }

  lemma PrefixAndRest(pre: seq<Token>, tt: seq<Token>, n: nat)
    requires 0 < n < |tt| && pre == tt[..n] && tt[n].Parameter? && tt[0] == Literal(SLASH)
    requires NeverClimbs(ShapeRun(BLANK, tt[1..n + 1]), tt[n + 1..])
    ensures Leads(EncodeShapes(ShapeLast(ShapeRun(BLANK, TrimTokens(pre)[1..]))), EncodeShapes(ShapeLast(ShapeRun(BLANK, tt[1..]))))
  {
    hide ShapeRun, NeverClimbs, ShapeStep, ShapeLast, Kept, EncodeShapes, TrimTokens, FirstParameter;
    var trimmed := TrimTokens(pre);
    TrimSplits(pre);
    var blanks, rest := pre[|trimmed|..], tt[n..];
    var w0 := ShapeRun(BLANK, trimmed[1..]);
    assert tt[1..] == trimmed[1..] + (blanks + rest);
    ShapeRunConcat(BLANK, trimmed[1..], blanks + rest);
    LastIsSomething(w0);
    if w0.ended {
      EndedRun(w0, blanks + rest);
      SameLeads(EncodeShapes(ShapeLast(w0)));
    } else {
      var kept := BlanksStay(w0, blanks);
      var w := Shape(w0.stack, w0.buffer + kept, false);
      ShapeRunConcat(w0, blanks, rest);
      assert rest == [tt[n]] + tt[n + 1..];
      assert tt[1..n + 1] == trimmed[1..] + (blanks + [tt[n]]) by {
        assert pre == trimmed + blanks && tt[..n + 1] == pre + [tt[n]];
        assert tt[..n + 1][1..] == tt[1..n + 1];
      }
      ShapeRunConcat(BLANK, trimmed[1..], blanks + [tt[n]]);
      ShapeRunConcat(w0, blanks, [tt[n]]);
      OneToken(w, tt[n]);
      FirstIsBelow(w, tt[n], tt[n + 1..]);
      assert w.buffer + [tt[n]] == w0.buffer + (kept + [tt[n]]);
      KeptLeads(w0, ShapeLast(ShapeRun(w, rest)), kept + [tt[n]]);
    }
  }

  lemma SameLeads(p: seq<seq<Token>>)
    requires p != []
    ensures Leads(p, p)
  {
  }

  lemma LastIsSomething(s: Shape)
    ensures ShapeLast(s) != []
  {
  }

  lemma OneToken(s: Shape, t: Token)
    ensures ShapeRun(s, [t]) == ShapeStep(s, t)
  {
    assert [t][1..] == [];
  }

  lemma ShapeAppends(s: Shape, t: Token)
    requires !s.ended && (t.Literal? ==> !IsDropped(t.unit) && !EndsPath(t.unit) && !IsSeparator(t.unit))
    ensures ShapeStep(s, t) == Shape(s.stack, s.buffer + [t], false)
  {
  }

  // ---- Elsewhere some input escapes ----

  /** `n` copies of one letter. */
  function Repeated(c: CodeUnit, n: nat): (t: Text)
    ensures |t| == n && forall i :: 0 <= i < n ==> t[i] == c
  {
    seq(n, _ => c)
  }

  predicate IsAOrB(c: CodeUnit) {
    c == 0x61 || c == 0x62
  }

  lemma {:induction false} LettersEncode(t: Text)
    requires forall i :: 0 <= i < |t| ==> IsAOrB(t[i])
    ensures Uri.Encode(t) == Some(t)
  {
    if t != [] {
      LettersEncode(t[1..]);
      assert t == [t[0]] + t[1..];
    }
  }

  /** Every parameter of `ts` gets the same run of letters. */
  ghost predicate AllRepeat(ts: seq<Token>, input: Members, c: CodeUnit, n: nat) {
    IsAOrB(c) && n >= 1 &&
    forall t :: t in ts && t.Parameter? ==> t.name in input && input[t.name] == Str(Repeated(c, n))
  }

  lemma RepeatedPiece(t: Token, ts: seq<Token>, input: Members, c: CodeUnit, n: nat)
    requires AllRepeat(ts, input, c, n) && t in ts && t.Parameter?
    ensures Piece(t, input) == Repeated(c, n)
    ensures Usable(input[t.name])
  {
    LettersEncode(Repeated(c, n));
    JsonText.PlainIsPaired(Repeated(c, n));
  }

  /** A segment with a parameter is as long as its values. */
  lemma {:induction false} LongWithParameter(s: seq<Token>, ts: seq<Token>, input: Members, c: CodeUnit, n: nat)
    requires TokensFrom(s, ts) && AllRepeat(ts, input, c, n) && !LiteralOnly(s)
    ensures |Expand(s, input)| >= n
  {
    hide Piece, AllRepeat;
    if s[0].Parameter? {
      RepeatedPiece(s[0], ts, input, c, n);
    } else {
      assert !LiteralOnly(s[1..]) by {
        var i :| 0 <= i < |s| && !s[i].Literal?;
        assert s[1..][i - 1] == s[i];
      }
      LongWithParameter(s[1..], ts, input, c, n);
    }
  }

  /** A letter no text that fits `p` can have where `s` has its first parameter. */
  function Spoiler(p: seq<Token>, s: seq<Token>): (c: CodeUnit)
    ensures IsAOrB(c)
  {
    if p == [] || s == [] then 0x61
    else if s[0] == p[0] then Spoiler(p[1..], s[1..])
    else if p[0] == Literal(0x61) then 0x62
    else 0x61
  }

  lemma {:induction false} SpoilerBreaksPrefix(p: seq<Token>, s: seq<Token>, ts: seq<Token>, input: Members, n: nat)
    requires LiteralOnly(p) && TokensFrom(s, ts) && AllRepeat(ts, input, Spoiler(p, s), n)
    requires !(p <= s)
    ensures !(Expand(p, input) <= Expand(s, input))
  {
    hide AllRepeat;
    ExpandLiteral(p, input);
    if s != [] {
      ExpandCons(s, input);
      if s[0] == p[0] {
        assert p == [p[0]] + p[1..] && s == [s[0]] + s[1..];
        SpoilerBreaksPrefix(p[1..], s[1..], ts, input, n);
        AfterFirst(p[0].unit, Expand(p[1..], input), Expand(s[1..], input));
      } else if s[0].Parameter? {
        RepeatedPiece(s[0], ts, input, Spoiler(p, s), n);
        assert Expand(s, input)[0] == Spoiler(p, s) by { LettersLead(ts, input, Spoiler(p, s), n); }
      } else {
        ExpandLiteral(s, input);
        assert s[0].unit != p[0].unit;
        assert Expand(s, input)[0] == s[0].unit && Expand(p, input)[0] == p[0].unit;
      }
    }
  }

  lemma LettersLead(ts: seq<Token>, input: Members, c: CodeUnit, n: nat)
    requires AllRepeat(ts, input, c, n)
    ensures n >= 1
  {
  }

  lemma ExpandLiteral(p: seq<Token>, input: Members)
    requires p != [] && p[0].Literal?
    ensures Expand(p, input) == [p[0].unit] + Expand(p[1..], input)
  {
  }

  lemma AfterFirst(u: CodeUnit, a: Text, b: Text)
    ensures [u] + a <= [u] + b <==> a <= b
  {
    if [u] + a <= [u] + b {
      assert forall i :: 0 <= i < |a| ==> a[i] == ([u] + a)[i + 1] == ([u] + b)[i + 1] == b[i];
    }
    if a <= b { assert ([u] + b)[..|a| + 1] == [u] + b[..|a|]; }
  }

  lemma LongBreaksEquality(p: seq<Token>, s: seq<Token>, ts: seq<Token>, input: Members, c: CodeUnit, n: nat)
    requires LiteralOnly(p) && TokensFrom(s, ts) && AllRepeat(ts, input, c, n) && p != s && |p| < n
    ensures Expand(p, input) != Expand(s, input)
  {
    hide AllRepeat, Expand, Source;
    if LiteralOnly(s) {
      LiteralsDiffer(p, s, input);
    } else {
      LiteralsExpandToSource(p, input);
      LongWithParameter(s, ts, input, c, n);
    }
  }

  /** A length no literal segment of the prefix reaches. */
  function Longer(segments: seq<seq<Token>>): (n: nat)
    ensures n >= 1 && forall i :: 0 <= i < |segments| ==> |segments[i]| < n
  {
    if segments == [] then 1
    else
      var rest := Longer(segments[1..]);
      assert forall i :: 0 < i < |segments| ==> segments[i] == segments[1..][i - 1];
      if |segments[0]| < rest then rest else |segments[0]| + 1
  }

  /** The values that take such a template out of its prefix. */
  function Escaping(ts: seq<Token>): Members
    requires ts != [] && ts[0] == Literal(SLASH)
  {
    var p, s := PrefixSegments(ts), Segments(ts);
    var c := if 1 <= |p| <= |s| then Spoiler(p[|p| - 1], s[|p| - 1]) else 0x61;
    map k | k in Names(ts) :: Str(Repeated(c, Longer(p)))
  }

  lemma EscapingRepeats(ts: seq<Token>)
    requires ts != [] && ts[0] == Literal(SLASH)
    ensures var p, s := PrefixSegments(ts), Segments(ts);
            AllRepeat(ts, Escaping(ts), if 1 <= |p| <= |s| then Spoiler(p[|p| - 1], s[|p| - 1]) else 0x61, Longer(p))
  {
    hide Segments, PrefixSegments, Repeated, Longer, Spoiler;
    var input := Escaping(ts);
    forall t | t in ts && t.Parameter? ensures t.name in input {
      assert t == Parameter(t.name) && t.name in Names(ts);
    }
  }

  lemma EscapingLeadsAstray(ts: seq<Token>)
    requires ts != [] && ts[0] == Literal(SLASH) && !Under(ts) && PrefixSegments(ts) != []
    ensures !Leads(FillAll(PrefixSegments(ts), Escaping(ts)), FillAll(Segments(ts), Escaping(ts)))
  {
    hide Segments, PrefixSegments, AllRepeat, Expand, Escaping, Longer, Spoiler;
    var p, s, input := PrefixSegments(ts), Segments(ts), Escaping(ts);
    if |p| <= |s| {
      var m := |p| - 1;
      var c, n := Spoiler(p[m], s[m]), Longer(p);
      EscapingRepeats(ts);
      SegmentTokens(ts);
      if p[..m] != s[..m] {
        var i :| 0 <= i < m && p[i] != s[i];
        PrefixIsLiteralOnly(ts, i);
        LongerThan(p, i);
        LongBreaksEquality(p[i], s[i], ts, input, c, n);
        LeadsAt(FillAll(p, input), FillAll(s, input), i);
      } else {
        PrefixIsLiteralOnly(ts, m);
        SpoilerBreaksPrefix(p[m], s[m], ts, input, n);
      }
    }
  }

  lemma LongerThan(segments: seq<seq<Token>>, i: nat)
    requires i < |segments|
    ensures |segments[i]| < Longer(segments)
  {
  }

  lemma EscapingIsUsable(ts: seq<Token>)
    requires ts != [] && ts[0] == Literal(SLASH)
    ensures forall k :: k in Names(ts) ==> k in Escaping(ts) && Usable(Escaping(ts)[k])
  {
    hide Segments, PrefixSegments, Usable, Longer, Spoiler, Repeated, AllRepeat, Escaping, Piece;
    var p, s := PrefixSegments(ts), Segments(ts);
    var c := if 1 <= |p| <= |s| then Spoiler(p[|p| - 1], s[|p| - 1]) else 0x61;
    EscapingRepeats(ts);
    forall k | k in Names(ts) ensures k in Escaping(ts) && Usable(Escaping(ts)[k]) {
      assert Parameter(k) in ts;
      RepeatedPiece(Parameter(k), ts, Escaping(ts), c, Longer(p));
      RepeatedHas(ts, Escaping(ts), c, Longer(p), k);
    }
  }

  lemma RepeatedHas(ts: seq<Token>, input: Members, c: CodeUnit, n: nat, k: Text)
    requires AllRepeat(ts, input, c, n) && Parameter(k) in ts
    ensures k in input
  {
  }

  /** The escaping values are ordinary text, so the request is built. */
  lemma EscapingBuilds(origin: Text, path: Text)
    requires Braceless(origin) && path != [] && path[0] == SLASH
    requires Distinct(Names(Parse(path)))
    ensures Parse(path) != [] && Parse(path)[0] == Literal(SLASH)
    ensures Apply(origin + path, Escaping(Parse(path))).Built?
  {
    hide Apply, Parse, Usable, Distinct, Escaping;
    SlashLeads(path);
    EscapingIsUsable(Parse(path));
    assert OPEN !in origin by { BracelessHasNoOpen(origin); }
    NoOpenBrace(origin, path);
    ApplyIsExact(origin + path, Escaping(Parse(path)));
  }

  lemma BracelessHasNoOpen(origin: Text)
    requires Braceless(origin)
    ensures OPEN !in origin
  {
  }

  /**
   * The check can never fire after payment exactly when the template itself,
   * read as a path, stays under its own literal prefix: something the loader
   * could decide without seeing a value.
   */
  lemma ContainmentIsDecidedByTemplate(origin: Text, path: Text)
    requires Braceless(origin) && path != [] && path[0] == SLASH
    requires WellFormed(Parse(path)) && Distinct(Names(Parse(path)))
    ensures Parse(path) != [] && Parse(path)[0] == Literal(SLASH)
    ensures Under(Parse(path)) <==>
            forall input: Members :: Apply(origin + path, input).Built? ==> Passes(origin, path, input)
  {
    hide Apply, Parse, Under, Contained, WellFormed, Distinct, Braceless, Escaping, Segments, PrefixSegments, Leads, AllFilled, Expand;
    SlashLeads(path);
    var ts := Parse(path);
    if Under(ts) {
      forall input: Members | Apply(origin + path, input).Built?
        ensures Passes(origin, path, input)
      {
        ContainmentNeverFires(origin, path, input);
      }
    } else {
      var input := Escaping(ts);
      EscapingBuilds(origin, path);
      FilledUrl(origin, path, input);
      ContainedExactly(path, input);
      HasNoBrace(ts);
      PrefixFills(path, input);
      EscapingLeadsAstray(ts);
      assert !Passes(origin, path, input);
    }
  }

  lemma HasNoBrace(ts: seq<Token>)
    requires WellFormed(ts)
    ensures !HasStrayBrace(ts)
  {
  }

  // ---- Two templates outside those conditions ----

  const E: Text := [0x65]

  /** `/b{x}/..` */
  const CLIMBING := [Literal(SLASH), Literal(0x62), Parameter(X), Literal(SLASH), Literal(DOT_UNIT), Literal(DOT_UNIT)]

  /** `/%2{x}` */
  const CUT_ESCAPE := [Literal(SLASH), Literal(PERCENT), Literal(0x32), Parameter(X)]

  lemma ReadableCons(t: Token, ts: seq<Token>)
    requires Readable(ts) && if t.Literal? then t.unit != OPEN else IsName(t.name)
    ensures Readable([t] + ts)
  {
    assert ([t] + ts)[1..] == ts;
  }

  lemma {:induction false} BracesOnlyInParameters(ts: seq<Token>)
    requires forall i :: 0 <= i < |ts| ==> if ts[i].Literal? then ts[i].unit != OPEN else IsName(ts[i].name)
    ensures Readable(ts)
  {
    if ts != [] {
      assert ts == [ts[0]] + ts[1..];
      BracesOnlyInParameters(ts[1..]);
      ReadableCons(ts[0], ts[1..]);
    }
  }

  lemma NotDots(t: Text)
    requires t != [] && t[0] != DOT_UNIT && t[0] != PERCENT
    ensures DotCount(t).None?
  {
  }

  lemma SlashedOne(t: Text)
    ensures Slashed([t]) == [SLASH] + t
  {
    assert [t][1..] == [];
  }

  lemma TwoDots()
    ensures DotCount(DOT_DOT) == Some(2)
  {
    assert DOT_DOT[1..] == DOT && DOT[1..] == [];
  }

  lemma ShapeSeparates(s: Shape)
    requires !s.ended
    ensures ShapeStep(s, Literal(SLASH)) == Shape(ShapeClose(s), [], false)
  {
  }

  lemma ClimbingRun()
    ensures ShapeRun(BLANK, CLIMBING[1..]) ==
            Shape([[Literal(0x62), Parameter(X)]], [Literal(DOT_UNIT), Literal(DOT_UNIT)], false)
  {
    hide ShapeRun, ShapeStep, ShapeClose;
    var b, x, dot: Token := Literal(0x62), Parameter(X), Literal(DOT_UNIT);
    var none: seq<Token> := [];
    var named, below := Shape([], [b, x], false), Shape([[b, x]], [], false);
    assert CLIMBING[1..] == [b, x, Literal(SLASH), dot, dot];
    RunFive(BLANK, CLIMBING[1..]);
    assert none + [b] == [b] && [b] + [x] == [b, x] && none + [dot] == [dot] && [dot] + [dot] == [dot, dot];
    ShapeAppends(BLANK, b);
    ShapeAppends(Shape([], [b], false), x);
    ShapeSeparates(named);
    NamedCloses(named, x);
    var empty: seq<seq<Token>> := [];
    assert empty + [[b, x]] == [[b, x]];
    ShapeAppends(below, dot);
    ShapeAppends(Shape([[b, x]], [dot], false), dot);
  }

  /** A segment with a parameter is never a dot segment. */
  lemma NamedCloses(s: Shape, t: Token)
    requires t in s.buffer && t.Parameter?
    ensures ShapeClose(s) == s.stack + [s.buffer]
  {
    assert !LiteralOnly(s.buffer);
  }

  lemma ClimbingSegments()
    ensures Segments(CLIMBING) == [[]]
  {
    hide ShapeRun, DotCount, Source;
    var dot: Token := Literal(DOT_UNIT);
    ClimbingRun();
    SourceUnits([dot, dot]);
    assert Source([dot, dot]) == DOT_DOT;
    TwoDots();
    ParentOfFirst(ShapeRun(BLANK, CLIMBING[1..]));
  }

  lemma ParentOfFirst(s: Shape)
    requires |s.stack| == 1 && IsDots(s.buffer, 2)
    ensures ShapeLast(s) == [[]]
  {
    assert Shorten(s.stack) == [];
  }

  lemma RunFive(s: Shape, ts: seq<Token>)
    requires |ts| == 5
    ensures ShapeRun(s, ts) == ShapeStep(ShapeStep(ShapeStep(ShapeStep(ShapeStep(s, ts[0]), ts[1]), ts[2]), ts[3]), ts[4])
  {
    hide ShapeStep;
    var s1 := ShapeStep(s, ts[0]);
    var s2 := ShapeStep(s1, ts[1]);
    var s3 := ShapeStep(s2, ts[2]);
    var s4 := ShapeStep(s3, ts[3]);
    assert ShapeRun(s, ts) == ShapeRun(s1, ts[1..]);
    assert ts[1..][1..] == ts[2..] && ts[2..][1..] == ts[3..] && ts[3..][1..] == ts[4..];
    assert ShapeRun(s1, ts[1..]) == ShapeRun(s2, ts[2..]);
    assert ShapeRun(s2, ts[2..]) == ShapeRun(s3, ts[3..]);
    assert ShapeRun(s3, ts[3..]) == ShapeRun(s4, ts[4..]);
    assert ts[4..][1..] == [];
    assert ShapeRun(s4, ts[4..]) == ShapeRun(ShapeStep(s4, ts[4]), []);
  }

  lemma NotBlankEnds(ts: seq<Token>)
    requires ts != [] && !Blank(ts[|ts| - 1])
    ensures TrimTokens(ts) == ts
  {
  }

  lemma LetterEncodes(b: Token)
    requires b == Literal(0x62)
    ensures EncodeTokens([b]) == [b]
  {
    assert [b][1..] == [];
    NothingEncoded();
    assert EncodeUnit(b.unit) == [b.unit];
  }

  lemma ClimbingPrefixSegments()
    ensures PrefixSegments(CLIMBING) == [[Literal(0x62)]]
  {
    hide DotCount, Source, ShapeStep, ShapeLast, FirstParameter, TrimTokens, EncodeTokens, ShapeRun, Names;
    var b: Token := Literal(0x62);
    var prefix := [Literal(SLASH), b];
    assert FirstParameter(CLIMBING) == 2 by {
      LiteralsLead(prefix, X, CLIMBING[3..]);
      assert CLIMBING == prefix + [Parameter(X)] + CLIMBING[3..];
    }
    assert CLIMBING[..2] == prefix && prefix[1..] == [b];
    assert TrimTokens(prefix) == prefix by { NotBlankEnds(prefix); }
    OneLetter(b);
    LetterEncodes(b);
    assert EncodeShapes([[b]]) == [[b]];
  }

  lemma OneLetter(b: Token)
    requires b == Literal(0x62)
    ensures ShapeLast(ShapeRun(BLANK, [b])) == [[b]]
  {
    hide DotCount, Source, ShapeStep, ShapeRun;
    OneToken(BLANK, b);
    ShapeAppends(BLANK, b);
    assert BLANK.buffer + [b] == [b];
    SourceUnits([b]);
    NotDots(Source([b]));
    assert ShapeLast(Shape([], [b], false)) == [[b]];
  }

  lemma ClimbingIsAstray()
    ensures WellFormed(CLIMBING) && Astray(CLIMBING)
  {
    hide Segments, PrefixSegments, ShapeStep, Completable;
    ClimbingSegments();
    ClimbingPrefixSegments();
    var p, s := PrefixSegments(CLIMBING), Segments(CLIMBING);
    assert p[0] == [Literal(0x62)] && s[0] == [] && LiteralOnly(s[0]) && !(p[0] <= s[0]);
    ClimbingCompletes();
  }

  lemma ClimbingCompletes()
    ensures EscapesComplete(BLANK, CLIMBING[1..])
  {
    hide ShapeStep, EscapesComplete, Completable, Source;
    var b: Token := Literal(0x62);
    var ts, none: seq<Token> := CLIMBING[1..], [];
    var one := Shape([], [b], false);
    ShapeAppends(BLANK, b);
    assert none + [b] == [b];
    assert !Completable(Source([b]), 0) by { NotCut(b); }
    assert ts[1..][0] == Parameter(X) && LiteralOnly(ts[1..][1..]);
    LiteralsComplete(ShapeStep(one, Parameter(X)), ts[1..][1..]);
    CompletesCons(one, ts[1..]);
    CompletesCons(BLANK, ts);
  }

  lemma NotCut(t: Token)
    requires t == Literal(0x62)
    ensures !Completable(Source([t]), 0)
  {
    SourceUnits([t]);
  }

  lemma CompletesCons(s: Shape, ts: seq<Token>)
    requires ts != [] && EscapesComplete(ShapeStep(s, ts[0]), ts[1..])
    requires ts[0].Parameter? && !s.ended && LiteralOnly(s.buffer) ==> !Completable(Source(s.buffer), 0)
    ensures EscapesComplete(s, ts)
  {
  }

  /** `/b{x}/..` is such a template: every request it builds is refused, after payment. */
  lemma ParentSegmentEscapes(input: Members)
    requires Apply(Source(CLIMBING), input).Built?
    ensures !Contained(Source(CLIMBING), Apply(Source(CLIMBING), input).value.url)
  {
    hide Parse, Readable, Source, Apply, WellFormed, Astray, Contained;
    BracesOnlyInParameters(CLIMBING);
    ParseOfSource(CLIMBING);
    ClimbingIsAstray();
    assert CLIMBING == [CLIMBING[0]] + CLIMBING[1..] && TokenText(CLIMBING[0]) == [SLASH];
    SourceOfCons(CLIMBING[0], CLIMBING[1..]);
    var none: Text := [];
    assert none + Source(CLIMBING) == Source(CLIMBING);
    AstrayIsAlwaysRefused(none, Source(CLIMBING), input);
    var url := Apply(none + Source(CLIMBING), input).value.url;
    assert none <= url && url[|none|..] == url;
  }

  lemma {:induction false} SourceUnits(ts: seq<Token>)
    requires forall i :: 0 <= i < |ts| ==> ts[i].Literal?
    ensures |Source(ts)| == |ts| && forall i :: 0 <= i < |ts| ==> Source(ts)[i] == ts[i].unit
  {
    if ts != [] { SourceUnits(ts[1..]); }
  }

  lemma {:induction false} LiteralsLead(lead: seq<Token>, name: Text, tail: seq<Token>)
    requires forall i :: 0 <= i < |lead| ==> lead[i].Literal?
    ensures FirstParameter(lead + [Parameter(name)] + tail) == |lead|
    ensures Names(lead + [Parameter(name)] + tail) == [name] + Names(tail)
  {
    var ts := lead + [Parameter(name)] + tail;
    if lead == [] {
      assert ts == [Parameter(name)] + tail && ts[1..] == tail;
    } else {
      assert ts[1..] == lead[1..] + [Parameter(name)] + tail;
      LiteralsLead(lead[1..], name, tail);
    }
  }

  lemma NothingToEncode()
    ensures EncodeSegment([]) == []
  {
  }

  lemma PlainEnds(t: Text)
    requires t != [] && !InPathSet(t[|t| - 1])
    ensures TrimEnd(t) == t
  {
  }

  /** A path of one segment. */
  lemma OneSegment(segment: Text)
    requires InSegment(segment) && Plain(segment) && segment != []
    ensures Pathname([SLASH] + segment) ==
            [SLASH] + if DotCount(segment) == Some(1) || DotCount(segment) == Some(2) then [] else segment
  {
    hide Run, DotCount, EncodeSegment, TrimEnd;
    assert ([SLASH] + segment)[1..] == segment;
    assert TrimEnd([SLASH] + segment) == [SLASH] + segment by { PlainEnds([SLASH] + segment); }
    RunInSegment(START, segment);
    assert [] + segment == segment && segment + [] == segment;
    PlainPasses(segment, []);
    NothingToEncode();
    assert EncodeAll([segment]) == [segment] && EncodeAll([[]]) == [[]];
    var none: seq<Text> := [];
    assert none + [segment] == [segment] && none + [[]] == [[]];
    SlashedOne(segment);
    SlashedOne([]);
  }

  /** A literal escape completed by a value: the accepted value `e` makes a dot segment. */
  lemma CutEscapeEscapes(input: Members)
    requires X in input && input[X] == Str(E)
    ensures Apply(Source(CUT_ESCAPE), input).Built?
    ensures var filled := Apply(Source(CUT_ESCAPE), input).value.url;
            filled != [] && filled[0] == SLASH && !Contained(Source(CUT_ESCAPE), filled)
  {
    hide Parse, Readable, Pathname, DotCount, Expand;
    var template := Source(CUT_ESCAPE);
    BracesOnlyInParameters(CUT_ESCAPE);
    ParseOfSource(CUT_ESCAPE);
    CutEscapeBuilds(input);
    BuiltMeansFilled(template, input);
    CutEscapeExpands(input);
    CutEscapePrefix();
    CutEscapePaths();
  }

  lemma CutEscapeBuilds(input: Members)
    requires X in input && input[X] == Str(E) && Parse(Source(CUT_ESCAPE)) == CUT_ESCAPE
    ensures Apply(Source(CUT_ESCAPE), input).Built?
  {
    hide Parse, Apply, Source;
    ApplyIsExact(Source(CUT_ESCAPE), input);
    assert Usable(input[X]) by {
      JsonText.PlainIsPaired(E);
    }
    CutEscapeNames();
  }

  lemma CutEscapeNames()
    ensures Names(CUT_ESCAPE) == [X] && FirstParameter(CUT_ESCAPE) == 3
  {
    LiteralsLead(CUT_ESCAPE[..3], X, []);
    assert CUT_ESCAPE == CUT_ESCAPE[..3] + [Parameter(X)] + [];
  }

  lemma CutEscapeExpands(input: Members)
    requires X in input && input[X] == Str(E)
    ensures Expand(CUT_ESCAPE, input) == [SLASH, PERCENT, 0x32, 0x65]
  {
    var lead := CUT_ESCAPE[..3];
    assert CUT_ESCAPE == lead + [Parameter(X)];
    ExpandConcat(lead, [Parameter(X)], input);
    LiteralsExpandToSource(lead, input);
    SourceUnits(lead);
    assert Piece(Parameter(X), input) == E by {
      assert E[1..] == [];
      assert Uri.Encode(E) == Some(E + []);
    }
    ExpandCons([Parameter(X)], input);
    NothingExpands(input);
  }

  lemma CutEscapePrefix()
    ensures BeforeBrace(Source(CUT_ESCAPE)) == [SLASH, PERCENT, 0x32]
  {
    assert !HasStrayBrace(CUT_ESCAPE);
    PrefixIsLiteral(CUT_ESCAPE);
    CutEscapeNames();
    SourceUnits(CUT_ESCAPE[..3]);
  }

  lemma CutEscapePaths()
    ensures Pathname([SLASH, PERCENT, 0x32]) == [SLASH, PERCENT, 0x32]
    ensures Pathname([SLASH, PERCENT, 0x32, 0x65]) == [SLASH]
  {
    hide Pathname;
    OneSegment([PERCENT, 0x32]);
    OneSegment([PERCENT, 0x32, 0x65]);
    assert [SLASH] + [PERCENT, 0x32] == [SLASH, PERCENT, 0x32];
    assert [SLASH] + [PERCENT, 0x32, 0x65] == [SLASH, PERCENT, 0x32, 0x65];
    assert [PERCENT, 0x32, 0x65][3..] == [];
  }
}
