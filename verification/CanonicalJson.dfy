/** The RFC 8785 printer behind request digests, and a parser that undoes it. */
module CanonicalJson {
  import opened Text
  import opened Numbers
  import opened Json
  import opened Options

  const QUOTE: CodeUnit := 0x22
  const BACKSLASH: CodeUnit := 0x5C
  const COMMA: CodeUnit := 0x2C
  const COLON: CodeUnit := 0x3A
  const OPEN_BRACKET: CodeUnit := 0x5B
  const CLOSE_BRACKET: CodeUnit := 0x5D
  const OPEN_BRACE: CodeUnit := 0x7B
  const CLOSE_BRACE: CodeUnit := 0x7D
  const NULL_TEXT: Text := [0x6E, 0x75, 0x6C, 0x6C]
  const TRUE_TEXT: Text := [0x74, 0x72, 0x75, 0x65]
  const FALSE_TEXT: Text := [0x66, 0x61, 0x6C, 0x73, 0x65]

  // ---- Strings: QuoteJSONString (ECMA-262, section 25.5.2.3) ----

  function HexDigit(d: int): (u: CodeUnit)
    requires 0 <= d < 16
    ensures u != QUOTE
  {
    if d < 10 then 0x30 + d else 0x61 + d - 10
  }

  /** The letter after the backslash in a two-character escape, if there is one. */
  function ShortEscape(u: CodeUnit): Option<CodeUnit> {
    if u == 0x08 then Some(0x62)
    else if u == 0x09 then Some(0x74)
    else if u == 0x0A then Some(0x6E)
    else if u == 0x0C then Some(0x66)
    else if u == 0x0D then Some(0x72)
    else if u == QUOTE || u == BACKSLASH then Some(u)
    else None
  }

  function HexEscape(u: CodeUnit): Text {
    [BACKSLASH, 0x75, HexDigit(u / 4096), HexDigit(u / 256 % 16), HexDigit(u / 16 % 16), HexDigit(u % 16)]
  }

  /** One code unit inside quotes; a surrogate here has no partner. */
  function EscapeUnit(u: CodeUnit): Text {
    if ShortEscape(u).Some? then [BACKSLASH, ShortEscape(u).value]
    else if u < 0x20 || IsSurrogate(u) then HexEscape(u)
    else [u]
  }

  function Escape(t: Text): Text {
    if t == [] then []
    else if StartsWithPair(t) then t[..2] + Escape(t[2..])
    else EscapeUnit(t[0]) + Escape(t[1..])
  }

  function Quote(t: Text): Text {
    [QUOTE] + Escape(t) + [QUOTE]
  }

  // ---- Key order ----

  ghost predicate Sorted(keys: seq<Text>) {
    forall i, j :: 0 <= i < j < |keys| ==> Before(keys[i], keys[j])
  }

  predicate IsLeast(k: Text, s: set<Text>) {
    k in s && forall o :: o in s && o != k ==> Before(k, o)
  }

  lemma {:induction false} LeastExists(s: set<Text>)
    requires s != {}
    ensures exists k :: IsLeast(k, s)
  {
    var k :| k in s;
    if s == {k} {
      assert IsLeast(k, s);
    } else {
      LeastExists(s - {k});
      var m :| IsLeast(m, s - {k});
      BeforeIsTotal(k, m);
      if Before(m, k) {
        assert IsLeast(m, s);
      } else {
        forall o | o in s && o != k ensures Before(k, o) {
          if o != m { BeforeIsTransitive(k, m, o); }
        }
        assert IsLeast(k, s);
      }
    }
  }

  lemma LeastIsUnique(a: Text, b: Text, s: set<Text>)
    requires IsLeast(a, s) && IsLeast(b, s)
    ensures a == b
  {
    BeforeIsTotal(a, b);
  }

  /** The keys in the order of the default sort. */
  function SortedKeys(s: set<Text>): (keys: seq<Text>)
    ensures forall k :: k in keys <==> k in s
    ensures Sorted(keys)
    decreases s
  {
    if s == {} then []
    else
      LeastExists(s);
      assert forall a, b :: IsLeast(a, s) && IsLeast(b, s) ==> a == b by {
        forall a, b | IsLeast(a, s) && IsLeast(b, s) ensures a == b { LeastIsUnique(a, b, s); }
      }
      var k :| IsLeast(k, s);
      [k] + SortedKeys(s - {k})
  }

  /** Sorting leaves nothing to choose. */
  lemma {:induction false} SortedIsUnique(a: seq<Text>, b: seq<Text>)
    requires Sorted(a) && Sorted(b)
    requires forall k :: k in a <==> k in b
    ensures a == b
  {
    if a == [] {
      assert forall i :: 0 <= i < |b| ==> b[i] in b;
    } else {
      assert a[0] in b;
      assert b[0] in a;
      BeforeIsTotal(a[0], b[0]);
      assert a[0] == b[0];
      var a', b' := a[1..], b[1..];
      assert a == [a[0]] + a' && b == [b[0]] + b';
      forall k ensures k in a' <==> k in b' {
        SortedHeadNotInTail(a);
        SortedHeadNotInTail(b);
        assert k in a <==> k == a[0] || k in a';
        assert k in b <==> k == b[0] || k in b';
      }
      SortedIsUnique(a', b');
    }
  }

  lemma SortedHeadNotInTail(keys: seq<Text>)
    requires Sorted(keys) && keys != []
    ensures keys[0] !in keys[1..]
  {
    forall j | 1 <= j < |keys| ensures keys[j] != keys[0] {
      BeforeIsTotal(keys[0], keys[j]);
    }
  }

  // ---- The printer ----

  /** Values with a canonical form. */
  predicate Printable(v: Json) {
    match v
    case Undefined => false
    case Null => true
    case Bool(_) => true
    case Num(n) => n.IsFinite()
    case Str(s) => !HasLoneSurrogate(s)
    case Arr(items) => forall i :: 0 <= i < |items| ==> Printable(items[i])
    case Obj(members) => forall k :: k in members ==> !HasLoneSurrogate(k) && Printable(members[k])
  }

  function Print(v: Json): Text
    requires Printable(v)
    decreases v, 1, 0
  {
    match v
    case Null => NULL_TEXT
    case Bool(b) => if b then TRUE_TEXT else FALSE_TEXT
    case Num(n) => ToString(n)
    case Str(s) => Quote(s)
    case Arr(items) => [OPEN_BRACKET] + PrintItems(v, 0) + [CLOSE_BRACKET]
    case Obj(members) => [OPEN_BRACE] + PrintMembers(v, SortedKeys(members.Keys)) + [CLOSE_BRACE]
  }

  /** Items from index `i` on, separated by commas. */
  function PrintItems(v: Json, i: nat): Text
    requires v.Arr? && Printable(v) && i <= |v.items|
    decreases v, 0, |v.items| - i
  {
    if i == |v.items| then []
    else Print(v.items[i]) + if i + 1 == |v.items| then [] else [COMMA] + PrintItems(v, i + 1)
  }

  function PrintMember(v: Json, k: Text): Text
    requires v.Obj? && Printable(v) && k in v.members
    decreases v, 0, 0
  {
    Quote(k) + [COLON] + Print(v.members[k])
  }

  function PrintMembers(v: Json, keys: seq<Text>): Text
    requires v.Obj? && Printable(v) && forall k :: k in keys ==> k in v.members
    decreases v, 0, |keys|
  {
    if keys == [] then []
    else PrintMember(v, keys[0]) + if |keys| == 1 then [] else [COMMA] + PrintMembers(v, keys[1..])
  }

  function Canonical(v: Json): Option<Text> {
    if Printable(v) then Some(Print(v)) else None
  }

  // ---- The parser ----

  function HexValue(u: CodeUnit): Option<int> {
    if 0x30 <= u <= 0x39 then Some(u - 0x30)
    else if 0x61 <= u <= 0x66 then Some(u - 0x61 + 10)
    else None
  }

  /** The code unit four hexadecimal digits name. */
  function ReadHex(t: Text): Option<CodeUnit>
    requires |t| == 4
  {
    var a, b, c, d := HexValue(t[0]), HexValue(t[1]), HexValue(t[2]), HexValue(t[3]);
    if a.Some? && b.Some? && c.Some? && d.Some?
    then ReadHexBound(t); Some(a.value * 4096 + b.value * 256 + c.value * 16 + d.value)
    else None
  }

  lemma ReadHexBound(t: Text)
    requires |t| == 4
    ensures forall i :: 0 <= i < 4 ==> HexValue(t[i]).Some? ==> 0 <= HexValue(t[i]).value < 16
  {
  }

  function ShortUnescape(u: CodeUnit): Option<CodeUnit> {
    if u == 0x62 then Some(0x08)
    else if u == 0x74 then Some(0x09)
    else if u == 0x6E then Some(0x0A)
    else if u == 0x66 then Some(0x0C)
    else if u == 0x72 then Some(0x0D)
    else if u == QUOTE || u == BACKSLASH then Some(u)
    else None
  }

  /** One possibly escaped code unit and what follows it. */
  function ReadUnit(t: Text): (r: Option<(CodeUnit, Text)>)
    ensures r.Some? ==> |r.value.1| < |t|
  {
    if t == [] || t[0] == QUOTE then None
    else if t[0] != BACKSLASH then Some((t[0], t[1..]))
    else if |t| >= 6 && t[1] == 0x75 then
      var u := ReadHex(t[2..6]);
      if u.Some? then Some((u.value, t[6..])) else None
    else if |t| >= 2 && ShortUnescape(t[1]).Some? then Some((ShortUnescape(t[1]).value, t[2..]))
    else None
  }

  /** The string up to the closing quote and what follows it. */
  function ReadString(t: Text): (r: Option<(Text, Text)>)
    ensures r.Some? ==> |r.value.1| < |t|
    decreases |t|
  {
    if t != [] && t[0] == QUOTE then Some(([], t[1..]))
    else
      var unit := ReadUnit(t);
      if unit.None? then None
      else
        var tail := ReadString(unit.value.1);
        if tail.None? then None else Some(([unit.value.0] + tail.value.0, tail.value.1))
  }

  predicate StartsWith(t: Text, prefix: Text) {
    |prefix| <= |t| && forall i :: 0 <= i < |prefix| ==> t[i] == prefix[i]
  }

  function ParseNumber(t: Text): (r: Option<(Json, Text)>)
    ensures r.Some? ==> |r.value.1| < |t|
  {
    var (n, rest) := Read(t);
    if n.Valid() && |rest| < |t| then Some((Num(n), rest)) else None
  }

  function ParseValue(t: Text): (r: Option<(Json, Text)>)
    ensures r.Some? ==> |r.value.1| < |t|
    decreases |t|, 1
  {
    if t == [] then None
    else if StartsWith(t, NULL_TEXT) then Some((Null, t[4..]))
    else if StartsWith(t, TRUE_TEXT) then Some((Bool(true), t[4..]))
    else if StartsWith(t, FALSE_TEXT) then Some((Bool(false), t[5..]))
    else if t[0] == QUOTE then
      var s := ReadString(t[1..]);
      if s.None? then None else Some((Str(s.value.0), s.value.1))
    else if t[0] == OPEN_BRACKET then
      if StartsWith(t[1..], [CLOSE_BRACKET]) then Some((Arr([]), t[2..]))
      else
        var xs := ParseItems(t[1..]);
        if xs.None? then None else Some((Arr(xs.value.0), xs.value.1))
    else if t[0] == OPEN_BRACE then
      if StartsWith(t[1..], [CLOSE_BRACE]) then Some((Obj(map[]), t[2..]))
      else
        var ms := ParseMembers(t[1..]);
        if ms.None? then None else Some((Obj(ms.value.0), ms.value.1))
    else ParseNumber(t)
  }

  /** Items up to the closing bracket. */
  function ParseItems(t: Text): (r: Option<(seq<Json>, Text)>)
    ensures r.Some? ==> |r.value.1| < |t|
    decreases |t|, 2
  {
    var x := ParseValue(t);
    if x.None? then None
    else
      var (v, t1) := x.value;
      if StartsWith(t1, [CLOSE_BRACKET]) then Some(([v], t1[1..]))
      else if StartsWith(t1, [COMMA]) then
        var xs := ParseItems(t1[1..]);
        if xs.None? then None else Some(([v] + xs.value.0, xs.value.1))
      else None
  }

  function ParseMember(t: Text): (r: Option<((Text, Json), Text)>)
    ensures r.Some? ==> |r.value.1| < |t|
    decreases |t|, 2
  {
    if !StartsWith(t, [QUOTE]) then None
    else
      var k := ReadString(t[1..]);
      if k.None? || !StartsWith(k.value.1, [COLON]) then None
      else
        var v := ParseValue(k.value.1[1..]);
        if v.None? then None else Some(((k.value.0, v.value.0), v.value.1))
  }

  /** Members up to the closing brace; an earlier duplicate wins. */
  function ParseMembers(t: Text): (r: Option<(map<Text, Json>, Text)>)
    ensures r.Some? ==> |r.value.1| < |t|
    decreases |t|, 3
  {
    var x := ParseMember(t);
    if x.None? then None
    else
      var ((k, v), t1) := x.value;
      if StartsWith(t1, [CLOSE_BRACE]) then Some((map[k := v], t1[1..]))
      else if StartsWith(t1, [COMMA]) then
        var ms := ParseMembers(t1[1..]);
        if ms.None? then None else Some((ms.value.0[k := v], ms.value.1))
      else None
  }

  // ---- Parsing undoes printing ----

  lemma ReadHexDigit(d: int)
    requires 0 <= d < 16
    ensures HexValue(HexDigit(d)) == Some(d)
  {
  }

  lemma DivideTwice(n: int, k: int)
    requires 0 <= n && k in {16, 256}
    ensures n / k / 16 == n / (k * 16)
  {
    var q, r := n / k, n % k;
    var q', r' := q / 16, q % 16;
    assert n == q' * (k * 16) + (r' * k + r);
    assert 0 <= r' * k + r < k * 16;
  }

  lemma SplitDigit(n: int)
    requires 0 <= n
    ensures n == n / 16 * 16 + n % 16 && 0 <= n % 16 < 16
  {
  }

  /** Four hexadecimal digits make up a code unit. */
  lemma FourDigits(u: CodeUnit) returns (a: int, b: int, c: int, d: int)
    ensures 0 <= a < 16 && 0 <= b < 16 && 0 <= c < 16 && 0 <= d < 16
    ensures a == u / 4096 && b == u / 256 % 16 && c == u / 16 % 16 && d == u % 16
    ensures u == a * 4096 + b * 256 + c * 16 + d
  {
    a, b, c, d := u / 4096, u / 256 % 16, u / 16 % 16, u % 16;
    SplitDigit(u);
    SplitDigit(u / 16);
    SplitDigit(u / 256);
    DivideTwice(u, 16);
    DivideTwice(u, 256);
  }

  lemma ReadHexEscape(u: CodeUnit)
    ensures ReadHex(HexEscape(u)[2..6]) == Some(u)
  {
    hide HexDigit, HexValue;
    var a, b, c, d := FourDigits(u);
    var t := [HexDigit(a), HexDigit(b), HexDigit(c), HexDigit(d)];
    assert HexEscape(u) == [BACKSLASH, 0x75] + t;
    assert HexEscape(u)[2..6] == t;
    ReadHexDigit(a);
    ReadHexDigit(b);
    ReadHexDigit(c);
    ReadHexDigit(d);
  }

  lemma ReadEscapedUnit(u: CodeUnit, rest: Text)
    ensures ReadUnit(EscapeUnit(u) + rest) == Some((u, rest))
    ensures (EscapeUnit(u) + rest)[0] != QUOTE
  {
    var t := EscapeUnit(u) + rest;
    if ShortEscape(u).None? && (u < 0x20 || IsSurrogate(u)) {
      ReadHexEscape(u);
      assert t[2..6] == HexEscape(u)[2..6];
      assert t[6..] == rest;
    } else if ShortEscape(u).Some? {
      assert t[2..] == rest;
    } else {
      assert t[1..] == rest;
    }
  }

  lemma {:induction false} ReadEscaped(s: Text, rest: Text)
    ensures ReadString(Escape(s) + [QUOTE] + rest) == Some((s, rest))
  {
    hide ReadUnit, EscapeUnit;
    var t := Escape(s) + [QUOTE] + rest;
    if s == [] {
      assert t == [QUOTE] + rest;
    } else if StartsWithPair(s) {
      ReadEscaped(s[2..], rest);
      var t2 := Escape(s[2..]) + [QUOTE] + rest;
      var t1 := [s[1]] + t2;
      assert t == [s[0]] + t1;
      ReadPlainUnit(s[0], t1);
      ReadPlainUnit(s[1], t2);
      assert ReadString(t1) == Some(([s[1]] + s[2..], rest));
      assert s == [s[0]] + ([s[1]] + s[2..]);
    } else {
      ReadEscaped(s[1..], rest);
      var t1 := Escape(s[1..]) + [QUOTE] + rest;
      assert t == EscapeUnit(s[0]) + t1;
      ReadEscapedUnit(s[0], t1);
      assert s == [s[0]] + s[1..];
    }
  }

  lemma ReadPlainUnit(u: CodeUnit, rest: Text)
    requires u != QUOTE && u != BACKSLASH
    ensures ReadUnit([u] + rest) == Some((u, rest))
  {
    assert ([u] + rest)[1..] == rest;
  }

  /** What may follow a printed value. */
  predicate Ends(rest: Text) {
    rest == [] || !Continues(rest[0])
  }

  lemma NumberHead(n: ValidNumber)
    requires n.IsFinite()
    ensures ToString(n)[0] == MINUS || IsDigit(ToString(n)[0])
  {
    hide Magnitude;
  }

  lemma ParsePrintedNumber(n: ValidNumber, rest: Text)
    requires n.IsFinite() && Ends(rest)
    ensures ParseValue(ToString(n) + rest) == Some((Num(n.Unsigned()), rest))
  {
    hide ToString, Read, ReadString;
    NumberHead(n);
    ReadToString(n, rest);
    var t := ToString(n) + rest;
    assert t[0] == ToString(n)[0];
    NotKeyword(t);
    assert ParseNumber(t) == Some((Num(n.Unsigned()), rest));
  }

  lemma ParsePrintedString(s: Text, rest: Text)
    ensures ParseValue(Quote(s) + rest) == Some((Str(s), rest))
  {
    hide ReadString, Escape;
    ReadEscaped(s, rest);
    var t := Quote(s) + rest;
    assert t[1..] == Escape(s) + [QUOTE] + rest;
    assert t[0] == QUOTE;
    NotKeyword(t);
  }

  lemma PrintHead(v: Json)
    requires Printable(v)
    ensures Print(v) != [] && Print(v)[0] != CLOSE_BRACKET
  {
    hide ToString, PrintItems, PrintMembers, SortedKeys, Escape;
    if v.Num? { NumberHead(v.n); }
  }

  lemma {:induction false} ParsePrinted(v: Json, rest: Text)
    requires Printable(v) && Ends(rest)
    ensures ParseValue(Print(v) + rest) == Some((Unsigned(v), rest))
    decreases v, 1, 0
  {
    hide ReadString, ParseNumber, ParseItems, ParseMembers, PrintItems, PrintMembers, SortedKeys, Quote, ToString;
    match v
    case Null => assert (NULL_TEXT + rest)[4..] == rest;
    case Bool(b) =>
      var t := Print(v) + rest;
      assert t[0] == if b then TRUE_TEXT[0] else FALSE_TEXT[0];
      assert (TRUE_TEXT + rest)[4..] == rest;
      assert (FALSE_TEXT + rest)[5..] == rest;
    case Num(n) => ParsePrintedNumber(n, rest);
    case Str(s) => ParsePrintedString(s, rest);
    case Arr(items) => ParsePrintedArray(v, rest);
    case Obj(members) => ParsePrintedObject(v, rest);
  }

  lemma NotKeyword(t: Text)
    requires t != [] && t[0] != NULL_TEXT[0] && t[0] != TRUE_TEXT[0] && t[0] != FALSE_TEXT[0]
    ensures !StartsWith(t, NULL_TEXT) && !StartsWith(t, TRUE_TEXT) && !StartsWith(t, FALSE_TEXT)
  {
  }

  lemma StartsWithOne(t: Text, u: CodeUnit)
    ensures StartsWith(t, [u]) <==> t != [] && t[0] == u
  {
    if StartsWith(t, [u]) { assert t[0] == [u][0]; }
  }

  lemma ParseArrayText(inner: Text)
    requires inner != [] && inner[0] != CLOSE_BRACKET && ParseItems(inner).Some?
    ensures ParseValue([OPEN_BRACKET] + inner) == Some((Arr(ParseItems(inner).value.0), ParseItems(inner).value.1))
  {
    hide ParseItems, ParseNumber, ReadString, ParseMembers, StartsWith;
    var t := [OPEN_BRACKET] + inner;
    assert t[1..] == inner;
    NotKeyword(t);
    StartsWithOne(inner, CLOSE_BRACKET);
  }

  lemma ParseObjectText(inner: Text)
    requires inner != [] && inner[0] != CLOSE_BRACE && ParseMembers(inner).Some?
    ensures ParseValue([OPEN_BRACE] + inner) == Some((Obj(ParseMembers(inner).value.0), ParseMembers(inner).value.1))
  {
    hide ParseItems, ParseNumber, ReadString, ParseMembers, StartsWith;
    var t := [OPEN_BRACE] + inner;
    assert t[1..] == inner;
    NotKeyword(t);
    StartsWithOne(inner, CLOSE_BRACE);
  }

  lemma ParseEmptyText(rest: Text)
    ensures ParseValue([OPEN_BRACKET, CLOSE_BRACKET] + rest) == Some((Arr([]), rest))
    ensures ParseValue([OPEN_BRACE, CLOSE_BRACE] + rest) == Some((Obj(map[]), rest))
  {
    hide ParseItems, ParseNumber, ReadString, ParseMembers, StartsWith;
    var a, o := [OPEN_BRACKET, CLOSE_BRACKET] + rest, [OPEN_BRACE, CLOSE_BRACE] + rest;
    NotKeyword(a);
    NotKeyword(o);
    StartsWithOne(a[1..], CLOSE_BRACKET);
    StartsWithOne(o[1..], CLOSE_BRACE);
    assert a[2..] == rest && o[2..] == rest;
  }

  lemma {:induction false} ParsePrintedArray(v: Json, rest: Text)
    requires v.Arr? && Printable(v)
    ensures ParseValue(Print(v) + rest) == Some((Unsigned(v), rest))
    decreases v, 0, |v.items| + 1
  {
    hide ReadString, ParseNumber, ParseItems, ParseMembers, SortedKeys, ToString, ParseValue;
    var t := Print(v) + rest;
    var inner := PrintItems(v, 0) + [CLOSE_BRACKET] + rest;
    assert t == [OPEN_BRACKET] + inner;
    if v.items == [] {
      assert PrintItems(v, 0) == [];
      assert t == [OPEN_BRACKET, CLOSE_BRACKET] + rest;
      assert Unsigned(v).items == [];
      ParseEmptyText(rest);
    } else {
      PrintHead(v.items[0]);
      assert inner[0] == Print(v.items[0])[0];
      ParsePrintedItems(v, 0, rest);
      assert Unsigned(v).items[0..] == Unsigned(v).items;
      ParseArrayText(inner);
    }
  }

  lemma {:induction false} ParsePrintedItems(v: Json, i: nat, rest: Text)
    requires v.Arr? && Printable(v) && i < |v.items|
    ensures ParseItems(PrintItems(v, i) + [CLOSE_BRACKET] + rest) == Some((Unsigned(v).items[i..], rest))
    decreases v, 0, |v.items| - i
  {
    hide ParseValue, Print;
    var t := PrintItems(v, i) + [CLOSE_BRACKET] + rest;
    var us := Unsigned(v).items;
    if i + 1 == |v.items| {
      var t1 := [CLOSE_BRACKET] + rest;
      assert t == Print(v.items[i]) + t1;
      ParsePrinted(v.items[i], t1);
      assert t1[1..] == rest;
      assert us[i..] == [us[i]];
    } else {
      var t2 := PrintItems(v, i + 1) + [CLOSE_BRACKET] + rest;
      var t1 := [COMMA] + t2;
      assert t == Print(v.items[i]) + t1;
      ParsePrinted(v.items[i], t1);
      ParsePrintedItems(v, i + 1, rest);
      assert t1[1..] == t2;
      assert us[i..] == [us[i]] + us[i + 1..];
    }
  }

  lemma {:induction false} ParsePrintedObject(v: Json, rest: Text)
    requires v.Obj? && Printable(v)
    ensures ParseValue(Print(v) + rest) == Some((Unsigned(v), rest))
    decreases v, 0, |v.members| + 2
  {
    hide ReadString, ParseNumber, ParseItems, ParseMembers, ToString, SortedKeys, Escape, ParseValue;
    var keys := SortedKeys(v.members.Keys);
    var t := Print(v) + rest;
    var inner := PrintMembers(v, keys) + [CLOSE_BRACE] + rest;
    assert t == [OPEN_BRACE] + inner;
    if keys == [] {
      assert t == [OPEN_BRACE, CLOSE_BRACE] + rest;
      assert v.members.Keys == {} by {
        assert forall k :: k in v.members.Keys ==> k in keys;
      }
      assert Unsigned(v).members == map[];
      ParseEmptyText(rest);
    } else {
      assert PrintMember(v, keys[0])[0] == QUOTE by { assert Quote(keys[0])[0] == QUOTE; }
      assert inner[0] == QUOTE;
      SortedLength(keys, v.members.Keys);
      ParsePrintedMembers(v, keys, rest);
      assert Unsigned(v).members == UnsignedOn(v, keys);
      ParseObjectText(inner);
    }
  }

  lemma {:induction false} SortedLength(keys: seq<Text>, s: set<Text>)
    requires Sorted(keys)
    requires forall k :: k in keys <==> k in s
    ensures |keys| == |s|
  {
    if keys == [] {
      assert s == {};
    } else {
      SortedHeadNotInTail(keys);
      var tail := keys[1..];
      assert keys == [keys[0]] + tail;
      forall k ensures k in tail <==> k in s - {keys[0]} {
        assert k in keys <==> k == keys[0] || k in tail;
      }
      SortedLength(tail, s - {keys[0]});
    }
  }

  ghost function UnsignedOn(v: Json, keys: seq<Text>): map<Text, Json>
    requires v.Obj? && forall k :: k in keys ==> k in v.members
  {
    map k | k in keys :: Unsigned(v.members[k])
  }

  lemma ParsePrintedMember(v: Json, k: Text, rest: Text)
    requires v.Obj? && Printable(v) && k in v.members && Ends(rest)
    ensures ParseMember(PrintMember(v, k) + rest) == Some(((k, Unsigned(v.members[k])), rest))
    decreases v, 0, 0
  {
    hide ParseValue, Print, ReadString, Escape;
    var value := Print(v.members[k]) + rest;
    var t := PrintMember(v, k) + rest;
    assert t == [QUOTE] + (Escape(k) + [QUOTE] + ([COLON] + value));
    assert t[1..] == Escape(k) + [QUOTE] + ([COLON] + value);
    ReadEscaped(k, [COLON] + value);
    assert ([COLON] + value)[1..] == value;
    ParsePrinted(v.members[k], rest);
  }

  lemma {:induction false} ParsePrintedMembers(v: Json, keys: seq<Text>, rest: Text)
    requires v.Obj? && Printable(v) && keys != []
    requires forall k :: k in keys ==> k in v.members
    ensures ParseMembers(PrintMembers(v, keys) + [CLOSE_BRACE] + rest) == Some((UnsignedOn(v, keys), rest))
    decreases v, 0, |keys|
  {
    hide ParseMember, PrintMember;
    var t := PrintMembers(v, keys) + [CLOSE_BRACE] + rest;
    var k := keys[0];
    if |keys| == 1 {
      var t1 := [CLOSE_BRACE] + rest;
      assert t == PrintMember(v, k) + t1;
      ParsePrintedMember(v, k, t1);
      assert t1[1..] == rest;
      assert keys == [k];
      assert UnsignedOn(v, keys) == map[k := Unsigned(v.members[k])];
    } else {
      var tail := keys[1..];
      var t2 := PrintMembers(v, tail) + [CLOSE_BRACE] + rest;
      var t1 := [COMMA] + t2;
      assert t == PrintMember(v, k) + t1;
      ParsePrintedMember(v, k, t1);
      ParsePrintedMembers(v, tail, rest);
      assert t1[1..] == t2;
      assert keys == [k] + tail;
      assert UnsignedOn(v, keys) == UnsignedOn(v, tail)[k := Unsigned(v.members[k])];
    }
  }

  // ---- Main results ----

  lemma {:induction false} PrintUnsigned(v: Json)
    ensures Printable(Unsigned(v)) <==> Printable(v)
    ensures Printable(v) ==> Print(Unsigned(v)) == Print(v)
    decreases v, 1
  {
    hide PrintItems, PrintMembers, SortedKeys, Quote, Magnitude;
    var u := Unsigned(v);
    match v
    case Arr(items) =>
      forall i | 0 <= i < |items| ensures Printable(u.items[i]) <==> Printable(items[i]) {
        PrintUnsigned(items[i]);
      }
      if Printable(v) { PrintUnsignedItems(v, 0); }
    case Obj(members) =>
      forall k | k in members ensures Printable(u.members[k]) <==> Printable(members[k]) {
        PrintUnsigned(members[k]);
      }
      if Printable(v) {
        assert u.members.Keys == members.Keys;
        PrintUnsignedMembers(v, SortedKeys(members.Keys));
      }
    case _ =>
  }

  lemma {:induction false} PrintUnsignedItems(v: Json, i: nat)
    requires v.Arr? && Printable(v) && Printable(Unsigned(v)) && i <= |v.items|
    ensures PrintItems(Unsigned(v), i) == PrintItems(v, i)
    decreases v, 0, |v.items| - i
  {
    hide Print;
    if i < |v.items| {
      PrintUnsigned(v.items[i]);
      PrintUnsignedItems(v, i + 1);
    }
  }

  lemma {:induction false} PrintUnsignedMembers(v: Json, keys: seq<Text>)
    requires v.Obj? && Printable(v) && Printable(Unsigned(v)) && forall k :: k in keys ==> k in v.members
    ensures PrintMembers(Unsigned(v), keys) == PrintMembers(v, keys)
    decreases v, 0, |keys|
  {
    hide Print, Quote;
    if keys != [] {
      PrintUnsigned(v.members[keys[0]]);
      PrintUnsignedMembers(v, keys[1..]);
    }
  }

  /**
   * Two values print the same text exactly when they are the same value, member
   * order and the sign of zero aside.
   */
  lemma CanonicalIsInjective(a: Json, b: Json)
    requires Canonical(a).Some? && Canonical(b).Some?
    ensures Canonical(a) == Canonical(b) <==> Unsigned(a) == Unsigned(b)
  {
    hide Print, ParseValue, Unsigned;
    ParsePrinted(a, []);
    ParsePrinted(b, []);
    assert Print(a) + [] == Print(a) && Print(b) + [] == Print(b);
    PrintUnsigned(a);
    PrintUnsigned(b);
  }

  /** The digest input determines the value: parsing gives back all of it but the sign of zeros. */
  lemma CanonicalRoundTrip(v: Json)
    requires Canonical(v).Some?
    ensures ParseValue(Canonical(v).value) == Some((Unsigned(v), []))
  {
    hide Print, ParseValue, Unsigned;
    ParsePrinted(v, []);
    assert Print(v) + [] == Print(v);
  }

  // ---- The loops of the printer ----

  function Join(parts: seq<Text>): Text {
    if parts == [] then [] else parts[0] + if |parts| == 1 then [] else [COMMA] + Join(parts[1..])
  }

  lemma {:induction false} JoinItems(v: Json, parts: seq<Text>, i: nat)
    requires v.Arr? && Printable(v) && i <= |v.items| == |parts|
    requires forall j :: 0 <= j < |parts| ==> parts[j] == Print(v.items[j])
    ensures Join(parts[i..]) == PrintItems(v, i)
    decreases |parts| - i
  {
    hide Print;
    if i < |parts| {
      assert parts[i..][1..] == parts[i + 1..];
      JoinItems(v, parts, i + 1);
    }
  }

  lemma {:induction false} JoinMembers(v: Json, parts: seq<Text>, keys: seq<Text>)
    requires v.Obj? && Printable(v) && |parts| == |keys|
    requires forall k :: k in keys ==> k in v.members
    requires forall j :: 0 <= j < |keys| ==> parts[j] == PrintMember(v, keys[j])
    ensures Join(parts) == PrintMembers(v, keys)
  {
    hide PrintMember;
    if keys != [] {
      JoinMembers(v, parts[1..], keys[1..]);
    }
  }

  method LeastKey(s: set<Text>) returns (least: Text)
    requires s != {}
    ensures IsLeast(least, s)
  {
    least :| least in s;
    var rest := s - {least};
    while rest != {}
      invariant rest <= s && least in s && least !in rest
      invariant forall o :: o in s && o !in rest && o != least ==> Before(least, o)
      decreases rest
    {
      var k :| k in rest;
      BeforeIsTotal(k, least);
      if Before(k, least) {
        forall o | o in s && o !in rest && o != least ensures Before(k, o) {
          BeforeIsTransitive(k, least, o);
        }
        least := k;
      }
      rest := rest - {k};
    }
  }

  /** `Object.keys(value).sort()`. */
  method SortKeys(s: set<Text>) returns (keys: seq<Text>)
    ensures keys == SortedKeys(s)
  {
    keys := [];
    var rest := s;
    while rest != {}
      invariant rest <= s
      invariant Sorted(keys)
      invariant forall k :: k in keys <==> k in s && k !in rest
      invariant forall i, k :: 0 <= i < |keys| && k in rest ==> Before(keys[i], k)
      decreases rest
    {
      var k := LeastKey(rest);
      keys := keys + [k];
      rest := rest - {k};
    }
    SortedIsUnique(keys, SortedKeys(s));
  }

  /** `canonicalJson`: sorted members pushed one at a time, refused as soon as one has no form. */
  method CanonicalText(v: Json) returns (r: Option<Text>)
    ensures r == Canonical(v)
    decreases v
  {
    match v
    case Undefined => r := None;
    case Null => r := Some(NULL_TEXT);
    case Bool(b) => r := Some(if b then TRUE_TEXT else FALSE_TEXT);
    case Num(n) => r := if n.IsFinite() then Some(ToString(n)) else None;
    case Str(s) => r := if HasLoneSurrogate(s) then None else Some(Quote(s));
    case Arr(items) => r := CanonicalArray(v);
    case Obj(members) => r := CanonicalObject(v);
  }

  method CanonicalArray(v: Json) returns (r: Option<Text>)
    requires v.Arr?
    ensures r == Canonical(v)
    decreases v, 0
  {
    hide Print;
    var parts: seq<Text> := [];
    for i := 0 to |v.items|
      invariant |parts| == i
      invariant forall j :: 0 <= j < i ==> Printable(v.items[j]) && parts[j] == Print(v.items[j])
    {
      var part := CanonicalText(v.items[i]);
      if part.None? { return None; }
      parts := parts + [part.value];
    }
    JoinItems(v, parts, 0);
    assert parts[0..] == parts;
    PrintArray(v);
    r := Some([OPEN_BRACKET] + Join(parts) + [CLOSE_BRACKET]);
  }

  method CanonicalObject(v: Json) returns (r: Option<Text>)
    requires v.Obj?
    ensures r == Canonical(v)
    decreases v, 0
  {
    hide Print, PrintMembers, SortedKeys, Quote;
    var keys := SortKeys(v.members.Keys);
    var parts: seq<Text> := [];
    for i := 0 to |keys|
      invariant |parts| == i
      invariant forall j :: 0 <= j < i ==> Printable(v.members[keys[j]]) && !HasLoneSurrogate(keys[j])
      invariant forall j :: 0 <= j < i ==> parts[j] == Quote(keys[j]) + [COLON] + Print(v.members[keys[j]])
    {
      assert keys[i] in v.members.Keys;
      var member := CanonicalText(v.members[keys[i]]);
      if member.None? || HasLoneSurrogate(keys[i]) { return None; }
      parts := parts + [Quote(keys[i]) + [COLON] + member.value];
    }
    forall k | k in v.members ensures !HasLoneSurrogate(k) && Printable(v.members[k]) {
      assert k in keys;
    }
    JoinMembers(v, parts, keys);
    PrintObject(v);
    r := Some([OPEN_BRACE] + Join(parts) + [CLOSE_BRACE]);
  }

  lemma PrintArray(v: Json)
    requires v.Arr? && Printable(v)
    ensures Print(v) == [OPEN_BRACKET] + PrintItems(v, 0) + [CLOSE_BRACKET]
  {
  }

  lemma PrintObject(v: Json)
    requires v.Obj? && Printable(v)
    ensures Print(v) == [OPEN_BRACE] + PrintMembers(v, SortedKeys(v.members.Keys)) + [CLOSE_BRACE]
  {
  }
}
