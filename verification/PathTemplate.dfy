/** The one `{param}` grammar of `backend.url` templates. */
module PathTemplate {
  import opened Text

  const OPEN: CodeUnit := 0x7B
  const CLOSE: CodeUnit := 0x7D

  datatype Token = Literal(unit: CodeUnit) | Parameter(name: Text)

  /** Letters, digits and `_ . -`. */
  predicate IsNameUnit(u: CodeUnit) {
    || 0x30 <= u <= 0x39
    || 0x41 <= u <= 0x5A
    || 0x61 <= u <= 0x7A
    || u in {0x5F, 0x2E, 0x2D}
  }

  predicate IsName(t: Text) {
    t != [] && forall i :: 0 <= i < |t| ==> IsNameUnit(t[i])
  }

  function NameRun(t: Text): (n: nat)
    ensures n <= |t|
    ensures forall i :: 0 <= i < n ==> IsNameUnit(t[i])
    ensures n < |t| ==> !IsNameUnit(t[n])
  {
    if t == [] || !IsNameUnit(t[0]) then 0 else 1 + NameRun(t[1..])
  }

  /** Length of the name of a parameter that starts here; 0 when none does. */
  function MatchAt(t: Text): (n: nat)
    ensures n > 0 ==> n + 2 <= |t| && t[0] == OPEN && IsName(t[1..n + 1]) && t[n + 1] == CLOSE
  {
    if t == [] || t[0] != OPEN then 0
    else
      var n := NameRun(t[1..]);
      if n + 1 < |t| && t[n + 1] == CLOSE then n else 0
  }

  /** Every leftmost match of the pattern, and the units around them. */
  function Parse(t: Text): (ts: seq<Token>)
    ensures forall i :: 0 <= i < |ts| ==> ts[i].Parameter? ==> IsName(ts[i].name)
  {
    if t == [] then []
    else
      var n := MatchAt(t);
      if n > 0 then [Parameter(t[1..n + 1])] + Parse(t[n + 2..]) else [Literal(t[0])] + Parse(t[1..])
  }

  function TokenText(t: Token): Text {
    match t
    case Literal(u) => [u]
    case Parameter(name) => [OPEN] + name + [CLOSE]
  }

  function Source(ts: seq<Token>): Text {
    if ts == [] then [] else TokenText(ts[0]) + Source(ts[1..])
  }

  /** `extractPathParameterNames`. */
  function Names(ts: seq<Token>): (names: seq<Text>)
    ensures forall k :: k in names <==> Parameter(k) in ts
  {
    if ts == [] then []
    else
      assert forall k :: Parameter(k) in ts <==> Parameter(k) == ts[0] || Parameter(k) in ts[1..];
      (if ts[0].Parameter? then [ts[0].name] else []) + Names(ts[1..])
  }

  lemma SourceOfCons(t: Token, ts: seq<Token>)
    ensures Source([t] + ts) == TokenText(t) + Source(ts)
  {
    assert ([t] + ts)[1..] == ts;
  }

  lemma MatchSplits(t: Text)
    requires MatchAt(t) > 0
    ensures t == [OPEN] + t[1..MatchAt(t) + 1] + [CLOSE] + t[MatchAt(t) + 2..]
  {
  }

  /** Parsing loses nothing. */
  lemma {:induction false} SourceOfParse(t: Text)
    ensures Source(Parse(t)) == t
  {
    hide MatchAt, Source;
    if t == [] {
      assert Parse(t) == [];
      SourceOfNothing();
    } else {
      var n := MatchAt(t);
      if n > 0 {
        SourceOfParse(t[n + 2..]);
        MatchSplits(t);
        SourceOfCons(Parameter(t[1..n + 1]), Parse(t[n + 2..]));
      } else {
        SourceOfParse(t[1..]);
        SourceOfCons(Literal(t[0]), Parse(t[1..]));
      }
    }
  }

  lemma SourceOfNothing()
    ensures Source([]) == []
  {
  }

  /** No literal brace opens something that reads as a parameter. */
  ghost predicate Readable(ts: seq<Token>) {
    ts != [] ==>
      && (if ts[0].Parameter? then IsName(ts[0].name) else MatchAt(Source(ts)) == 0)
      && Readable(ts[1..])
  }

  lemma {:induction false} NameRunOf(name: Text, rest: Text)
    requires forall i :: 0 <= i < |name| ==> IsNameUnit(name[i])
    requires rest != [] && !IsNameUnit(rest[0])
    ensures NameRun(name + rest) == |name|
  {
    if name == [] {
      assert name + rest == rest;
    } else {
      assert (name + rest)[1..] == name[1..] + rest;
      NameRunOf(name[1..], rest);
    }
  }

  lemma MatchParameter(name: Text, rest: Text)
    requires IsName(name)
    ensures var t := [OPEN] + name + [CLOSE] + rest;
            MatchAt(t) == |name| && t[1..|name| + 1] == name && t[|name| + 2..] == rest
  {
    var t := [OPEN] + name + [CLOSE] + rest;
    assert t[1..] == name + ([CLOSE] + rest);
    NameRunOf(name, [CLOSE] + rest);
  }

  lemma ParseStep(t: Text)
    requires t != []
    ensures Parse(t) == if MatchAt(t) > 0 then [Parameter(t[1..MatchAt(t) + 1])] + Parse(t[MatchAt(t) + 2..])
                        else [Literal(t[0])] + Parse(t[1..])
  {
    hide MatchAt;
  }

  /** Parsing reads back exactly the parameters a template was written with. */
  lemma {:induction false} ParseOfSource(ts: seq<Token>)
    requires Readable(ts)
    ensures Parse(Source(ts)) == ts
  {
    hide MatchAt, Parse;
    if ts == [] {
      assert Parse([]) == [] by { ParseNothing(); }
    } else {
      var rest := Source(ts[1..]);
      ParseOfSource(ts[1..]);
      assert ts == [ts[0]] + ts[1..];
      assert Source(ts) == TokenText(ts[0]) + rest;
      ParseStep(Source(ts));
      if ts[0].Parameter? {
        MatchParameter(ts[0].name, rest);
      } else {
        assert Source(ts)[1..] == rest;
      }
    }
  }

  lemma ParseNothing()
    ensures Parse([]) == []
  {
  }

  predicate IsBrace(u: CodeUnit) {
    u == OPEN || u == CLOSE
  }

  /** `findUnparsedBraceToken` finds something. */
  predicate HasStrayBrace(ts: seq<Token>) {
    exists i :: 0 <= i < |ts| && ts[i].Literal? && IsBrace(ts[i].unit)
  }

  ghost predicate Braceless(t: Text) {
    forall i :: 0 <= i < |t| ==> !IsBrace(t[i])
  }

  lemma NoMatch(t: Text)
    requires t != [] && t[0] != OPEN
    ensures MatchAt(t) == 0
  {
  }

  /** A stretch where nothing opens is all literal, whatever follows. */
  lemma {:induction false} ParseUnopened(a: Text, b: Text)
    requires OPEN !in a
    ensures Parse(a + b) == Parse(a) + Parse(b)
    ensures |Parse(a)| == |a| && forall i :: 0 <= i < |a| ==> Parse(a)[i] == Literal(a[i])
  {
    hide MatchAt, Parse;
    if a == [] {
      assert a + b == b;
      ParseNothing();
    } else {
      assert a[0] in a && forall u :: u in a[1..] ==> u in a;
      assert (a + b)[1..] == a[1..] + b;
      ParseUnopened(a[1..], b);
      NoMatch(a);
      NoMatch(a + b);
      ParseStep(a);
      ParseStep(a + b);
    }
  }

  lemma {:induction false} NamesConcat(a: seq<Token>, b: seq<Token>)
    ensures Names(a + b) == Names(a) + Names(b)
  {
    if a == [] {
      assert a + b == b;
    } else {
      assert (a + b)[1..] == a[1..] + b;
      NamesConcat(a[1..], b);
    }
  }

  /** Literal text before the first brace holds no parameter. */
  lemma NoOpenBrace(a: Text, b: Text)
    requires OPEN !in a
    ensures Names(Parse(a + b)) == Names(Parse(b))
  {
    hide Parse;
    ParseUnopened(a, b);
    NamesConcat(Parse(a), Parse(b));
    LiteralsHaveNoNames(Parse(a));
  }

  lemma {:induction false} LiteralsHaveNoNames(ts: seq<Token>)
    requires forall i :: 0 <= i < |ts| ==> ts[i].Literal?
    ensures Names(ts) == []
  {
    if ts != [] { LiteralsHaveNoNames(ts[1..]); }
  }
}
