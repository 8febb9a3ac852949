/** The base58 length checks on Solana keys, Solana signatures and NEAR transaction hashes. */
module Base58 {
  import opened Positional
  import opened Text

  /** A base58 string as the alphabet positions of its characters; '1' is position 0. */
  type Base58Text = ds: seq<nat> | DigitsIn(ds, 58) witness []

  type Bytes = bs: seq<nat> | DigitsIn(bs, 256) witness []

  /** The reference encoding: each leading zero byte is a '1', the rest is one number. */
  function Encode(bytes: Bytes): Base58Text {
    var z := LeadingZeros(bytes);
    Zeros(z) + Digits(Value(bytes, 256), 58)
  }

  /** `Math.ceil(n.toString(16).length / 2)`, or 0 for zero. */
  function HexBytes(n: nat): nat {
    if n == 0 then 0 else (|Digits(n, 16)| + 1) / 2
  }

  function ByteLength(text: Base58Text): nat {
    LeadingZeros(text) + HexBytes(Value(text, 58))
  }

  // ---- The alphabet ----

  /** `BASE58_ALPHABET.indexOf(char)`: no 0, O, I or l. */
  function Position(u: CodeUnit): (p: int)
    ensures -1 <= p < 58
  {
    if 0x31 <= u <= 0x39 then u - 0x31
    else if 0x41 <= u <= 0x48 then u - 0x41 + 9
    else if 0x4A <= u <= 0x4E then u - 0x4A + 17
    else if 0x50 <= u <= 0x5A then u - 0x50 + 22
    else if 0x61 <= u <= 0x6B then u - 0x61 + 33
    else if 0x6D <= u <= 0x7A then u - 0x6D + 44
    else -1
  }

  function Character(p: nat): (u: CodeUnit)
    requires p < 58
    ensures Position(u) == p
  {
    if p < 9 then 0x31 + p
    else if p < 17 then 0x41 + p - 9
    else if p < 22 then 0x4A + p - 17
    else if p < 33 then 0x50 + p - 22
    else if p < 44 then 0x61 + p - 33
    else 0x6D + p - 44
  }

  predicate InAlphabet(t: Text) {
    forall i :: 0 <= i < |t| ==> Position(t[i]) >= 0
  }

  function Positions(t: Text): (ds: Base58Text)
    requires InAlphabet(t)
    ensures |ds| == |t|
    ensures forall i :: 0 <= i < |ds| ==> ds[i] == Position(t[i])
  {
    if t == [] then [] else [Position(t[0])] + Positions(t[1..])
  }

  function Characters(ds: Base58Text): (t: Text)
    ensures |t| == |ds|
    ensures forall i :: 0 <= i < |t| ==> t[i] == Character(ds[i])
    ensures InAlphabet(t)
  {
    if ds == [] then [] else [Character(ds[0])] + Characters(ds[1..])
  }

  lemma CharacterOf(u: CodeUnit)
    ensures Position(u) >= 0 ==> Character(Position(u)) == u
  {
  }

  lemma CharactersPositions(t: Text)
    requires InAlphabet(t)
    ensures Characters(Positions(t)) == t
  {
    hide Position, Character, Positions, Characters;
    forall i | 0 <= i < |t| ensures Characters(Positions(t))[i] == t[i] {
      CharacterOf(t[i]);
    }
  }

  lemma PositionsCharacters(ds: Base58Text)
    ensures Positions(Characters(ds)) == ds
  {
    hide Position, Character, Positions, Characters;
  }

  /** The base58 text of a byte array. */
  function EncodeText(bytes: Bytes): Text {
    Characters(Encode(bytes))
  }

  // ---- The checks ----

  /** `base58ByteLength`: the loop over the characters, then the leading ones. */
  method Base58ByteLength(t: Text) returns (length: nat)
    requires InAlphabet(t)
    ensures length == ByteLength(Positions(t))
  {
    var text := Positions(t);
    var n := 0;
    for i := 0 to |t|
      invariant n == Value(text[..i], 58)
    {
      ValueOfSnoc(text[..i], text[i], 58);
      assert text[..i] + [text[i]] == text[..i + 1];
      n := n * 58 + Position(t[i]);
    }
    assert text[..|t|] == text;
    length := LeadingZeros(text) + HexBytes(n);
  }

  /** The pattern and length test of a check that accepts `size` bytes. */
  predicate Passes(t: Text, least: nat, most: nat, size: nat) {
    least <= |t| <= most && InAlphabet(t) && ByteLength(Positions(t)) == size
  }

  predicate IsSolanaAddress(t: Text) {
    Passes(t, 32, 44, 32)
  }

  predicate IsSolanaSignature(t: Text) {
    Passes(t, 64, 88, 64)
  }

  predicate IsNearTransactionHash(t: Text) {
    Passes(t, 32, 44, 32)
  }

  /** Two hexadecimal digits a byte. */
  lemma {:induction false} HexBytesIsByteCount(n: nat)
    ensures HexBytes(n) == |Digits(n, 256)|
  {
    if n >= 256 {
      HexBytesIsByteCount(n / 256);
      assert n / 16 / 16 == n / 256;
      assert |Digits(n, 16)| == |Digits(n / 256, 16)| + 2;
    } else if n > 0 {
      assert n / 256 == 0 && n / 16 / 16 == 0;
      assert |Digits(n, 16)| == 1 + |Digits(n / 16, 16)| <= 2;
    }
  }

  /** Encoding keeps the leading zeros and the number. */
  lemma EncodeKeeps(bytes: Bytes)
    ensures LeadingZeros(Encode(bytes)) == LeadingZeros(bytes)
    ensures Value(Encode(bytes), 58) == Value(bytes, 256)
  {
    var z, n := LeadingZeros(bytes), Value(bytes, 256);
    LeadingZerosOf(z, Digits(n, 58));
    ValueSkipsZeros(z, Digits(n, 58), 58);
    ValueOfDigits(n, 58);
  }

  lemma EncodedByteLength(bytes: Bytes)
    ensures ByteLength(Encode(bytes)) == |bytes|
  {
    EncodeKeeps(bytes);
    HexBytesIsByteCount(Value(bytes, 256));
    DigitsDropZeros(bytes, 256);
  }

  /** The bytes a base58 string stands for. */
  function Decode(text: Base58Text): Bytes {
    Zeros(LeadingZeros(text)) + Digits(Value(text, 58), 256)
  }

  lemma DecodedLength(text: Base58Text)
    ensures |Decode(text)| == ByteLength(text)
  {
    HexBytesIsByteCount(Value(text, 58));
  }

  lemma EncodeDecode(text: Base58Text)
    ensures Encode(Decode(text)) == text
  {
    var z, n := LeadingZeros(text), Value(text, 58);
    LeadingZerosOf(z, Digits(n, 256));
    ValueSkipsZeros(z, Digits(n, 256), 256);
    ValueOfDigits(n, 256);
    DigitsDropZeros(text, 58);
    assert text == Zeros(z) + text[z..];
  }

  lemma DecodeEncode(bytes: Bytes)
    ensures Decode(Encode(bytes)) == bytes
  {
    EncodeKeeps(bytes);
    DigitsDropZeros(bytes, 256);
    assert bytes == Zeros(LeadingZeros(bytes)) + bytes[LeadingZeros(bytes)..];
  }

  lemma Literals()
    ensures Pow(256, 32) < Pow(58, 44)
    ensures Pow(256, 64) < Pow(58, 88)
  {
    hide Pow;
    SmallPowers();
    PowAdd(256, 8, 8);
    PowAdd(58, 5, 6);
    PowAdd(58, 11, 11);
    assert Pow(256, 16) < Pow(58, 22);
    PowAdd(256, 16, 16);
    PowAdd(58, 22, 22);
    SquaresKeepOrder(Pow(256, 16), Pow(58, 22));
    PowAdd(256, 32, 32);
    PowAdd(58, 44, 44);
    SquaresKeepOrder(Pow(256, 32), Pow(58, 44));
  }

  lemma SquaresKeepOrder(a: nat, b: nat)
    requires a < b
    ensures a * a < b * b
  {
    Monotone(a, b, a);
    Monotone(a, b, b);
    assert b * b - a * b == (b - a) * b;
  }

  lemma SmallPowers()
    ensures Pow(256, 8) == 18446744073709551616
    ensures Pow(58, 5) == 656356768
    ensures Pow(58, 6) == 38068692544
  {
    SmallPowersOf256();
    SmallPowersOf58();
  }

  lemma SmallPowersOf256()
    ensures Pow(256, 8) == 18446744073709551616
  {
    assert Pow(256, 2) == 65536;
    PowAdd(256, 2, 2);
    PowAdd(256, 4, 4);
  }

  lemma SmallPowersOf58()
    ensures Pow(58, 5) == 656356768
    ensures Pow(58, 6) == 38068692544
  {
    assert Pow(58, 2) == 3364;
    assert Pow(58, 3) == 195112;
    PowAdd(58, 3, 2);
    PowAdd(58, 3, 3);
  }

  /** A product stays larger when both factors are. */
  lemma ProductsKeepOrder(a: nat, b: nat, c: nat, d: nat)
    requires a > b && c >= d && d > 0
    ensures a * c > b * d
  {
    Monotone(b + 1, a, c);
    Monotone(d, c, b);
    assert (b + 1) * c == b * c + c;
  }

  /** `extra` spare characters for `size` bytes are enough for fewer bytes too. */
  lemma {:induction false} SpareCharacters(size: nat, extra: nat, k: nat)
    requires k <= size
    requires Pow(256, size) <= Pow(58, size + extra)
    ensures Pow(256, k) <= Pow(58, k + extra)
  {
    hide Pow;
    var d := size - k;
    PowAdd(256, k, d);
    PowAdd(58, k + extra, d);
    PowMonotone(58, 256, d);
    PowPositive(58, d);
    assert k + d == size && k + extra + d == size + extra;
    if Pow(256, k) > Pow(58, k + extra) {
      ProductsKeepOrder(Pow(256, k), Pow(58, k + extra), Pow(256, d), Pow(58, d));
      assert false;
    }
  }

  /** An encoding is at least as long as its bytes and at most `extra` longer. */
  lemma EncodedLengthBounds(bytes: Bytes, extra: nat)
    requires Pow(256, |bytes|) <= Pow(58, |bytes| + extra)
    ensures |bytes| <= |Encode(bytes)| <= |bytes| + extra
  {
    hide Pow, Digits, Value;
    var z, n := LeadingZeros(bytes), Value(bytes, 256);
    var k := |bytes| - z;
    DigitsDropZeros(bytes, 256);
    DigitsFit(n, 256, k);
    SpareCharacters(|bytes|, extra, k);
    DigitsFit(n, 58, k + extra);
    if |Digits(n, 58)| < k {
      DigitsFit(n, 58, k - 1);
      PowMonotone(58, 256, k - 1);
      DigitsFit(n, 256, k - 1);
    }
  }

  lemma PassingTextDecodes(t: Text, least: nat, most: nat, size: nat)
    requires Passes(t, least, most, size)
    ensures |Decode(Positions(t))| == size && EncodeText(Decode(Positions(t))) == t
  {
    hide Decode, Encode, ByteLength, Positions;
    DecodedLength(Positions(t));
    EncodeDecode(Positions(t));
    CharactersPositions(t);
  }

  lemma EncodedTextPasses(bytes: Bytes, extra: nat)
    requires Pow(256, |bytes|) <= Pow(58, |bytes| + extra)
    ensures Passes(EncodeText(bytes), |bytes|, |bytes| + extra, |bytes|)
  {
    hide Encode, ByteLength, Positions;
    PositionsCharacters(Encode(bytes));
    EncodedByteLength(bytes);
    EncodedLengthBounds(bytes, extra);
  }

  lemma PassesIffEncodes(t: Text, size: nat, extra: nat)
    requires Pow(256, size) <= Pow(58, size + extra)
    ensures Passes(t, size, size + extra, size) <==> exists bytes: Bytes :: |bytes| == size && EncodeText(bytes) == t
  {
    hide *;
    if Passes(t, size, size + extra, size) {
      PassingTextDecodes(t, size, size + extra, size);
    }
    forall bytes: Bytes | |bytes| == size && EncodeText(bytes) == t
      ensures Passes(t, size, size + extra, size)
    {
      EncodedTextPasses(bytes, extra);
    }
  }

  /** The checks accept exactly the base58 encodings of 32 and of 64 bytes. */
  lemma ChecksAcceptExactlyEncodings(t: Text)
    ensures IsSolanaAddress(t) <==> exists bytes: Bytes :: |bytes| == 32 && EncodeText(bytes) == t
    ensures IsNearTransactionHash(t) <==> exists bytes: Bytes :: |bytes| == 32 && EncodeText(bytes) == t
    ensures IsSolanaSignature(t) <==> exists bytes: Bytes :: |bytes| == 64 && EncodeText(bytes) == t
  {
    hide Pow, Passes, EncodeText;
    Literals();
    PassesIffEncodes(t, 32, 12);
    PassesIffEncodes(t, 64, 24);
  }

  /** Two byte arrays never share a base58 text. */
  lemma EncodingIsInjective(a: Bytes, b: Bytes)
    requires EncodeText(a) == EncodeText(b)
    ensures a == b
  {
    PositionsCharacters(Encode(a));
    PositionsCharacters(Encode(b));
    DecodeEncode(a);
    DecodeEncode(b);
  }
}
