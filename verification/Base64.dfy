/** Base64 with the standard alphabet, section 4 of RFC 4648. Encoding pads; decoding also takes
    texts whose padding is missing or incomplete, and ignores unused bits of the last symbol. */
module Base64 {
  import opened Wrappers
  import opened Text

  type Sextet = v: int | 0 <= v < 64

  const PAD: Byte := 61

  function Symbol(v: Sextet): (b: Byte)
    ensures Value(b) == Some(v) && b != PAD
  {
    if v < 26 then 65 + v
    else if v < 52 then 71 + v
    else if v < 62 then v - 4
    else if v == 62 then 43
    else 47
  }

  function Value(b: Byte): Option<Sextet> {
    if 65 <= b <= 90 then Some(b - 65)
    else if 97 <= b <= 122 then Some(b - 71)
    else if 48 <= b <= 57 then Some(b + 4)
    else if b == 43 then Some(62)
    else if b == 47 then Some(63)
    else None
  }

  /** The alphabet of table 1. */
  lemma SymbolsAreTable1(v: Sextet)
    ensures v < 26 ==> Symbol(v) == "ABCDEFGHIJKLMNOPQRSTUVWXYZ"[v] as int
    ensures 26 <= v < 52 ==> Symbol(v) == "abcdefghijklmnopqrstuvwxyz"[v - 26] as int
    ensures 52 <= v ==> Symbol(v) == "0123456789+/"[v - 52] as int
  {
  }

  lemma ValueThenSymbol(b: Byte)
    requires Value(b).Some?
    ensures Symbol(Value(b).value) == b
  {
  }

  // ---------------------------------------------------------------------------
  // One group: three bytes are four sextets
  // ---------------------------------------------------------------------------

  datatype Bytes = Bytes(x: Byte, y: Byte, z: Byte)
  datatype Sextets = Sextets(p: Sextet, q: Sextet, r: Sextet, t: Sextet)

  function Split(b: Bytes): (s: Sextets)
    ensures Join(s) == b
  {
    var x: int, y: int, z: int := b.x, b.y, b.z;
    Sextets(x / 4, x % 4 * 16 + y / 16, y % 16 * 4 + z / 64, z % 64)
  }

  function Join(s: Sextets): Bytes {
    var p: int, q: int, r: int, t: int := s.p, s.q, s.r, s.t;
    Bytes(p * 4 + q / 16, q % 16 * 16 + r / 4, r % 4 * 64 + t)
  }

  lemma JoinThenSplit(s: Sextets)
    ensures Split(Join(s)) == s
  {
    var p: int, q: int, r: int, t: int := s.p, s.q, s.r, s.t;
    var b := Join(s);
    assert b.x / 4 == p && b.x % 4 == q / 16;
    assert b.y / 16 == q % 16 && b.y % 16 == r / 4;
    assert b.z / 64 == r % 4 && b.z % 64 == t;
  }

  // ---------------------------------------------------------------------------
  // Texts
  // ---------------------------------------------------------------------------

  function Quad(s: Sextets): (text: Str)
    ensures |text| == 4
    ensures forall i :: 0 <= i < 4 ==> text[i] != PAD
  {
    [Symbol(s.p), Symbol(s.q), Symbol(s.r), Symbol(s.t)]
  }

  /** The four sextets of a group without padding. */
  function Unquad(text: Str): (s: Option<Sextets>)
    requires |text| == 4
    ensures s.Some? ==> Quad(s.value) == text
  {
    match (Value(text[0]), Value(text[1]), Value(text[2]), Value(text[3]))
    case (Some(p), Some(q), Some(r), Some(t)) =>
      ValueThenSymbol(text[0]); ValueThenSymbol(text[1]); ValueThenSymbol(text[2]); ValueThenSymbol(text[3]);
      Some(Sextets(p, q, r, t))
    case _ => None
  }

  /** Three bytes become four symbols; a last group of one or two bytes is padded. */
  function Encode(b: Str): (text: Str)
    ensures |text| == (|b| + 2) / 3 * 4
  {
    if b == [] then []
    else if |b| < 3 then Padded(b)
    else
      assert (|b| - 3 + 2) / 3 + 1 == (|b| + 2) / 3;
      Quad(Split(Bytes(b[0], b[1], b[2]))) + Encode(b[3..])
  }

  function Padded(b: Str): (text: Str)
    requires 1 <= |b| <= 2
    ensures |text| == 4 && text[3] == PAD
  {
    if |b| == 1 then
      var s := Split(Bytes(b[0], 0, 0));
      [Symbol(s.p), Symbol(s.q), PAD, PAD]
    else
      var s := Split(Bytes(b[0], b[1], 0));
      [Symbol(s.p), Symbol(s.q), Symbol(s.r), PAD]
  }

  /** How many symbols stand before the first byte that is none. */
  function Symbols(text: Str): (n: nat)
    ensures n <= |text|
    ensures forall i :: 0 <= i < n ==> Value(text[i]).Some?
    ensures n < |text| ==> Value(text[n]).None?
  {
    if text == [] || Value(text[0]).None? then 0 else 1 + Symbols(text[1..])
  }

  predicate AllPads(text: Str) {
    forall i :: 0 <= i < |text| ==> text[i] == PAD
  }

  function Decode(text: Str): Option<Str> {
    if text == [] then Some([])
    else if |text| < 4 || Unquad(text[..4]).None? then DecodeTail(text)
    else
      var b := Join(Unquad(text[..4]).value);
      match Decode(text[4..])
      case Some(rest) => Some([b.x, b.y, b.z] + rest)
      case None => None
  }

  /** A last group of two or three symbols, with any padding that fits. */
  function DecodeTail(text: Str): Option<Str> {
    var n := Symbols(text);
    if |text| > 4 || !(2 <= n <= 3) || !AllPads(text[n..]) then None
    else
      var b := Join(Sextets(Value(text[0]).value, Value(text[1]).value, if n == 3 then Value(text[2]).value else 0, 0));
      Some(if n == 3 then [b.x, b.y] else [b.x])
  }

  // ---------------------------------------------------------------------------
  // Which texts decode, and to what
  // ---------------------------------------------------------------------------

  /** Symbols, then at most as much padding as completes the last group; one symbol alone in
      a group holds no byte. */
  predicate WellFormed(text: Str) {
    var n := Symbols(text);
    n % 4 != 1 && |text| <= (n + 3) / 4 * 4 && AllPads(text[n..])
  }

  function Bits(text: Str, i: nat): Sextet
    requires i < Symbols(text)
  {
    Value(text[i]).value
  }

  /** How many whole bytes this many symbols hold. */
  function ByteCount(symbols: nat): nat {
    symbols / 4 * 3 + if symbols % 4 == 3 then 2 else if symbols % 4 == 2 then 1 else 0
  }

  /** The first of the two neighbours that byte `j` of the bit stream is in. */
  function Position(j: nat): nat {
    j / 3 * 4 + j % 3
  }

  lemma PositionFits(j: nat, symbols: nat)
    requires j < ByteCount(symbols)
    ensures Position(j) + 1 < symbols
  {
    assert j == j / 3 * 3 + j % 3 && symbols == symbols / 4 * 4 + symbols % 4;
  }

  lemma GroupArithmetic(symbols: nat, j: nat)
    ensures (symbols + 4) % 4 == symbols % 4
    ensures ByteCount(symbols + 4) == ByteCount(symbols) + 3
    ensures (symbols + 7) / 4 * 4 == (symbols + 3) / 4 * 4 + 4
    ensures Position(j + 3) == Position(j) + 4
  {
  }

  function ByteAt(text: Str, j: nat): Byte
    requires j < ByteCount(Symbols(text))
  {
    PositionFits(j, Symbols(text));
    Octet(j % 3, Bits(text, Position(j)), Bits(text, Position(j) + 1))
  }

  function Octet(phase: nat, left: Sextet, right: Sextet): Byte
    requires phase < 3
  {
    var l: int, r: int := left, right;
    if phase == 0 then l * 4 + r / 16 else if phase == 1 then l % 16 * 16 + r / 4 else l % 4 * 64 + r
  }

  /** The text stands for these bytes. */
  ghost predicate Denotes(text: Str, b: Str) {
    && WellFormed(text)
    && |b| == ByteCount(Symbols(text))
    && forall j: nat :: j < |b| ==> b[j] == ByteAt(text, j)
  }

  lemma {:induction false} SymbolsAfter(symbols: Str, rest: Str)
    requires forall i :: 0 <= i < |symbols| ==> Value(symbols[i]).Some?
    ensures Symbols(symbols + rest) == |symbols| + Symbols(rest)
  {
    if symbols == [] {
      assert symbols + rest == rest;
    } else {
      SymbolsAfter(symbols[1..], rest);
      assert (symbols + rest)[1..] == symbols[1..] + rest;
    }
  }

  lemma QuadThen(s: Sextets, rest: Str)
    ensures Symbols(Quad(s) + rest) == 4 + Symbols(rest)
    ensures WellFormed(Quad(s) + rest) <==> WellFormed(rest)
  {
    var n := Symbols(rest);
    SymbolsAfter(Quad(s), rest);
    assert (Quad(s) + rest)[4 + n..] == rest[n..];
    GroupArithmetic(n, 0);
  }

  lemma BytesOfQuad(s: Sextets, rest: Str, j: nat)
    requires j < 3
    ensures Symbols(Quad(s) + rest) >= 4
    ensures j < ByteCount(Symbols(Quad(s) + rest))
    ensures ByteAt(Quad(s) + rest, j) == [Join(s).x, Join(s).y, Join(s).z][j]
  {
    QuadThen(s, rest);
    GroupArithmetic(Symbols(rest), 0);
  }

  lemma BytesAfterQuad(s: Sextets, rest: Str, j: nat)
    requires j < ByteCount(Symbols(rest))
    ensures j + 3 < ByteCount(Symbols(Quad(s) + rest))
    ensures ByteAt(Quad(s) + rest, j + 3) == ByteAt(rest, j)
  {
    QuadThen(s, rest);
    GroupArithmetic(Symbols(rest), j);
    PositionFits(j, Symbols(rest));
  }

  lemma DenotesQuad(s: Sextets, rest: Str, b: Str)
    requires Denotes(rest, b)
    ensures Denotes(Quad(s) + rest, [Join(s).x, Join(s).y, Join(s).z] + b)
  {
    QuadThen(s, rest);
    GroupArithmetic(Symbols(rest), 0);
    var all := [Join(s).x, Join(s).y, Join(s).z] + b;
    forall j: nat | j < |all| ensures all[j] == ByteAt(Quad(s) + rest, j) {
      if j < 3 {
        BytesOfQuad(s, rest, j);
      } else {
        BytesAfterQuad(s, rest, j - 3);
      }
    }
  }

  lemma TailIsShort(text: Str)
    requires |text| < 4 || Unquad(text[..4]).None?
    ensures Symbols(text) < 4
  {
    if Symbols(text) >= 4 {
      assert text[..4][0] == text[0] && text[..4][1] == text[1] && text[..4][2] == text[2] && text[..4][3] == text[3];
    }
  }

  lemma TailDenotes(text: Str)
    requires text != [] && Symbols(text) < 4
    ensures DecodeTail(text).Some? <==> WellFormed(text)
    ensures DecodeTail(text).Some? ==> Denotes(text, DecodeTail(text).value)
  {
  }

  lemma {:induction false} DecodeDenotes(text: Str)
    ensures Decode(text).Some? <==> WellFormed(text)
    ensures Decode(text).Some? ==> Denotes(text, Decode(text).value)
  {
    if text == [] {
    } else if |text| < 4 || Unquad(text[..4]).None? {
      TailIsShort(text);
      TailDenotes(text);
    } else {
      var s, rest := Unquad(text[..4]).value, text[4..];
      assert text == Quad(s) + rest;
      QuadThen(s, rest);
      DecodeDenotes(rest);
      if Decode(rest).Some? {
        DenotesQuad(s, rest, Decode(rest).value);
      }
    }
  }

  /** A text decodes to exactly the bytes it denotes. */
  lemma DecodesExactly(text: Str, b: Str)
    ensures Decode(text) == Some(b) <==> Denotes(text, b)
  {
    DecodeDenotes(text);
    if Denotes(text, b) {
      assert Decode(text).value == b;
    }
  }

  // ---------------------------------------------------------------------------
  // Encodings among the texts
  // ---------------------------------------------------------------------------

  /** The bits of the last symbol that belong to no byte. */
  function UnusedBits(text: Str): nat {
    var n := Symbols(text);
    if n % 4 == 2 then Bits(text, n - 1) as int % 16 else if n % 4 == 3 then Bits(text, n - 1) as int % 4 else 0
  }

  /** Complete padding, and no bit set that belongs to no byte. */
  predicate Canonical(text: Str) {
    |text| % 4 == 0 && UnusedBits(text) == 0
  }

  lemma UnusedBitsAfterQuad(s: Sextets, rest: Str)
    ensures UnusedBits(Quad(s) + rest) == UnusedBits(rest)
  {
    var text, n := Quad(s) + rest, Symbols(rest);
    SymbolsAfter(Quad(s), rest);
    GroupArithmetic(n, 0);
    assert n > 0 ==> text[n + 3] == rest[n - 1];
  }

  lemma CanonicalQuad(s: Sextets, rest: Str)
    ensures Canonical(Quad(s) + rest) <==> Canonical(rest)
  {
    UnusedBitsAfterQuad(s, rest);
    GroupArithmetic(|rest|, 0);
    assert |Quad(s) + rest| == |rest| + 4;
  }

  lemma PaddedSymbols(b: Str)
    requires 1 <= |b| <= 2
    ensures Symbols(Padded(b)) == |b| + 1 && Canonical(Padded(b)) && Unquad(Padded(b)).None?
  {
    var text := Padded(b);
    assert Value(text[2]).None? || |b| == 2;
    assert Value(PAD).None?;
    assert text[1..][0] == text[1] && text[1..][1..][0] == text[2] && text[1..][1..][1..][0] == text[3];
  }

  lemma TailOfPadded(b: Str)
    requires 1 <= |b| <= 2
    ensures DecodeTail(Padded(b)) == Some(b)
  {
    PaddedSymbols(b);
    var s := Split(Bytes(b[0], if |b| == 1 then 0 else b[1], 0));
    assert s == Sextets(s.p, s.q, if |b| == 1 then 0 else s.r, 0);
    assert b == if |b| == 1 then [b[0]] else [b[0], b[1]];
  }

  lemma DecodePadded(b: Str)
    requires 1 <= |b| <= 2
    ensures Decode(Padded(b)) == Some(b) && Canonical(Padded(b))
  {
    PaddedSymbols(b);
    TailOfPadded(b);
    assert Padded(b)[..4] == Padded(b);
  }

  lemma PaddedOfTail(text: Str)
    requires DecodeTail(text).Some? && Canonical(text)
    ensures var b := DecodeTail(text).value; 1 <= |b| <= 2 && Padded(b) == text
  {
    var n := Symbols(text);
    assert |text| == 4 && text[n..][3 - n] == PAD && text[n..][0] == PAD;
    ValueThenSymbol(text[0]);
    ValueThenSymbol(text[1]);
    ValueThenSymbol(text[n - 1]);
    var s := Sextets(Bits(text, 0), Bits(text, 1), if n == 3 then Bits(text, 2) else 0, 0);
    JoinThenSplit(s);
    assert Join(s).z == 0 && (n == 2 ==> Join(s).y == 0);
    assert text == [text[0], text[1], text[2], text[3]];
  }

  lemma DecodeQuad(s: Sextets, rest: Str)
    requires Decode(rest).Some?
    ensures Decode(Quad(s) + rest) == Some([Join(s).x, Join(s).y, Join(s).z] + Decode(rest).value)
  {
    assert (Quad(s) + rest)[..4] == Quad(s) && (Quad(s) + rest)[4..] == rest;
    assert Unquad(Quad(s)) == Some(s);
  }

  lemma EncodeQuad(s: Sextets, b: Str)
    ensures Encode([Join(s).x, Join(s).y, Join(s).z] + b) == Quad(s) + Encode(b)
  {
    JoinThenSplit(s);
    assert ([Join(s).x, Join(s).y, Join(s).z] + b)[3..] == b;
  }

  lemma DecodeEncodeQuad(s: Sextets, b: Str)
    requires Decode(Encode(b)) == Some(b) && Canonical(Encode(b))
    ensures var all := [Join(s).x, Join(s).y, Join(s).z] + b;
            Decode(Encode(all)) == Some(all) && Canonical(Encode(all))
  {
    EncodeQuad(s, b);
    DecodeQuad(s, Encode(b));
    CanonicalQuad(s, Encode(b));
  }

  /** Decoding undoes encoding. */
  lemma {:induction false} DecodeEncode(b: Str)
    ensures Decode(Encode(b)) == Some(b) && Canonical(Encode(b))
  {
    if 1 <= |b| < 3 {
      DecodePadded(b);
    } else if |b| >= 3 {
      var s := Split(Bytes(b[0], b[1], b[2]));
      DecodeEncode(b[3..]);
      DecodeEncodeQuad(s, b[3..]);
      assert b == [Join(s).x, Join(s).y, Join(s).z] + b[3..];
    }
  }

  lemma {:induction false} EncodeDecode(text: Str)
    requires Decode(text).Some? && Canonical(text)
    ensures Encode(Decode(text).value) == text
  {
    if text == [] {
    } else if |text| < 4 || Unquad(text[..4]).None? {
      PaddedOfTail(text);
    } else {
      var s, rest := Unquad(text[..4]).value, text[4..];
      assert text == Quad(s) + rest;
      CanonicalQuad(s, rest);
      EncodeDecode(rest);
      EncodeQuad(s, Decode(rest).value);
    }
  }

  /** Ends in this many '=' and has none before. */
  predicate EqualSignsEnd(text: Str, count: nat) {
    && count <= |text|
    && (forall i :: 0 <= i < |text| - count ==> text[i] != '=' as int)
    && (forall i :: |text| - count <= i < |text| ==> text[i] == '=' as int)
  }

  lemma EqualSignsAfter(before: Str, text: Str, count: nat)
    requires EqualSignsEnd(text, count) && forall i :: 0 <= i < |before| ==> before[i] != '=' as int
    ensures EqualSignsEnd(before + text, count)
  {
  }

  /** An encoding ends in as many equal signs as bytes are missing in its last group. */
  lemma {:induction false} EncodingEndsIn(b: Str)
    ensures EqualSignsEnd(Encode(b), if |b| % 3 == 0 then 0 else 3 - |b| % 3)
  {
    if |b| >= 3 {
      EncodingEndsIn(b[3..]);
      assert (|b| - 3) % 3 == |b| % 3;
      EqualSignsAfter(Quad(Split(Bytes(b[0], b[1], b[2]))), Encode(b[3..]), if |b| % 3 == 0 then 0 else 3 - |b| % 3);
    }
  }

  /** Of all texts that decode to `b`, its encoding is the canonical one. */
  lemma EncodingsExactly(text: Str, b: Str)
    ensures text == Encode(b) <==> Decode(text) == Some(b) && Canonical(text)
  {
    DecodeEncode(b);
    if Decode(text) == Some(b) && Canonical(text) {
      EncodeDecode(text);
    }
  }
}
