/** Rust strings as their UTF-8 bytes, and the lossy decoding `String::from_utf8_lossy`. */
module Text {
  type Byte = b: int | 0 <= b < 256

  type Str = seq<Byte>

  predicate IsAscii(s: Str) {
    forall i :: 0 <= i < |s| ==> s[i] < 128
  }

  /** The bytes of an ASCII literal. */
  function Ascii(literal: string): (s: Str)
    requires forall i :: 0 <= i < |literal| ==> literal[i] as int < 128
    ensures |s| == |literal| && IsAscii(s)
    ensures forall i :: 0 <= i < |s| ==> s[i] == literal[i] as int
  {
    seq(|literal|, i requires 0 <= i < |literal| => literal[i] as int)
  }

  // ---------------------------------------------------------------------------
  // UTF-8, by the table of well-formed byte sequences of the Unicode standard
  // ---------------------------------------------------------------------------

  /** What stands at the front of a byte string: one encoded scalar value, or the
      longest piece that began like one and broke off. */
  datatype Chunk = Scalar(len: nat) | Broken(len: nat)

  predicate Continues(b: Str, i: nat) {
    i < |b| && 0x80 <= b[i] <= 0xBF
  }

  /** The second byte of a sequence has a narrower range after some first bytes. */
  predicate SecondFits(b: Str)
    requires b != []
  {
    && Continues(b, 1)
    && (b[0] == 0xE0 ==> 0xA0 <= b[1])
    && (b[0] == 0xED ==> b[1] <= 0x9F)
    && (b[0] == 0xF0 ==> 0x90 <= b[1])
    && (b[0] == 0xF4 ==> b[1] <= 0x8F)
  }

  function Front(b: Str): (c: Chunk)
    requires b != []
    ensures 1 <= c.len <= |b| && c.len <= 4
  {
    if b[0] < 0x80 then Scalar(1)
    else if b[0] < 0xC2 || 0xF4 < b[0] || !SecondFits(b) then Broken(1)
    else if b[0] < 0xE0 then Scalar(2)
    else if !Continues(b, 2) then Broken(2)
    else if b[0] < 0xF0 then Scalar(3)
    else if !Continues(b, 3) then Broken(3)
    else Scalar(4)
  }

  predicate ValidUtf8(b: Str)
    decreases |b|
  {
    b != [] ==> Front(b).Scalar? && ValidUtf8(b[Front(b).len..])
  }

  /** U+FFFD, which takes the place of every broken piece. */
  const REPLACEMENT: Str := [0xEF, 0xBF, 0xBD]

  function FromUtf8Lossy(b: Str): (s: Str)
    decreases |b|
  {
    if b == [] then []
    else
      var c := Front(b);
      (if c.Scalar? then b[..c.len] else REPLACEMENT) + FromUtf8Lossy(b[c.len..])
  }

  /** A scalar at the front is recognised whatever follows it. */
  lemma FrontIsLocal(b: Str, rest: Str)
    requires b != [] && Front(b) == Scalar(|b|)
    ensures Front(b + rest) == Scalar(|b|)
  {
    assert forall i :: 0 <= i < |b| ==> (b + rest)[i] == b[i];
    assert forall i: nat :: i < |b| ==> (Continues(b + rest, i) <==> Continues(b, i));
  }

  lemma ScalarPrefix(b: Str)
    requires b != [] && Front(b).Scalar?
    ensures Front(b[..Front(b).len]) == Front(b)
  {
    var p := b[..Front(b).len];
    assert forall i: nat :: i < |p| ==> (Continues(p, i) <==> Continues(b, i));
  }

  lemma ScalarThenValid(piece: Str, rest: Str)
    requires piece != [] && Front(piece) == Scalar(|piece|) && ValidUtf8(rest)
    ensures ValidUtf8(piece + rest)
  {
    FrontIsLocal(piece, rest);
    assert (piece + rest)[|piece|..] == rest;
  }

  /** The lossy decoding always yields a Rust string. */
  lemma {:induction false} LossyIsValid(b: Str)
    ensures ValidUtf8(FromUtf8Lossy(b))
    decreases |b|
  {
    if b != [] {
      var c := Front(b);
      LossyIsValid(b[c.len..]);
      if c.Scalar? {
        ScalarPrefix(b);
        ScalarThenValid(b[..c.len], FromUtf8Lossy(b[c.len..]));
      } else {
        assert Front(REPLACEMENT) == Scalar(3);
        ScalarThenValid(REPLACEMENT, FromUtf8Lossy(b[c.len..]));
      }
    }
  }

  /** It changes exactly the byte strings that are not UTF-8. */
  lemma {:induction false} LossyKeepsExactlyValid(b: Str)
    ensures FromUtf8Lossy(b) == b <==> ValidUtf8(b)
    decreases |b|
  {
    if ValidUtf8(b) {
      LossyKeepsValid(b);
    } else if FromUtf8Lossy(b) == b {
      LossyIsValid(b);
    }
  }

  lemma {:induction false} LossyKeepsValid(b: Str)
    requires ValidUtf8(b)
    ensures FromUtf8Lossy(b) == b
    decreases |b|
  {
    if b != [] {
      LossyKeepsValid(b[Front(b).len..]);
    }
  }

  lemma {:induction false} AsciiIsValid(b: Str)
    requires IsAscii(b)
    ensures ValidUtf8(b)
    decreases |b|
  {
    if b != [] {
      AsciiIsValid(b[1..]);
    }
  }

  // ---------------------------------------------------------------------------
  // The same by code points
  // ---------------------------------------------------------------------------

  /** A Unicode scalar value: any code point but the surrogates. */
  type CodePoint = c: int | 0 <= c < 0xD800 || 0xE000 <= c < 0x110000

  /** The bits of a scalar value in one to four bytes, section 3 of RFC 3629. */
  function EncodeScalar(c: CodePoint): (s: Str)
    ensures 1 <= |s| <= 4
  {
    if c < 0x80 then [c]
    else if c < 0x800 then [0xC0 + c / 64, 0x80 + c % 64]
    else if c < 0x10000 then [0xE0 + c / 4096, 0x80 + c / 64 % 64, 0x80 + c % 64]
    else [0xF0 + c / 262144, 0x80 + c / 4096 % 64, 0x80 + c / 64 % 64, 0x80 + c % 64]
  }

  function EncodeAll(cs: seq<CodePoint>): Str {
    if cs == [] then [] else EncodeScalar(cs[0]) + EncodeAll(cs[1..])
  }

  lemma FrontOfScalar(c: CodePoint)
    ensures Front(EncodeScalar(c)) == Scalar(|EncodeScalar(c)|)
  {
  }

  predicate IsCodePoint(c: int) {
    0 <= c < 0xD800 || 0xE000 <= c < 0x110000
  }

  lemma TwoBytes(x: int, y: int)
    requires 0xC2 <= x < 0xE0 && 0x80 <= y < 0xC0
    ensures var c := (x - 0xC0) * 64 + (y - 0x80); IsCodePoint(c) && EncodeScalar(c) == [x, y]
  {
  }

  lemma ThreeBytes(x: int, y: int, z: int)
    requires 0xE0 <= x < 0xF0 && 0x80 <= y < 0xC0 && 0x80 <= z < 0xC0
    requires (x == 0xE0 ==> 0xA0 <= y) && (x == 0xED ==> y <= 0x9F)
    ensures var c := (x - 0xE0) * 4096 + (y - 0x80) * 64 + (z - 0x80); IsCodePoint(c) && EncodeScalar(c) == [x, y, z]
  {
    var c := (x - 0xE0) * 4096 + (y - 0x80) * 64 + (z - 0x80);
    assert c / 64 == (x - 0xE0) * 64 + (y - 0x80) && c % 64 == z - 0x80;
    assert c / 4096 == x - 0xE0 && c / 64 % 64 == y - 0x80;
  }

  lemma FourBytes(x: int, y: int, z: int, w: int)
    requires 0xF0 <= x <= 0xF4 && 0x80 <= y < 0xC0 && 0x80 <= z < 0xC0 && 0x80 <= w < 0xC0
    requires (x == 0xF0 ==> 0x90 <= y) && (x == 0xF4 ==> y <= 0x8F)
    ensures var c := (x - 0xF0) * 262144 + (y - 0x80) * 4096 + (z - 0x80) * 64 + (w - 0x80);
            IsCodePoint(c) && EncodeScalar(c) == [x, y, z, w]
  {
    var c := (x - 0xF0) * 262144 + (y - 0x80) * 4096 + (z - 0x80) * 64 + (w - 0x80);
    assert c / 64 == (x - 0xF0) * 4096 + (y - 0x80) * 64 + (z - 0x80) && c % 64 == w - 0x80;
    assert c / 4096 == (x - 0xF0) * 64 + (y - 0x80) && c / 64 % 64 == z - 0x80;
    assert c / 262144 == x - 0xF0 && c / 4096 % 64 == y - 0x80;
  }

  /** What is well begun can be a code point; zero bits take the place of missing bytes. */
  lemma WellBegun(b: Str, n: nat) returns (c: CodePoint)
    requires 2 <= n <= |b| && 0xC2 <= b[0] <= 0xF4 && SecondFits(b)
    requires n <= if b[0] < 0xE0 then 2 else if b[0] < 0xF0 then 3 else 4
    requires (n > 2 ==> Continues(b, 2)) && (n > 3 ==> Continues(b, 3))
    ensures b[..n] <= EncodeScalar(c)
  {
    var x: int, y: int := b[0], b[1];
    var z: int := if n > 2 then b[2] else 0x80;
    var w: int := if n > 3 then b[3] else 0x80;
    if x < 0xE0 {
      TwoBytes(x, y);
      c := (x - 0xC0) * 64 + (y - 0x80);
    } else if x < 0xF0 {
      ThreeBytes(x, y, z);
      c := (x - 0xE0) * 4096 + (y - 0x80) * 64 + (z - 0x80);
    } else {
      FourBytes(x, y, z, w);
      c := (x - 0xF0) * 262144 + (y - 0x80) * 4096 + (z - 0x80) * 64 + (w - 0x80);
    }
  }

  lemma ScalarOfFront(b: Str) returns (c: CodePoint)
    requires b != [] && Front(b).Scalar?
    ensures b[..Front(b).len] == EncodeScalar(c)
  {
    var n := Front(b).len;
    if n == 1 {
      c := b[0];
    } else {
      c := WellBegun(b, n);
    }
  }

  lemma {:induction false} EncodedIsValid(cs: seq<CodePoint>)
    ensures ValidUtf8(EncodeAll(cs))
  {
    if cs != [] {
      FrontOfScalar(cs[0]);
      EncodedIsValid(cs[1..]);
      ScalarThenValid(EncodeScalar(cs[0]), EncodeAll(cs[1..]));
    }
  }

  lemma {:induction false} CodePointsOf(b: Str) returns (cs: seq<CodePoint>)
    requires ValidUtf8(b)
    ensures EncodeAll(cs) == b
    decreases |b|
  {
    if b == [] {
      cs := [];
    } else {
      var n := Front(b).len;
      var c := ScalarOfFront(b);
      var rest := CodePointsOf(b[n..]);
      cs := [c] + rest;
      assert cs[1..] == rest && b == b[..n] + b[n..];
    }
  }

  /** A byte string is UTF-8 exactly if it encodes some scalar values. */
  lemma ValidExactly(b: Str)
    ensures ValidUtf8(b) <==> exists cs :: EncodeAll(cs) == b
  {
    if ValidUtf8(b) {
      var cs := CodePointsOf(b);
    }
    if cs :| EncodeAll(cs) == b {
      EncodedIsValid(cs);
    }
  }

  ghost predicate StartsScalar(piece: Str) {
    exists c: CodePoint :: piece <= EncodeScalar(c)
  }

  lemma NoScalarAt(b: Str, n: nat)
    requires b != [] && Front(b) == Broken(n) && n < |b|
    ensures !StartsScalar(b[..n + 1])
  {
    if StartsScalar(b[..n + 1]) {
      var c: CodePoint :| b[..n + 1] <= EncodeScalar(c);
      FrontOfScalar(c);
      var s := EncodeScalar(c);
      assert forall i :: 0 <= i <= n ==> b[..n + 1][i] == b[i] && b[i] == s[i];
      assert forall i: nat :: i <= n ==> (Continues(b, i) <==> Continues(s, i));
    }
  }

  /** Every broken piece is as long as a code point can still be in the making, but at least
      one byte; all of it becomes one U+FFFD. */
  lemma BrokenIsMaximal(b: Str)
    requires b != [] && Front(b).Broken?
    ensures var n := Front(b).len;
            && (n == 1 || StartsScalar(b[..n]))
            && (n < |b| ==> !StartsScalar(b[..n + 1]))
            && FromUtf8Lossy(b) == REPLACEMENT + FromUtf8Lossy(b[n..])
    ensures REPLACEMENT == EncodeScalar(0xFFFD)
  {
    var n := Front(b).len;
    if n < |b| {
      NoScalarAt(b, n);
    }
    if n > 1 {
      var c := WellBegun(b, n);
      assert StartsScalar(b[..n]);
    }
  }
}
