/** The encrypted device id: nonce, sealed text and tag in one base64 text. */
module Encryption {
  import opened Wrappers
  import opened Text
  import Base64
  import Uuid

  const NONCE_LEN := 12
  const ID_LEN := 36
  const TAG_LEN := 16

  // ---------------------------------------------------------------------------
  // Authenticated encryption, by its law alone
  // ---------------------------------------------------------------------------

  /** Sealing and opening under the one server secret; the associated data is empty. */
  datatype Cipher = Cipher(seal: (Str, Str) -> Str, open: (Str, Str) -> Option<Str>)

  /** Opening undoes sealing (section 5.2 of RFC 5116) and the tag is 16 bytes at the end. */
  ghost predicate Lawful(c: Cipher) {
    && (forall n: Str, p: Str :: |n| == NONCE_LEN ==>
          |c.seal(n, p)| == |p| + TAG_LEN && c.open(n, c.seal(n, p)) == Some(p))
    && (forall n: Str, s: Str :: c.open(n, s).Some? ==> |s| == |c.open(n, s).value| + TAG_LEN)
  }

  function Zeros(n: nat): (z: Str)
    ensures |z| == n && IsAscii(z)
  {
    seq(n, i => 0)
  }

  /** A cipher that only appends a constant tag: the law can be met. */
  function TransparentCipher(): (c: Cipher)
    ensures Lawful(c)
  {
    Cipher(
      (n, p) => p + Zeros(TAG_LEN),
      (n, s: Str) => if |s| >= TAG_LEN && s[|s| - TAG_LEN..] == Zeros(TAG_LEN) then Some(s[..|s| - TAG_LEN]) else None
    )
  }

  type Aead = c: Cipher | Lawful(c) witness TransparentCipher()

  /** Seals all but the last 16 bytes of the buffer, which take the tag. */
  method SealInPlace(aead: Aead, nonce: Str, buffer: array<Byte>)
    requires |nonce| == NONCE_LEN && TAG_LEN <= buffer.Length
    modifies buffer
    ensures buffer[..] == aead.seal(nonce, old(buffer[..buffer.Length - TAG_LEN]))
  {
    var sealed := aead.seal(nonce, buffer[..buffer.Length - TAG_LEN]);
    forall i | 0 <= i < buffer.Length {
      buffer[i] := sealed[i];
    }
  }

  /** Opens the buffer from position `start`; the clear text ends up there, without the tag. */
  method OpenInPlace(aead: Aead, nonce: Str, buffer: array<Byte>, start: nat) returns (length: Option<nat>)
    requires start <= buffer.Length
    modifies buffer
    ensures var plain := aead.open(nonce, old(buffer[start..]));
            && (length.Some? <==> plain.Some?)
            && (plain.Some? ==>
                  start + length.value <= buffer.Length && buffer[start..start + length.value] == plain.value)
    ensures buffer[..start] == old(buffer[..start])
  {
    match aead.open(nonce, buffer[start..]) {
      case None => length := None;
      case Some(clear) =>
        forall i | 0 <= i < |clear| {
          buffer[start + i] := clear[i];
        }
        length := Some(|clear|);
    }
  }

  // ---------------------------------------------------------------------------
  // The envelope
  // ---------------------------------------------------------------------------

  /** What is left of a text in the 36 bytes before the tag. */
  function Fit(clear: Str): (f: Str)
    ensures |f| == ID_LEN
  {
    if |clear| >= ID_LEN then clear[..ID_LEN] else clear + Zeros(ID_LEN - |clear|)
  }

  ghost function Envelope(aead: Aead, nonce: Str, clear: Str): Str {
    Base64.Encode(nonce + aead.seal(nonce, Fit(clear)))
  }

  datatype Opened = Clear(text: Str) | Unspecified | Panics

  /** A header too short for its nonce makes `split_at_mut` panic. */
  ghost function Unwrap(aead: Aead, text: Str): Opened {
    match Base64.Decode(text)
    case None => Unspecified
    case Some(payload) =>
      if |payload| < NONCE_LEN then Panics
      else
        match aead.open(payload[..NONCE_LEN], payload[NONCE_LEN..])
        case None => Unspecified
        case Some(clear) => Clear(FromUtf8Lossy(clear))
  }

  /** The byte loop of the source: writes `source` into the buffer from position `at`. */
  method Fill(buffer: array<Byte>, at: nat, source: Str)
    requires at + |source| <= buffer.Length
    modifies buffer
    ensures buffer[..] == old(buffer[..at]) + source + old(buffer[at + |source|..])
  {
    for i := 0 to |source|
      invariant forall j :: 0 <= j < i ==> buffer[at + j] == source[j]
      invariant forall j :: 0 <= j < buffer.Length && !(at <= j < at + i) ==> buffer[j] == old(buffer[j])
    {
      buffer[at + i] := source[i];
    }
  }

  /** Works in the 12, 52 and 64 byte buffers; `random` is what the generator wrote. More than
      52 bytes of clear text would be an index out of bounds. */
  method Encrypt(aead: Aead, random: Str, clear: Str) returns (text: Str)
    requires |random| == NONCE_LEN && |clear| <= ID_LEN + TAG_LEN
    ensures text == Envelope(aead, random, clear)
  {
    var ciphertext := new Byte[ID_LEN + TAG_LEN](i => 0);
    Fill(ciphertext, 0, clear);
    assert ciphertext[..ID_LEN] == Fit(clear);
    SealInPlace(aead, random, ciphertext);
    var payload := new Byte[NONCE_LEN + ID_LEN + TAG_LEN](i => 0);
    Fill(payload, 0, random);
    assert payload[..NONCE_LEN] == random;
    Fill(payload, NONCE_LEN, ciphertext[..]);
    assert payload[..] == random + ciphertext[..];
    text := Base64.Encode(payload[..]);
  }

  method Decrypt(aead: Aead, text: Str) returns (clear: Option<Str>)
    requires Unwrap(aead, text) != Panics
    ensures match Unwrap(aead, text)
            case Clear(t) => clear == Some(t)
            case _ => clear == None
  {
    match Base64.Decode(text) {
      case None => clear := None;
      case Some(payload) =>
        var decoded := new Byte[|payload|](i requires 0 <= i < |payload| => payload[i]);
        assert decoded[..] == payload;
        assert decoded[NONCE_LEN..] == payload[NONCE_LEN..];
        var length := OpenInPlace(aead, decoded[..NONCE_LEN], decoded, NONCE_LEN);
        match length {
          case None => clear := None;
          case Some(n) => clear := Some(FromUtf8Lossy(decoded[NONCE_LEN..NONCE_LEN + n]));
        }
    }
  }

  // ---------------------------------------------------------------------------
  // What a client gets back
  // ---------------------------------------------------------------------------

  lemma EnvelopeLength(aead: Aead, nonce: Str, clear: Str)
    requires |nonce| == NONCE_LEN
    ensures |Envelope(aead, nonce, clear)| == 88
  {
  }

  /** The 64 bytes behind the text: the nonce, then the sealed clear text of 36 bytes with its tag. */
  lemma EnvelopeLayout(aead: Aead, nonce: Str, clear: Str) returns (plain: Str)
    requires |nonce| == 12
    ensures |plain| == 36 && forall i :: 0 <= i < 36 ==> plain[i] == if i < |clear| then clear[i] else 0
    ensures |aead.seal(nonce, plain)| == 52
    ensures Base64.Decode(Envelope(aead, nonce, clear)) == Some(nonce + aead.seal(nonce, plain))
  {
    plain := Fit(clear);
    Base64.DecodeEncode(nonce + aead.seal(nonce, plain));
  }

  /** The text stands for a nonce of 12 bytes, and for bytes that open under it. */
  ghost predicate OpensTo(aead: Aead, text: Str, nonce: Str, sealed: Str, plain: Str) {
    Base64.Denotes(text, nonce + sealed) && |nonce| == 12 && aead.open(nonce, sealed) == Some(plain)
  }

  lemma UnwrapExactly(aead: Aead, text: Str, clear: Str)
    ensures Unwrap(aead, text) == Clear(clear) <==>
      exists nonce, sealed, plain :: OpensTo(aead, text, nonce, sealed, plain) && clear == FromUtf8Lossy(plain)
  {
    Base64.DecodeDenotes(text);
    if Unwrap(aead, text) == Clear(clear) {
      var payload := Base64.Decode(text).value;
      assert payload == payload[..12] + payload[12..];
      var plain := aead.open(payload[..12], payload[12..]).value;
      assert OpensTo(aead, text, payload[..12], payload[12..], plain);
    }
    if nonce, sealed, plain :| OpensTo(aead, text, nonce, sealed, plain) && clear == FromUtf8Lossy(plain) {
      Base64.DecodesExactly(text, nonce + sealed);
      assert (nonce + sealed)[..12] == nonce && (nonce + sealed)[12..] == sealed;
    }
  }

  /** Decrypting an envelope gives the text cut or zero-padded to 36 bytes. */
  lemma DecryptEncrypt(aead: Aead, nonce: Str, clear: Str)
    requires |nonce| == NONCE_LEN
    ensures Unwrap(aead, Envelope(aead, nonce, clear)) == Clear(FromUtf8Lossy(Fit(clear)))
  {
    var payload := nonce + aead.seal(nonce, Fit(clear));
    Base64.DecodeEncode(payload);
    assert payload[..NONCE_LEN] == nonce && payload[NONCE_LEN..] == aead.seal(nonce, Fit(clear));
  }

  /** A Rust string of 36 bytes comes back unchanged, under every nonce. */
  lemma RoundTrip(aead: Aead, nonce: Str, clear: Str)
    requires |nonce| == NONCE_LEN && |clear| == ID_LEN && ValidUtf8(clear)
    ensures Unwrap(aead, Envelope(aead, nonce, clear)) == Clear(clear)
  {
    DecryptEncrypt(aead, nonce, clear);
    LossyKeepsExactlyValid(clear);
    assert Fit(clear) == clear;
  }

  /** ASCII text comes back as its 36-byte fit, hence unchanged exactly when it has 36 bytes. */
  lemma AsciiRoundTrip(aead: Aead, nonce: Str, clear: Str)
    requires |nonce| == NONCE_LEN && IsAscii(clear)
    ensures Unwrap(aead, Envelope(aead, nonce, clear)) == Clear(Fit(clear))
    ensures Unwrap(aead, Envelope(aead, nonce, clear)) == Clear(clear) <==> |clear| == ID_LEN
  {
    DecryptEncrypt(aead, nonce, clear);
    AsciiIsValid(Fit(clear));
    LossyKeepsExactlyValid(Fit(clear));
  }

  /** The printed UUID always has the length the envelope was made for. */
  lemma IdRoundTrip(aead: Aead, nonce: Str, id: Uuid.Uuid)
    requires |nonce| == NONCE_LEN
    ensures Unwrap(aead, Envelope(aead, nonce, Uuid.Print(id))) == Clear(Uuid.Print(id))
  {
    AsciiRoundTrip(aead, nonce, Uuid.Print(id));
  }

  /** Decryption panics exactly on well-formed base64 of fewer than 16 symbols, which hold at
      most 11 bytes, whatever the secret. */
  lemma PanicsExactly(aead: Aead, text: Str)
    ensures Unwrap(aead, text) == Panics <==> Base64.WellFormed(text) && Base64.Symbols(text) < 16
  {
    Base64.DecodeDenotes(text);
  }

  /** The empty header is one of them, and so is "Zg", a lone byte without its padding. */
  lemma ShortHeadersPanic(aead: Aead)
    ensures Unwrap(aead, []) == Panics
    ensures Unwrap(aead, Ascii("Zg")) == Panics
  {
    PanicsExactly(aead, []);
    PanicsExactly(aead, Ascii("Zg"));
    assert Ascii("Zg") == [90, 103];
    assert Base64.Symbols([103]) == 1;
    assert [90, 103][1..] == [103];
  }

  /** What is no base64, or holds a nonce but less than a tag, is never opened. */
  lemma NeverOpens(aead: Aead, text: Str)
    requires !Base64.WellFormed(text) || 16 <= Base64.Symbols(text) < 38
    ensures Unwrap(aead, text) == Unspecified
  {
    Base64.DecodeDenotes(text);
  }
}
