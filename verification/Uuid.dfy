/** UUIDs and their text, section 3 of RFC 4122, and the hex decoding of app secrets. */
module Uuid {
  import opened Wrappers
  import opened Text

  type Nibble = n: int | 0 <= n < 16

  /** 128 bits, as the 32 hexadecimal digits they are printed with. */
  type Uuid = u: seq<Nibble> | |u| == 32 witness seq(32, i => 0)

  /** The nil UUID, section 4.1.7. */
  predicate IsNil(u: Uuid) {
    forall i :: 0 <= i < 32 ==> u[i] == 0
  }

  /** What identifies a device: some digit is not zero. */
  predicate HasNonzeroDigit(u: Uuid) {
    exists i :: 0 <= i < 32 && u[i] != 0
  }

  const HYPHEN: Byte := 45

  function HexDigit(n: Nibble): (b: Byte)
    ensures HexValue(b) == Some(n) && b < 128 && b != HYPHEN
  {
    if n < 10 then 48 + n else 87 + n
  }

  function HexValue(b: Byte): (n: Option<Nibble>)
  {
    if 48 <= b <= 57 then Some(b - 48)
    else if 97 <= b <= 102 then Some(b - 87)
    else if 65 <= b <= 70 then Some(b - 55)
    else None
  }

  predicate AllHex(s: Str) {
    forall i :: 0 <= i < |s| ==> HexValue(s[i]).Some?
  }

  function HexNibbles(s: Str): (ns: seq<Nibble>)
    requires AllHex(s)
    ensures |ns| == |s|
    ensures forall i :: 0 <= i < |s| ==> Some(ns[i]) == HexValue(s[i])
  {
    seq(|s|, i requires 0 <= i < |s| => HexValue(s[i]).value)
  }

  /** Groups of 8, 4, 4, 4 and 12 digits: hyphens stand in four columns. */
  predicate HyphenColumn(i: nat) {
    i == 8 || i == 13 || i == 18 || i == 23
  }

  /** How many hyphens stand before column `i`, and before the column of digit `j`. */
  function HyphensBefore(i: nat): (n: nat)
    ensures n <= 4 && n <= i
  {
    if i <= 8 then 0 else if i <= 13 then 1 else if i <= 18 then 2 else if i <= 23 then 3 else 4
  }

  function Column(j: nat): (i: nat)
    requires j < 32
    ensures i < 36 && !HyphenColumn(i) && i - HyphensBefore(i) == j
  {
    if j < 8 then j else if j < 12 then j + 1 else if j < 16 then j + 2 else if j < 20 then j + 3 else j + 4
  }

  /** `hyphenated().to_string()`: lower-case digits. */
  function Print(u: Uuid): (s: Str)
    ensures |s| == 36 && IsAscii(s)
  {
    seq(36, i requires 0 <= i < 36 => if HyphenColumn(i) then HYPHEN else HexDigit(u[i - HyphensBefore(i)]))
  }

  predicate Hyphenated(s: Str) {
    |s| == 36 && forall i: nat :: i < 36 && HyphenColumn(i) ==> s[i] == HYPHEN
  }

  function Digits(s: Str): (d: Str)
    requires Hyphenated(s)
    ensures |d| == 32
    ensures forall j :: 0 <= j < 32 ==> d[j] == s[Column(j)]
  {
    seq(32, j requires 0 <= j < 32 => s[Column(j)])
  }

  /** `Uuid::parse_str`: the hyphenated form in either case, with or without the URN
      prefix, or the 32 digits alone. */
  function Parse(s: Str): (u: Option<Uuid>)
  {
    var body := if |s| == 45 && s[..9] == Ascii("urn:uuid:") then s[9..] else s;
    if |body| == 32 && AllHex(body) then Some(HexNibbles(body))
    else if Hyphenated(body) && AllHex(Digits(body)) then Some(HexNibbles(Digits(body)))
    else None
  }

  lemma FormParses(s: Str, u: Uuid)
    requires Hyphenated(s) && forall j: nat :: j < 32 ==> HexValue(s[Column(j)]) == Some(u[j])
    ensures Parse(s) == Some(u)
  {
    var d := Digits(s);
    assert AllHex(d);
    assert HexNibbles(d) == u;
  }

  lemma PrintedForm(u: Uuid)
    ensures Hyphenated(Print(u)) && forall j: nat :: j < 32 ==> HexValue(Print(u)[Column(j)]) == Some(u[j])
  {
  }

  /** What is printed parses back to the same identifier. */
  lemma ParsePrint(u: Uuid)
    ensures Parse(Print(u)) == Some(u)
  {
    PrintedForm(u);
    FormParses(Print(u), u);
  }

  lemma PrintIsInjective(u: Uuid, v: Uuid)
    requires Print(u) == Print(v)
    ensures u == v
  {
    ParsePrint(u);
    ParsePrint(v);
  }

  /** The digits of a number in lower case. */
  function LowerHex(ns: seq<Nibble>): (s: Str)
    ensures |s| == |ns| && forall i :: 0 <= i < |s| ==> s[i] == "0123456789abcdef"[ns[i]] as int
  {
    seq(|ns|, i requires 0 <= i < |ns| => "0123456789abcdef"[ns[i]] as int)
  }

  lemma PrintedColumn(u: Uuid, i: nat)
    requires i < 36
    ensures Print(u)[i] ==
      if i == 8 || i == 13 || i == 18 || i == 23 then '-' as int else "0123456789abcdef"[u[i - HyphensBefore(i)]] as int
  {
  }

  /** The printed form: a lower-case digit in each column but four. */
  lemma PrintsGroups(u: Uuid)
    ensures var text := Print(u);
            && text[8] == text[13] == text[18] == text[23] == '-' as int
            && text[..8] == LowerHex(u[..8]) && text[9..13] == LowerHex(u[8..12]) && text[14..18] == LowerHex(u[12..16])
            && text[19..23] == LowerHex(u[16..20]) && text[24..] == LowerHex(u[20..])
  {
    forall i: nat | i < 36 ensures Print(u)[i] ==
      if i == 8 || i == 13 || i == 18 || i == 23 then '-' as int else "0123456789abcdef"[u[i - HyphensBefore(i)]] as int
    {
      PrintedColumn(u, i);
    }
  }

  /** Digits are read in either case. */
  lemma HexValueExactly(b: Byte, n: Nibble)
    ensures HexValue(b) == Some(n) <==> b == "0123456789abcdef"[n] as int || b == "0123456789ABCDEF"[n] as int
  {
  }

  /** The other forms that parse: the bare digits, and the canonical form as a URN. */
  lemma ParseOfOtherLengths(s: Str, u: Uuid)
    requires |s| != 36
    ensures Parse(s) == Some(u) <==>
      || (|s| == 32 && forall i :: 0 <= i < 32 ==> HexValue(s[i]) == Some(u[i]))
      || (|s| == 45 && s[..9] == Ascii("urn:uuid:") && Parse(s[9..]) == Some(u))
  {
    if |s| == 32 {
      if forall i :: 0 <= i < 32 ==> HexValue(s[i]) == Some(u[i]) {
        assert HexNibbles(s) == u;
      }
    } else if |s| == 45 {
      assert |s[9..]| == 36;
    }
  }

  function Lower(s: Str): (t: Str)
    ensures |t| == |s|
  {
    seq(|s|, i requires 0 <= i < |s| => if 65 <= s[i] <= 90 then s[i] + 32 else s[i])
  }

  lemma ParseOfLower(s: Str, u: Uuid)
    requires Lower(s) == Print(u)
    ensures Parse(s) == Some(u)
  {
    PrintedForm(u);
    forall i: nat | i < 36
      ensures if HyphenColumn(i) then s[i] == HYPHEN else HexValue(s[i]) == HexValue(Print(u)[i])
    {
      assert Lower(s)[i] == Print(u)[i];
    }
    FormParses(s, u);
  }

  lemma ParsedForm(s: Str, u: Uuid)
    requires |s| == 36 && Parse(s) == Some(u)
    ensures Hyphenated(s) && forall j: nat :: j < 32 ==> HexValue(s[Column(j)]) == Some(u[j])
  {
    forall j: nat | j < 32 ensures HexValue(s[Column(j)]) == Some(u[j]) {
      assert Some(HexNibbles(Digits(s))[j]) == HexValue(Digits(s)[j]);
    }
  }

  lemma LowerDigit(b: Byte, n: Nibble)
    requires HexValue(b) == Some(n)
    ensures (if 65 <= b <= 90 then b + 32 else b) == HexDigit(n)
  {
  }

  lemma LowerOfParsed(s: Str, u: Uuid)
    requires |s| == 36 && Parse(s) == Some(u)
    ensures Lower(s) == Print(u)
  {
    ParsedForm(s, u);
    forall i: nat | i < 36 ensures Lower(s)[i] == Print(u)[i] {
      if !HyphenColumn(i) {
        var j := i - HyphensBefore(i);
        assert Column(j) == i;
        LowerDigit(s[i], u[j]);
      }
    }
  }

  /** Among texts of the canonical length, those that parse to `u` are its printed form in any case. */
  lemma ParseOfCanonicalLength(s: Str, u: Uuid)
    requires |s| == 36
    ensures Parse(s) == Some(u) <==> Lower(s) == Print(u)
  {
    if Lower(s) == Print(u) {
      ParseOfLower(s, u);
    } else if Parse(s) == Some(u) {
      LowerOfParsed(s, u);
    }
  }

  /** `hex::decode`: two digits of either case a byte. */
  function HexDecode(s: Str): (b: Option<Str>)
    ensures b.Some? <==> |s| % 2 == 0 && AllHex(s)
    ensures b.Some? ==> |b.value| == |s| / 2
    ensures b.Some? ==> forall i :: 0 <= i < |s| / 2 ==>
      HexValue(s[2 * i]) == Some(b.value[i] / 16) && HexValue(s[2 * i + 1]) == Some(b.value[i] % 16)
  {
    if |s| % 2 == 0 && AllHex(s) then
      Some(seq(|s| / 2, i requires 0 <= i < |s| / 2 => 16 * HexValue(s[2 * i]).value + HexValue(s[2 * i + 1]).value))
    else None
  }
}
