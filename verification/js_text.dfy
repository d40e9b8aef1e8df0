/**
 * JavaScript strings as the browser hands them to the form handler: sequences
 * of UTF-16 code units, and the character classes that `String.prototype.replace`
 * and `parseInt` test them against.
 */
module JsText {
  /** One UTF-16 code unit. Lone surrogates are allowed, as in JavaScript. */
  newtype CodeUnit = x: int | 0 <= x < 0x1_0000

  type JsString = seq<CodeUnit>

  const ZERO: CodeUnit := 0x30
  const PLUS: CodeUnit := 0x2B
  const MINUS: CodeUnit := 0x2D

  /** `\d` in a regular expression without the `u` flag: the ASCII digits 0 to 9. */
  predicate IsDigit(u: CodeUnit) {
    0x30 <= u <= 0x39
  }

  predicate AllDigits(s: JsString) {
    forall j :: 0 <= j < |s| ==> IsDigit(s[j])
  }

  function DigitValue(u: CodeUnit): (d: nat)
    requires IsDigit(u)
    ensures d < 10
  {
    u as int - 0x30
  }

  /** How many code units StrWhiteSpaceChar lists. */
  const WHITE_SPACE_COUNT := 25

  /**
   * Entry `i` of StrWhiteSpaceChar of ECMAScript: the WhiteSpace code points
   * (tab, vertical tab, form feed, byte order mark and the space separators of
   * category Zs, U+2000 to U+200A among them) and the LineTerminator code points.
   */
  function WhiteSpaceUnit(i: nat): (u: CodeUnit)
    requires i < WHITE_SPACE_COUNT
    ensures u < PLUS || u > 0x39
  {
    if i == 0 then 0x09 else if i == 1 then 0x0B else if i == 2 then 0x0C
    else if i == 3 then 0xFEFF else if i == 4 then 0x20 else if i == 5 then 0xA0
    else if i == 6 then 0x1680 else if i <= 17 then (0x2000 + (i - 7)) as CodeUnit
    else if i == 18 then 0x202F else if i == 19 then 0x205F else if i == 20 then 0x3000
    else if i == 21 then 0x0A else if i == 22 then 0x0D else if i == 23 then 0x2028
    else 0x2029
  }

  /** Whether `u` is one of the entries from `i` on, searched in order. */
  predicate WhiteSpaceFrom(u: CodeUnit, i: nat)
    decreases WHITE_SPACE_COUNT - i
  {
    i < WHITE_SPACE_COUNT && (u == WhiteSpaceUnit(i) || WhiteSpaceFrom(u, i + 1))
  }

  predicate IsStrWhiteSpace(u: CodeUnit) {
    WhiteSpaceFrom(u, 0)
  }

  lemma {:induction false} NotWhiteSpaceFrom(u: CodeUnit, i: nat)
    requires PLUS <= u <= 0x39
    ensures !WhiteSpaceFrom(u, i)
    decreases WHITE_SPACE_COUNT - i
  {
    if i < WHITE_SPACE_COUNT {
      NotWhiteSpaceFrom(u, i + 1);
    }
  }

  /** No ASCII digit and no sign is white space. */
  lemma DigitOrSignNotWhiteSpace(u: CodeUnit)
    requires IsDigit(u) || IsSign(u)
    ensures !IsStrWhiteSpace(u)
  {
    NotWhiteSpaceFrom(u, 0);
  }

  predicate AllWhiteSpace(s: JsString) {
    forall j :: 0 <= j < |s| ==> IsStrWhiteSpace(s[j])
  }

  predicate IsSign(u: CodeUnit) {
    u == PLUS || u == MINUS
  }

  /** The UTF-16 encoding of one Unicode scalar value: one unit, or a surrogate pair. */
  function EncodeChar(c: char): (r: JsString)
    ensures 1 <= |r| <= 2
    ensures c as int < 0x1_0000 ==> r == [c as int as CodeUnit]
    ensures |r| == 2 ==> 0xD800 <= r[0] < 0xDC00 <= r[1] < 0xE000
  {
    var v := c as int;
    if v < 0x1_0000 then [v as CodeUnit]
    else [(0xD800 + (v - 0x1_0000) / 0x400) as CodeUnit, (0xDC00 + (v - 0x1_0000) % 0x400) as CodeUnit]
  }

  /** The JavaScript string holding the text `s`: its UTF-16 encoding. */
  function Utf16(s: string): (r: JsString)
    ensures |s| <= |r| <= 2 * |s|
  {
    if s == [] then [] else EncodeChar(s[0]) + Utf16(s[1..])
  }

  /**
   * Text whose every character is below U+10000 is stored one code unit per
   * character. A standalone fact about the encoding: it is why the field
   * text and its code units can be read interchangeably for ASCII input.
   */
  lemma {:induction false} Utf16OfBasicPlane(s: string)
    requires forall i :: 0 <= i < |s| ==> s[i] as int < 0x1_0000
    ensures |Utf16(s)| == |s|
    ensures forall i :: 0 <= i < |s| ==> Utf16(s)[i] as int == s[i] as int
  {
    if s != [] {
      Utf16OfBasicPlane(s[1..]);
      var r := Utf16(s);
      assert r == [s[0] as int as CodeUnit] + Utf16(s[1..]);
      forall i | 0 <= i < |s|
        ensures r[i] as int == s[i] as int
      {
        if i > 0 {
          assert r[i] == Utf16(s[1..])[i - 1];
          assert s[i] == s[1..][i - 1];
        }
      }
    }
  }

  /** Encoding text piece by piece gives the encoding of the whole text. */
  lemma {:induction false} Utf16Append(a: string, b: string)
    ensures Utf16(a + b) == Utf16(a) + Utf16(b)
  {
    if a != [] {
      assert (a + b)[0] == a[0];
      assert (a + b)[1..] == a[1..] + b;
      Utf16Append(a[1..], b);
      assert Utf16(a + b) == EncodeChar(a[0]) + Utf16(a[1..] + b);
    } else {
      assert a + b == b;
    }
  }
}
