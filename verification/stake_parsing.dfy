/**
 * How the form turns the text typed in its stake field into a number:
 * `parseInt(text.replace(/[^\d]/, ''), 10)`. The regular expression has no
 * `g` flag, so only the first code unit that is not an ASCII digit is removed.
 * `None` stands for the NaN that `parseInt` returns when there are no digits.
 */
module StakeParsing {
  import opened Wrappers
  import opened JsText

  /**
   * Where the search for `/[^\d]/` stops: the index of the first code unit
   * that is not an ASCII digit, or |s| when every unit is a digit.
   */
  function FirstNonDigit(s: JsString): (i: nat)
    ensures i <= |s|
    ensures forall j :: 0 <= j < i ==> IsDigit(s[j])
    ensures i < |s| ==> !IsDigit(s[i])
  {
    if s == [] || !IsDigit(s[0]) then 0 else FirstNonDigit(s[1..]) + 1
  }

  /**
   * `s.replace(/[^\d]/, '')`: the first non-digit unit is deleted; the units
   * before it are kept in place and those after it move down by one.
   */
  function RemoveFirstNonDigit(s: JsString): (r: JsString)
    ensures AllDigits(s) ==> r == s
    ensures !AllDigits(s) ==>
              |r| == |s| - 1 && r[..FirstNonDigit(s)] == s[..FirstNonDigit(s)] &&
              r[FirstNonDigit(s)..] == s[FirstNonDigit(s) + 1..]
  {
    var i := FirstNonDigit(s);
    if i == |s| then s else s[..i] + s[i + 1..]
  }

  /** The leading StrWhiteSpaceChar units are dropped; the rest is kept. */
  function TrimStart(s: JsString): (r: JsString)
    ensures |r| <= |s|
    ensures forall j :: 0 <= j < |s| - |r| ==> IsStrWhiteSpace(s[j])
    ensures r == [] || !IsStrWhiteSpace(r[0])
  {
    if s != [] && IsStrWhiteSpace(s[0]) then TrimStart(s[1..]) else s
  }

  function Pow10(n: nat): (p: nat)
    ensures p >= 1
  {
    if n == 0 then 1 else 10 * Pow10(n - 1)
  }

  /** The value of a string of decimal digits, most significant first. */
  function DigitsValue(ds: JsString): (v: nat)
    requires AllDigits(ds)
    ensures v < Pow10(|ds|)
  {
    if ds == [] then 0
    else
      var front := ds[..|ds| - 1];
      var v := DigitsValue(front);
      assert v + 1 <= Pow10(|front|);
      assert (v + 1) * 10 <= Pow10(|front|) * 10;
      v * 10 + DigitValue(ds[|ds| - 1])
  }

  /** The longest run of leading decimal digits, read as a number; None when it is empty. */
  function ReadDigits(u: JsString): Option<nat> {
    var n := FirstNonDigit(u);
    if n == 0 then None else Some(DigitsValue(u[..n]))
  }

  function AsInt(o: Option<nat>): Option<int> {
    match o
    case None => None
    case Some(v) => Some(v)
  }

  function Negated(o: Option<nat>): Option<int> {
    match o
    case None => None
    case Some(v) => Some(-(v as int))
  }

  /** An optional sign, then the digits; a minus sign negates the number read. */
  function ReadSigned(t: JsString): Option<int> {
    if t != [] && t[0] == MINUS then Negated(ReadDigits(t[1..]))
    else if t != [] && t[0] == PLUS then AsInt(ReadDigits(t[1..]))
    else AsInt(ReadDigits(t))
  }

  /**
   * `parseInt(s, 10)`: skip leading white space, take one optional sign, read
   * the longest run of decimal digits; NaN (here None) when that run is empty.
   */
  function ParseInt(s: JsString): Option<int> {
    ReadSigned(TrimStart(s))
  }

  /** The stake the form reads from the text typed in its stake field. */
  function ParseStake(text: JsString): Option<int> {
    ParseInt(RemoveFirstNonDigit(text))
  }

  /** What may stand before the digits `parseInt` reads: white space, then at most one sign. */
  predicate NumberLead(p: JsString) {
    AllWhiteSpace(p) || (p != [] && AllWhiteSpace(p[..|p| - 1]) && IsSign(p[|p| - 1]))
  }

  /** The digits of `n` in decimal, without leading zeros ("0" for zero). */
  function DecimalString(n: nat): (r: JsString)
    ensures r != [] && AllDigits(r)
    ensures (r[0] == ZERO) == (n == 0)
    ensures n == 0 ==> r == [ZERO]
  {
    if n < 10 then [(0x30 + n) as CodeUnit]
    else DecimalString(n / 10) + [(0x30 + n % 10) as CodeUnit]
  }

  /** What is left after the white space is a suffix of the text. */
  lemma {:induction false} TrimStartIsSuffix(s: JsString)
    ensures TrimStart(s) == s[|s| - |TrimStart(s)|..]
  {
    if s != [] && IsStrWhiteSpace(s[0]) {
      TrimStartIsSuffix(s[1..]);
    }
  }

  lemma {:induction false} TrimStartSkips(ws: JsString, x: JsString)
    requires AllWhiteSpace(ws)
    requires x == [] || !IsStrWhiteSpace(x[0])
    ensures TrimStart(ws + x) == x
  {
    if ws != [] {
      assert (ws + x)[1..] == ws[1..] + x;
      TrimStartSkips(ws[1..], x);
    }
  }

  lemma {:induction false} FirstNonDigitOfRun(ds: JsString, rest: JsString)
    requires AllDigits(ds)
    requires rest == [] || !IsDigit(rest[0])
    ensures FirstNonDigit(ds + rest) == |ds|
  {
    if ds == [] {
      assert ds + rest == rest;
    } else {
      assert (ds + rest)[0] == ds[0];
      assert (ds + rest)[1..] == ds[1..] + rest;
      FirstNonDigitOfRun(ds[1..], rest);
    }
  }

  lemma ReadDigitsOfRun(ds: JsString, rest: JsString)
    requires ds != [] && AllDigits(ds)
    requires rest == [] || !IsDigit(rest[0])
    ensures ReadDigits(ds + rest) == Some(DigitsValue(ds))
  {
    FirstNonDigitOfRun(ds, rest);
    assert (ds + rest)[..|ds|] == ds;
  }

  lemma ReadSignedAfterSign(sign: JsString, u: JsString)
    requires sign == [] || sign == [PLUS] || sign == [MINUS]
    requires u == [] || !IsSign(u[0])
    ensures ReadSigned(sign + u) ==
              if sign == [MINUS] then Negated(ReadDigits(u)) else AsInt(ReadDigits(u))
  {
    if sign == [] {
      assert sign + u == u;
    } else {
      assert (sign + u)[0] == sign[0] && (sign + u)[1..] == u;
    }
  }

  lemma ReadDigitsSomeIff(u: JsString)
    ensures ReadDigits(u).Some? <==> u != [] && IsDigit(u[0])
  {
  }

  lemma ParseIntDefinedWitness(s: JsString) returns (k: nat)
    requires ParseInt(s).Some?
    ensures k < |s| && IsDigit(s[k]) && NumberLead(s[..k])
  {
    var t := TrimStart(s);
    var w := |s| - |t|;
    TrimStartIsSuffix(s);
    if t != [] && IsSign(t[0]) {
      ReadDigitsSomeIff(t[1..]);
      k := w + 1;
      assert s[k] == t[1];
      assert s[..k][..w] == s[..w];
    } else {
      ReadDigitsSomeIff(t);
      k := w;
      assert s[k] == t[0];
    }
  }

  lemma ParseIntOfLead(ws: JsString, sign: JsString, u: JsString)
    requires AllWhiteSpace(ws)
    requires sign == [] || sign == [PLUS] || sign == [MINUS]
    requires u != [] && IsDigit(u[0])
    ensures ParseInt(ws + sign + u) ==
              if sign == [MINUS] then Negated(ReadDigits(u)) else AsInt(ReadDigits(u))
    ensures ParseInt(ws + sign + u).Some?
  {
    var x := sign + u;
    assert ws + sign + u == ws + x;
    assert x[0] == if sign == [] then u[0] else sign[0];
    DigitOrSignNotWhiteSpace(x[0]);
    TrimStartSkips(ws, x);
    ReadDigitsSomeIff(u);
    ReadSignedAfterSign(sign, u);
  }

  /** Regrouping the text does not change what `parseInt` reads from it. */
  lemma ParseIntRegroup(a: JsString, b: JsString, c: JsString, d: JsString)
    ensures ParseInt(a + b + c + d) == ParseInt(a + b + (c + d))
  {
    assert a + b + c + d == a + b + (c + d);
  }

  lemma ParseIntReadsLeadAndRun(ws: JsString, sign: JsString, ds: JsString, rest: JsString)
    requires AllWhiteSpace(ws)
    requires sign == [] || sign == [PLUS] || sign == [MINUS]
    requires ds != [] && AllDigits(ds)
    requires rest == [] || !IsDigit(rest[0])
    ensures ParseInt(ws + sign + (ds + rest)) ==
              Some(if sign == [MINUS] then -(DigitsValue(ds) as int) else DigitsValue(ds))
  {
    var u := ds + rest;
    ReadDigitsOfRun(ds, rest);
    assert u[0] == ds[0];
    ParseIntOfLead(ws, sign, u);
  }

  /**
   * `parseInt` reads exactly the digit run that follows the white space and
   * the optional sign, and negates it after a minus sign.
   */
  lemma ParseIntReadsDigits(ws: JsString, sign: JsString, ds: JsString, rest: JsString)
    requires AllWhiteSpace(ws)
    requires sign == [] || sign == [PLUS] || sign == [MINUS]
    requires ds != [] && AllDigits(ds)
    requires rest == [] || !IsDigit(rest[0])
    ensures ParseInt(ws + sign + ds + rest) ==
              Some(if sign == [MINUS] then -(DigitsValue(ds) as int) else DigitsValue(ds))
  {
    ParseIntReadsLeadAndRun(ws, sign, ds, rest);
    ParseIntRegroup(ws, sign, ds, rest);
  }

  lemma ParseIntDefinedAt(s: JsString, k: nat)
    requires k < |s| && IsDigit(s[k]) && NumberLead(s[..k])
    ensures ParseInt(s).Some?
  {
    var u := s[k..];
    assert u[0] == s[k];
    if AllWhiteSpace(s[..k]) {
      assert s == s[..k] + [] + u;
      ParseIntOfLead(s[..k], [], u);
    } else {
      assert s[..k][..k - 1] == s[..k - 1];
      assert s == s[..k - 1] + [s[k - 1]] + u;
      ParseIntOfLead(s[..k - 1], [s[k - 1]], u);
    }
  }

  /**
   * `parseInt` yields a number exactly when some digit follows a run of white
   * space and at most one sign; otherwise it yields NaN.
   */
  lemma ParseIntDefinedIff(s: JsString)
    ensures ParseInt(s).Some? <==> exists k :: 0 <= k < |s| && IsDigit(s[k]) && NumberLead(s[..k])
  {
    if ParseInt(s).Some? {
      var k := ParseIntDefinedWitness(s);
    }
    if k :| 0 <= k < |s| && IsDigit(s[k]) && NumberLead(s[..k]) {
      ParseIntDefinedAt(s, k);
    }
  }

  /** The canonical decimal digits of a number read back as that number. */
  lemma {:induction false} DecimalRoundTrip(n: nat)
    ensures DigitsValue(DecimalString(n)) == n
  {
    if n >= 10 {
      DecimalRoundTrip(n / 10);
      var r := DecimalString(n);
      assert r[..|r| - 1] == DecimalString(n / 10);
    }
  }

  /** A stake typed as plain digits is read as exactly that number. */
  lemma ParseStakeOfDecimal(n: nat)
    ensures ParseStake(DecimalString(n)) == Some(n)
  {
    var d := DecimalString(n);
    assert RemoveFirstNonDigit(d) == d;
    assert d + [] == d;
    ParseIntOfDigitRun(d, []);
    DecimalRoundTrip(n);
  }

  lemma RemoveFirstNonDigitAfterRun(ds: JsString, c: CodeUnit, tail: JsString)
    requires AllDigits(ds) && !IsDigit(c)
    ensures RemoveFirstNonDigit(ds + [c] + tail) == ds + tail
  {
    var s := ds + [c] + tail;
    assert s == ds + ([c] + tail);
    FirstNonDigitOfRun(ds, [c] + tail);
    assert s[..|ds|] == ds;
    assert s[|ds| + 1..] == tail;
  }

  lemma ParseIntOfDigitStart(u: JsString, v: nat)
    requires u != [] && IsDigit(u[0])
    requires ReadDigits(u) == Some(v)
    ensures ParseInt(u) == Some(v)
  {
    DigitOrSignNotWhiteSpace(u[0]);
    assert TrimStart(u) == u;
    ReadSignedAfterSign([], u);
    assert [] + u == u;
  }

  /** Text that starts with a digit run is read as the value of that run. */
  lemma ParseIntOfDigitRun(ds: JsString, rest: JsString)
    requires ds != [] && AllDigits(ds)
    requires rest == [] || !IsDigit(rest[0])
    ensures ParseInt(ds + rest) == Some(DigitsValue(ds))
  {
    ReadDigitsOfRun(ds, rest);
    assert (ds + rest)[0] == ds[0];
    ParseIntOfDigitStart(ds + rest, DigitsValue(ds));
  }

  /**
   * A stake with one separator (",", ".", " ", ...) is read as the digits on
   * both sides of it joined together; a second separator ends the number.
   */
  lemma ParseStakeDropsOneSeparator(d1: JsString, c: CodeUnit, d2: JsString, rest: JsString)
    requires AllDigits(d1) && AllDigits(d2) && d1 + d2 != []
    requires !IsDigit(c)
    requires rest == [] || !IsDigit(rest[0])
    ensures ParseStake(d1 + [c] + d2 + rest) == Some(DigitsValue(d1 + d2))
  {
    RemoveSeparatorBetweenRuns(d1, c, d2, rest);
    AllDigitsJoin(d1, d2);
    ParseIntOfDigitRun(d1 + d2, rest);
  }

  lemma RemoveSeparatorBetweenRuns(d1: JsString, c: CodeUnit, d2: JsString, rest: JsString)
    requires AllDigits(d1) && !IsDigit(c)
    ensures RemoveFirstNonDigit(d1 + [c] + d2 + rest) == d1 + d2 + rest
  {
    RemoveFirstNonDigitAfterRun(d1, c, d2 + rest);
    assert d1 + [c] + d2 + rest == d1 + [c] + (d2 + rest);
    assert d1 + (d2 + rest) == d1 + d2 + rest;
  }

  lemma AllDigitsJoin(a: JsString, b: JsString)
    requires AllDigits(a) && AllDigits(b)
    ensures AllDigits(a + b)
  {
  }

  /** Text with no digit at all ("" or "abc") is read as NaN. */
  lemma ParseStakeWithoutDigits(text: JsString)
    requires forall j :: 0 <= j < |text| ==> !IsDigit(text[j])
    ensures ParseStake(text) == None
  {
    var r := RemoveFirstNonDigit(text);
    assert forall u :: u in r ==> u in text;
    ParseIntDefinedIff(r);
  }
}
