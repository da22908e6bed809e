/** The pieces of the ECMAScript standard library that the paste rules rely
    on: the white-space set shared by `String.prototype.trim` and `parseInt`,
    `trim` itself, and `parseInt` with radix 10 (section 19.2.5 of ECMA-262),
    together with a decimal rendering of integers that `parseInt` inverts. */
module EcmaScript {
  import opened Wrappers

  /** WhiteSpace and LineTerminator code points of ECMA-262 (sections 12.2
      and 12.3): TAB, VT, FF, ZWNBSP, the space separators (category Zs)
      and LF, CR, LS, PS. */
  predicate IsWhitespace(c: char) {
    || c == '\t' || c == '\U{B}' || c == '\U{C}' || c == '\U{FEFF}'
    || c == ' ' || c == '\U{A0}' || c == '\U{1680}'
    || ('\U{2000}' <= c <= '\U{200A}')
    || c == '\U{202F}' || c == '\U{205F}' || c == '\U{3000}'
    || c == '\n' || c == '\r' || c == '\U{2028}' || c == '\U{2029}'
  }

  predicate AllWhitespace(s: string) {
    forall i :: 0 <= i < |s| ==> IsWhitespace(s[i])
  }

  predicate IsDecimalDigit(c: char) {
    '0' <= c <= '9'
  }

  predicate AllDigits(s: string) {
    forall i :: 0 <= i < |s| ==> IsDecimalDigit(s[i])
  }

  /** Length of the longest prefix of `s` made of white space. */
  function LeadingWhitespace(s: string): (k: nat)
    ensures k <= |s|
    ensures AllWhitespace(s[..k])
    ensures k == |s| || !IsWhitespace(s[k])
  {
    if |s| > 0 && IsWhitespace(s[0]) then
      var k' := LeadingWhitespace(s[1..]);
      assert s[..1 + k'] == [s[0]] + s[1..][..k'];
      1 + k'
    else 0
  }

  /** Length of the longest suffix of `s` made of white space. */
  function TrailingWhitespace(s: string): (k: nat)
    ensures k <= |s|
    ensures AllWhitespace(s[|s| - k..])
    ensures k == |s| || !IsWhitespace(s[|s| - 1 - k])
  {
    if |s| > 0 && IsWhitespace(s[|s| - 1]) then
      var init := s[..|s| - 1];
      var k' := TrailingWhitespace(init);
      assert s[|s| - (1 + k')..] == init[|init| - k'..] + [s[|s| - 1]];
      1 + k'
    else 0
  }

  /** `s` without its leading white space (`String.prototype.trimStart`). */
  function TrimStart(s: string): (t: string)
    ensures |t| <= |s| && AllWhitespace(s[..|s| - |t|]) && t == s[|s| - |t|..]
    ensures t == [] || !IsWhitespace(t[0])
  {
    s[LeadingWhitespace(s)..]
  }

  /** `s` without its trailing white space (`String.prototype.trimEnd`). */
  function TrimEnd(s: string): (t: string)
    ensures |t| <= |s| && AllWhitespace(s[|t|..]) && t == s[..|t|]
    ensures t == [] || !IsWhitespace(t[|t| - 1])
  {
    s[..|s| - TrailingWhitespace(s)]
  }

  /** `String.prototype.trim`: `s` without its leading and trailing white
      space. The result is empty exactly when `s` is white space only, and
      otherwise starts and ends with a character that is not white space. */
  function Trim(s: string): (t: string)
    ensures |t| <= |s|
    ensures t == [] <==> AllWhitespace(s)
    ensures t != [] ==> !IsWhitespace(t[0]) && !IsWhitespace(t[|t| - 1])
  {
    var rest := TrimStart(s);
    var t := TrimEnd(rest);
    if t == [] then
      TrimStartOfBlank(s, rest);
      t
    else
      assert t[0] == rest[0];
      assert !AllWhitespace(s) by { assert rest[0] == s[|s| - |rest|]; }
      t
  }

  lemma TrimStartOfBlank(s: string, rest: string)
    requires rest == TrimStart(s)
    requires TrimEnd(rest) == []
    ensures AllWhitespace(s)
  {
    assert rest == [];
    assert s == s[..|s| - |rest|];
  }

  /** Numeric value of one decimal digit. */
  function DigitValue(c: char): (d: nat)
    requires IsDecimalDigit(c)
    ensures d < 10
  {
    (c as int) - ('0' as int)
  }

  /** The digit character of `d`. */
  function DigitChar(d: nat): (c: char)
    requires d < 10
    ensures IsDecimalDigit(c) && DigitValue(c) == d
  {
    (('0' as int) + d) as char
  }

  /** The number a string of decimal digits denotes, most significant digit
      first. */
  function DecimalValue(ds: string): nat
    requires AllDigits(ds)
  {
    if ds == [] then 0
    else DecimalValue(ds[..|ds| - 1]) * 10 + DigitValue(ds[|ds| - 1])
  }

  /** Length of the longest prefix of `s` made of decimal digits. */
  function DigitRun(s: string): (k: nat)
    ensures k <= |s|
    ensures AllDigits(s[..k])
    ensures k == |s| || !IsDecimalDigit(s[k])
  {
    if |s| > 0 && IsDecimalDigit(s[0]) then
      var k' := DigitRun(s[1..]);
      assert s[..1 + k'] == [s[0]] + s[1..][..k'];
      1 + k'
    else 0
  }

  /** The longest run of decimal digits at the start of `body`, as a number;
      `None` when `body` does not start with a digit. */
  function ParseDigits(body: string): Option<nat> {
    var k := DigitRun(body);
    if k == 0 then None else Some(DecimalValue(body[..k]))
  }

  /** An optional sign followed by digits. */
  function ParseSigned(rest: string): Option<int> {
    if |rest| > 0 && rest[0] == '-' then
      match ParseDigits(rest[1..])
      case None => None
      case Some(m) => Some(-(m as int))
    else if |rest| > 0 && rest[0] == '+' then
      match ParseDigits(rest[1..])
      case None => None
      case Some(m) => Some(m)
    else
      match ParseDigits(rest)
      case None => None
      case Some(m) => Some(m)
  }

  /** `parseInt(s, 10)` on integers: skip leading white space, take an
      optional sign, then the longest run of decimal digits. An empty run
      gives NaN, modelled as `None`. Whatever follows the digits is ignored. */
  function ParseInt(s: string): Option<int> {
    ParseSigned(s[LeadingWhitespace(s)..])
  }

  /** Decimal digits of a natural number, without leading zeros. */
  function Digits(n: nat): (ds: string)
    ensures |ds| > 0 && AllDigits(ds)
  {
    if n < 10 then [DigitChar(n)] else Digits(n / 10) + [DigitChar(n % 10)]
  }

  /** The canonical decimal numeral of an integer: a minus sign for
      negative values, then the digits of the magnitude without leading
      zeros. */
  function DecimalString(n: int): string {
    if n < 0 then "-" + Digits(-n) else Digits(n)
  }

  lemma {:induction false} DecimalValueOfDigits(n: nat)
    ensures DecimalValue(Digits(n)) == n
  {
    if n >= 10 {
      var ds := Digits(n);
      assert ds[..|ds| - 1] == Digits(n / 10);
      DecimalValueOfDigits(n / 10);
    }
  }

  lemma {:induction false} DigitRunOfDigitsThenStop(ds: string, tail: string)
    requires AllDigits(ds)
    requires tail == [] || !IsDecimalDigit(tail[0])
    ensures DigitRun(ds + tail) == |ds|
  {
    if ds != [] {
      assert (ds + tail)[1..] == ds[1..] + tail;
      DigitRunOfDigitsThenStop(ds[1..], tail);
    }
  }

  lemma {:induction false} LeadingWhitespaceOfConcat(ws: string, s: string)
    requires AllWhitespace(ws)
    ensures LeadingWhitespace(ws + s) == |ws| + LeadingWhitespace(s)
  {
    if ws != [] {
      var u := ws + s;
      assert u[0] == ws[0] && IsWhitespace(u[0]);
      assert u[1..] == ws[1..] + s;
      LeadingWhitespaceOfConcat(ws[1..], s);
      assert LeadingWhitespace(u) == 1 + LeadingWhitespace(u[1..]);
    } else {
      assert ws + s == s;
    }
  }

  /** Leading white space never changes what `parseInt` yields. */
  lemma ParseIntSkipsWhitespace(ws: string, s: string)
    requires AllWhitespace(ws)
    ensures ParseInt(ws + s) == ParseInt(s)
  {
    LeadingWhitespaceOfConcat(ws, s);
    assert (ws + s)[|ws| + LeadingWhitespace(s)..] == s[LeadingWhitespace(s)..];
  }

  lemma ParseDigitsOfDigits(n: nat, tail: string)
    requires tail == [] || !IsDecimalDigit(tail[0])
    ensures ParseDigits(Digits(n) + tail) == Some(n)
  {
    var ds := Digits(n);
    DigitRunOfDigitsThenStop(ds, tail);
    assert (ds + tail)[..|ds|] == ds;
    DecimalValueOfDigits(n);
  }

  lemma ParseSignedOfDecimal(n: int, tail: string)
    requires tail == [] || !IsDecimalDigit(tail[0])
    ensures ParseSigned(DecimalString(n) + tail) == Some(n)
  {
    var m := if n < 0 then -n else n;
    ParseDigitsOfDigits(m, tail);
    var ds := Digits(m);
    if n < 0 {
      assert ("-" + ds + tail)[1..] == ds + tail;
    } else {
      assert IsDecimalDigit((ds + tail)[0]);
    }
  }

  /** `parseInt` reads back the decimal rendering of any integer, after any
      leading white space and before any trailer that does not continue the
      digits. */
  lemma ParseIntOfDecimal(ws: string, n: int, tail: string)
    requires AllWhitespace(ws)
    requires tail == [] || !IsDecimalDigit(tail[0])
    ensures ParseInt(ws + DecimalString(n) + tail) == Some(n)
  {
    var s := DecimalString(n) + tail;
    assert ws + DecimalString(n) + tail == ws + s;
    ParseIntSkipsWhitespace(ws, s);
    assert !IsWhitespace(s[0]);
    assert s[LeadingWhitespace(s)..] == s;
    ParseSignedOfDecimal(n, tail);
  }

  /** Round trip: `parseInt` inverts the decimal rendering. */
  lemma ParseIntRoundTrip(n: int)
    ensures ParseInt(DecimalString(n)) == Some(n)
  {
    ParseIntOfDecimal("", n, "");
    assert "" + DecimalString(n) + "" == DecimalString(n);
  }

  /** What `parseInt` reads its digits from: `s` after its leading white
      space and after at most one sign character. */
  function UnsignedPart(s: string): (u: string)
    ensures |u| <= |s| && u == s[|s| - |u|..]
  {
    var rest := s[LeadingWhitespace(s)..];
    if |rest| > 0 && (rest[0] == '-' || rest[0] == '+') then rest[1..] else rest
  }

  /** `parseInt` yields NaN exactly when no decimal digit follows the
      leading white space and the optional sign. */
  lemma ParseIntNaNExactly(s: string)
    ensures ParseInt(s).None? <==> (UnsignedPart(s) == [] || !IsDecimalDigit(UnsignedPart(s)[0]))
  {
  }

  lemma ParseDigitsOfNumeral(ds: string, tail: string)
    requires ds != [] && AllDigits(ds)
    requires tail == [] || !IsDecimalDigit(tail[0])
    ensures ParseDigits(ds + tail) == Some(DecimalValue(ds))
  {
    DigitRunOfDigitsThenStop(ds, tail);
    assert (ds + tail)[..|ds|] == ds;
  }

  lemma ParseSignedOfNumeral(sign: string, ds: string, tail: string)
    requires sign == "" || sign == "+" || sign == "-"
    requires ds != [] && AllDigits(ds)
    requires tail == [] || !IsDecimalDigit(tail[0])
    ensures ParseSigned(sign + ds + tail)
            == Some(if sign == "-" then -(DecimalValue(ds) as int) else DecimalValue(ds))
  {
    ParseDigitsOfNumeral(ds, tail);
    var s := sign + ds + tail;
    if sign == "" {
      assert s == ds + tail;
      assert IsDecimalDigit(s[0]);
    } else {
      assert s[0] == sign[0];
      assert s[1..] == ds + tail;
    }
  }

  /** Any numeral, canonical or not (a `+` sign, leading zeros), after white
      space and before a trailer that does not continue the digits, parses to
      the value of its digits with its sign. */
  lemma ParseIntOfNumeral(ws: string, sign: string, ds: string, tail: string)
    requires AllWhitespace(ws)
    requires sign == "" || sign == "+" || sign == "-"
    requires ds != [] && AllDigits(ds)
    requires tail == [] || !IsDecimalDigit(tail[0])
    ensures ParseInt(ws + sign + ds + tail)
            == Some(if sign == "-" then -(DecimalValue(ds) as int) else DecimalValue(ds))
  {
    var s := sign + ds + tail;
    assert ws + sign + ds + tail == ws + s;
    ParseIntSkipsWhitespace(ws, s);
    assert s[0] == if sign == "" then ds[0] else sign[0];
    assert LeadingWhitespace(s) == 0;
    assert s[0..] == s;
    ParseSignedOfNumeral(sign, ds, tail);
  }

  /** A sign must be followed directly by digits, and only one sign is
      taken. */
  lemma ParseIntRejectsMisplacedSigns()
    ensures ParseInt("x5") == None
    ensures ParseInt("- 5") == None
    ensures ParseInt("+-5") == None
  {
    assert LeadingWhitespace("x5") == 0;
    assert "x5"[0..] == "x5";
    assert UnsignedPart("x5") == "x5";
    ParseIntNaNExactly("x5");
    assert LeadingWhitespace("- 5") == 0;
    assert "- 5"[0..] == "- 5" && "- 5"[1..] == " 5";
    assert UnsignedPart("- 5") == " 5";
    ParseIntNaNExactly("- 5");
    assert LeadingWhitespace("+-5") == 0;
    assert "+-5"[0..] == "+-5" && "+-5"[1..] == "-5";
    assert UnsignedPart("+-5") == "-5";
    ParseIntNaNExactly("+-5");
  }

  /** A `+` sign is accepted. */
  lemma ParseIntAcceptsPlusSign()
    ensures ParseInt("+5") == Some(5)
  {
    assert DecimalValue("5") == DecimalValue([]) * 10 + 5;
    assert "" + "+" + "5" + "" == "+5";
    ParseIntOfNumeral("", "+", "5", "");
  }

  /** Leading zeros are accepted. */
  lemma ParseIntAcceptsLeadingZeros()
    ensures ParseInt("007") == Some(7)
  {
    assert "007"[..2] == "00" && "00"[..1] == "0" && "0"[..0] == [];
    assert DecimalValue("0") == 0;
    assert DecimalValue("00") == 0;
    assert DecimalValue("007") == 7;
    assert "" + "" + "007" + "" == "007";
    ParseIntOfNumeral("", "", "007", "");
  }

  /** Leading white space and a trailer around a signed numeral. */
  lemma ParseIntIgnoresTrailer()
    ensures ParseInt(" -12ms") == Some(-12)
  {
    assert "12"[..1] == "1" && "1"[..0] == [];
    assert DecimalValue("1") == 1;
    assert DecimalValue("12") == 12;
    assert " " + "-" + "12" + "ms" == " -12ms";
    ParseIntOfNumeral(" ", "-", "12", "ms");
  }

  /** `parseInt` yields a number only when its input holds a decimal digit. */
  lemma ParseIntNeedsDigit(s: string)
    requires forall i :: 0 <= i < |s| ==> !IsDecimalDigit(s[i])
    ensures ParseInt(s) == None
  {
    var rest := s[LeadingWhitespace(s)..];
    var body := if |rest| > 0 && (rest[0] == '-' || rest[0] == '+') then rest[1..] else rest;
    if |body| > 0 {
      assert body[0] in s;
    }
  }
}
