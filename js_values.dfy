/** The JavaScript values a user record holds, and the conversions the dataset
    manager applies to them: string concatenation (`v + ''`), `toLowerCase`,
    `startsWith`, truthiness and the coercion of a string to a number. */
module JsValues {
  import opened Wrappers

  /** A property value: numbers are integers in this model; a property that was
      never set reads as `undefined`. */
  datatype Value = Num(n: int) | Str(s: string) | Undefined

  predicate IsAsciiLetter(c: char) {
    'a' <= c <= 'z' || 'A' <= c <= 'Z'
  }

  predicate IsDigit(c: char) {
    '0' <= c <= '9'
  }

  /** WhiteSpace and LineTerminator of ECMAScript: what `\s` matches in a regular
      expression and what string-to-number conversion trims. */
  predicate IsWhitespace(c: char) {
    || c == '\t' || c == '\n' || c == '\U{B}' || c == '\U{C}' || c == '\r' || c == ' '
    || c == '\U{A0}' || c == '\U{1680}' || '\U{2000}' <= c <= '\U{200A}'
    || c == '\U{2028}' || c == '\U{2029}' || c == '\U{202F}' || c == '\U{205F}'
    || c == '\U{3000}' || c == '\U{FEFF}'
  }

  function LowerChar(c: char): char {
    if 'A' <= c <= 'Z' then (c as int + 32) as char else c
  }

  /** `toLowerCase`, on the ASCII letters. */
  function Lower(s: string): (r: string)
    ensures |r| == |s|
    ensures forall i :: 0 <= i < |s| ==> r[i] == LowerChar(s[i])
  {
    seq(|s|, i requires 0 <= i < |s| => LowerChar(s[i]))
  }

  /** `s.startsWith(p)` */
  predicate StartsWith(s: string, p: string) {
    |p| <= |s| && s[..|p|] == p
  }

  function DigitChar(d: nat): char
    requires d < 10
  {
    ('0' as int + d) as char
  }

  /** Decimal digits of a natural number, without leading zeros. */
  function NatToString(n: nat): string
    decreases n
  {
    if n < 10 then [DigitChar(n)] else NatToString(n / 10) + [DigitChar(n % 10)]
  }

  /** `v + ''`: the string form of a value. */
  function Text(v: Value): string {
    match v
    case Num(n) => if n < 0 then "-" + NatToString(-n) else NatToString(n)
    case Str(s) => s
    case Undefined => "undefined"
  }

  /** The value of a string of decimal digits, read left to right. */
  function DigitsValue(ds: string): nat
    requires forall i :: 0 <= i < |ds| ==> IsDigit(ds[i])
  {
    if ds == [] then 0
    else
      assert IsDigit(ds[|ds| - 1]);
      DigitsValue(ds[..|ds| - 1]) * 10 + (ds[|ds| - 1] as int - '0' as int)
  }

  function TrimStart(s: string): (r: string)
    ensures |r| <= |s|
    ensures r != [] ==> !IsWhitespace(r[0])
  {
    if s != [] && IsWhitespace(s[0]) then TrimStart(s[1..]) else s
  }

  function TrimEnd(s: string): (r: string)
    ensures |r| <= |s|
    ensures r != [] ==> !IsWhitespace(r[|r| - 1])
  {
    if s != [] && IsWhitespace(s[|s| - 1]) then TrimEnd(s[..|s| - 1]) else s
  }

  predicate AllDigits(s: string) {
    forall i :: 0 <= i < |s| ==> IsDigit(s[i])
  }

  /** `Number(s)` for a string, `None` standing for NaN: surrounding whitespace is
      ignored, a blank string is 0, and otherwise an optional sign followed by
      decimal digits is accepted. */
  function ParseNumber(s: string): Option<int> {
    var t := TrimEnd(TrimStart(s));
    if t == [] then Some(0)
    else if (t[0] == '-' || t[0] == '+') && |t| > 1 && AllDigits(t[1..]) then
      var magnitude: int := DigitsValue(t[1..]);
      Some(if t[0] == '-' then -magnitude else magnitude)
    else if AllDigits(t) then Some(DigitsValue(t))
    else None
  }

  /** The numeric coercion of `isNaN`, `>` and `-`: `None` is NaN. */
  function ToNumber(v: Value): Option<int> {
    match v
    case Num(n) => Some(n)
    case Str(s) => ParseNumber(s)
    case Undefined => None
  }

  /** JavaScript truthiness: 0, "" and undefined are falsy. */
  predicate Truthy(v: Value) {
    match v
    case Num(n) => n != 0
    case Str(s) => s != ""
    case Undefined => false
  }

  lemma {:induction false} NatToStringDigits(n: nat)
    ensures NatToString(n) != []
    ensures AllDigits(NatToString(n))
    ensures DigitsValue(NatToString(n)) == n
    decreases n
  {
    if n >= 10 {
      NatToStringDigits(n / 10);
      var s := NatToString(n);
      assert s[..|s| - 1] == NatToString(n / 10);
    }
  }

  lemma TrimDigits(s: string)
    requires s != [] && AllDigits(s)
    ensures TrimEnd(TrimStart(s)) == s
  {
    assert !IsWhitespace(s[0]) && !IsWhitespace(s[|s| - 1]);
  }

  /** A minus sign before decimal digits reads as the negated digits. */
  lemma ParseNegative(d: string)
    requires d != [] && AllDigits(d)
    ensures ParseNumber("-" + d) == Some(-(DigitsValue(d) as int))
  {
    var t := "-" + d;
    assert t[1..] == d;
    assert !IsWhitespace(t[0]) && !IsWhitespace(t[|t| - 1]);
    assert TrimEnd(TrimStart(t)) == t;
  }

  /** Coercing the string form of a number back to a number gives the number:
      `Number(n + '') === n`. */
  lemma ParseText(n: int)
    ensures ParseNumber(Text(Num(n))) == Some(n)
    ensures ToNumber(Str(Text(Num(n)))) == Some(n)
  {
    var m: nat := if n < 0 then -n else n;
    NatToStringDigits(m);
    var d := NatToString(m);
    if n < 0 {
      ParseNegative(d);
    } else {
      TrimDigits(d);
    }
  }
}
