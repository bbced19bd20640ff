/** The loosely typed values PHP code passes around, and the three PHP
    value tests the model depends on: `empty()`, `is_numeric()` and loose
    equality (`==`) against a non-numeric word. Arrays are key/value maps
    with string keys; PHP's insertion order inside a nested array is not
    modelled (only the top level is ever re-ordered, by `ksort`). */
module Php {

  datatype Value =
    | Null
    | Bool(b: bool)
    | Int(i: int)
    | Float(f: real)
    | Str(s: string)
    | Arr(entries: map<string, Value>)

  /** PHP `empty($v)`: null, false, 0, 0.0, "", "0" and the empty array. */
  predicate IsEmpty(v: Value)
  {
    match v
    case Null => true
    case Bool(b) => !b
    case Int(i) => i == 0
    case Float(f) => f == 0.0
    case Str(s) => s == "" || s == "0"
    case Arr(m) => |m| == 0
  }

  predicate IsDigit(c: char)
  {
    '0' <= c <= '9'
  }

  predicate IsWhitespace(c: char)
  {
    c == ' ' || c == '\t' || c == '\n' || c == '\r' || c as int == 11 || c as int == 12
  }

  /** Length of the run of decimal digits at the start of `s`. */
  function DigitRun(s: string): (n: nat)
    ensures n <= |s|
    ensures forall i :: 0 <= i < n ==> IsDigit(s[i])
    ensures n < |s| ==> !IsDigit(s[n])
  {
    if |s| > 0 && IsDigit(s[0]) then 1 + DigitRun(s[1..]) else 0
  }

  function TrimLeft(s: string): (r: string)
    ensures |r| <= |s|
  {
    if |s| > 0 && IsWhitespace(s[0]) then TrimLeft(s[1..]) else s
  }

  function TrimRight(s: string): (r: string)
    ensures |r| <= |s|
  {
    if |s| > 0 && IsWhitespace(s[|s| - 1]) then TrimRight(s[..|s| - 1]) else s
  }

  /** An optional exponent: empty, or `e`/`E`, an optional sign and digits. */
  predicate IsExponent(s: string)
  {
    |s| == 0
    || (|s| >= 2 && (s[0] == 'e' || s[0] == 'E') &&
        var t := if s[1] == '+' || s[1] == '-' then s[2..] else s[1..];
        |t| > 0 && DigitRun(t) == |t|)
  }

  /** Unsigned decimal: digits with at most one `.`, at least one digit in
      all, then an optional exponent. */
  predicate IsUnsignedDecimal(s: string)
  {
    var whole := DigitRun(s);
    if whole < |s| && s[whole] == '.' then
      var frac := DigitRun(s[whole + 1..]);
      whole + frac >= 1 && IsExponent(s[whole + 1 + frac..])
    else
      whole >= 1 && IsExponent(s[whole..])
  }

  /** PHP 8 numeric strings: surrounding whitespace, an optional sign, an
      unsigned decimal. (Hexadecimal and other prefixes are not numeric.) */
  predicate IsNumericString(s: string)
  {
    var t := TrimRight(TrimLeft(s));
    var u := if |t| > 0 && (t[0] == '+' || t[0] == '-') then t[1..] else t;
    IsUnsignedDecimal(u)
  }

  /** PHP `is_numeric($v)`. */
  predicate IsNumeric(v: Value)
  {
    match v
    case Int(_) => true
    case Float(_) => true
    case Str(s) => IsNumericString(s)
    case _ => false
  }

  /** PHP `$v == $word` for a non-empty, non-numeric word such as 'timer':
      a string must match exactly, `true` equals every non-empty string, and
      null, numbers and arrays never equal such a word. */
  predicate LooselyEqualsWord(v: Value, word: string)
    requires word != "" && !IsNumericString(word)
  {
    match v
    case Str(s) => s == word
    case Bool(b) => b
    case _ => false
  }

  lemma TypeWordsAreNotNumeric()
    ensures !IsNumericString("timer") && !IsNumericString("counter")
  {
  }
}
