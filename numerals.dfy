/** Python's `int()` on a decimal string and `str()` on an integer. */
module Numerals {
  import opened Wrappers
  import opened Text

  predicate IsDigit(c: char) {
    '0' <= c <= '9'
  }

  predicate AllDigits(s: string) {
    forall i :: 0 <= i < |s| ==> IsDigit(s[i])
  }

  /** The value of a string of decimal digits, most significant first. */
  function DigitsValue(ds: string): nat
    requires AllDigits(ds)
    decreases |ds|
  {
    if ds == [] then 0
    else DigitsValue(ds[..|ds| - 1]) * 10 + (ds[|ds| - 1] as int - '0' as int)
  }

  /** `str(n)` for a natural number: its shortest decimal digits. */
  function NatToString(n: nat): (s: string)
    ensures |s| > 0 && AllDigits(s)
    ensures DigitsValue(s) == n
  {
    if n < 10 then [('0' as int + n) as char]
    else
      var s := NatToString(n / 10) + [('0' as int + n % 10) as char];
      assert s[..|s| - 1] == NatToString(n / 10);
      s
  }

  /** `str(x)` for an integer. */
  function IntToString(x: int): string {
    if x < 0 then "-" + NatToString(-x) else NatToString(x)
  }

  /**
   * The whitespace `int()` skips around a numeral: space and \t \n \v \f \r.
   * Unlike `str.isspace()`, it does not include \x1c-\x1f.
   */
  predicate IsIntSpace(c: char) {
    c == ' ' || ('\t' <= c <= '\r')
  }

  /**
   * `int(s)`: surrounding whitespace is ignored, then an optional sign and at
   * least one decimal digit; anything else is a ValueError (None).
   */
  function ParseInt(s: string): Option<int> {
    var t := Strip(s, IsIntSpace);
    var body := if t != [] && (t[0] == '-' || t[0] == '+') then t[1..] else t;
    if body != [] && AllDigits(body) then
      var magnitude: int := DigitsValue(body);
      Some(if t[0] == '-' then -magnitude else magnitude)
    else None
  }

  /** A string that starts and ends with non-whitespace is its own strip. */
  lemma StripNoSpace(s: string)
    requires s != [] && !IsIntSpace(s[0]) && !IsIntSpace(s[|s| - 1])
    ensures Strip(s, IsIntSpace) == s
  {
    assert TrimLeft(s, IsIntSpace) == s;
  }

  /**
   * A string whose first character is neither whitespace `int()` skips, nor
   * a sign, nor a digit is not a numeral.
   */
  lemma ParseIntRejects(s: string)
    requires s != [] && !IsIntSpace(s[0]) && !IsIntSpace(s[|s| - 1])
    requires !IsDigit(s[0]) && s[0] != '-' && s[0] != '+'
    ensures ParseInt(s) == None
  {
    StripNoSpace(s);
  }

  /** A file separator (\x1c) in front of the digits is not skipped: `int()` raises. */
  lemma FileSeparatorNotSkipped()
    ensures ParseInt("\U{1c}5") == None
  {
    ParseIntRejects("\U{1c}5");
  }

  /** `int(str(x)) == x`. */
  lemma ParseIntOfString(x: int)
    ensures ParseInt(IntToString(x)) == Some(x)
  {
    var s := IntToString(x);
    if x < 0 {
      var ds := NatToString(-x);
      assert s == "-" + ds;
      assert s[1..] == ds;
      assert IsDigit(ds[|ds| - 1]);
      assert s[|s| - 1] == ds[|ds| - 1];
      StripNoSpace(s);
    } else {
      assert IsDigit(s[0]) && IsDigit(s[|s| - 1]);
      StripNoSpace(s);
    }
  }
}
