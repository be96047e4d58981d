/** `int.TryParse(string?, out int)` as the worker calls it for the port
    numbers and the poll interval (Program.cs:59, :72 and :84):
    `NumberStyles.Integer` under the invariant culture, 32-bit signed range.
    The worker never formats a number; `FormatInt` models `int.ToString()`
    only as the inverse that `ParseFormat` is stated with. */
module Numbers {
  import opened Text

  const Int32Min: int := -0x8000_0000
  const Int32Max: int := 0x7FFF_FFFF

  predicate IsInt32(n: int) {
    Int32Min <= n <= Int32Max
  }

  /** The white space that `NumberStyles.AllowLeadingWhite` and
      `AllowTrailingWhite` skip: U+0009 to U+000D and the space. */
  predicate IsNumberWhite(c: char) {
    ('\U{9}' <= c <= '\U{D}') || c == ' '
  }

  /** Drops number white space at both ends. */
  function StripNumberWhite(s: string): (r: string)
    ensures |r| <= |s|
    ensures r == [] || (!IsNumberWhite(r[0]) && !IsNumberWhite(r[|r| - 1]))
  {
    if |s| > 0 && IsNumberWhite(s[0]) then StripNumberWhite(s[1..])
    else if |s| > 0 && IsNumberWhite(s[|s| - 1]) then StripNumberWhite(s[..|s| - 1])
    else s
  }

  predicate IsDigit(c: char) {
    '0' <= c <= '9'
  }

  predicate AllDigits(s: string) {
    forall i :: 0 <= i < |s| ==> IsDigit(s[i])
  }

  function DigitChar(d: nat): char
    requires d < 10
  {
    ('0' as int + d) as char
  }

  /** The value of a run of decimal digits, most significant first. */
  function DigitsValue(s: string): nat
    requires AllDigits(s)
  {
    if s == [] then 0
    else DigitsValue(s[..|s| - 1]) * 10 + (s[|s| - 1] as int - '0' as int)
  }

  /** `int.TryParse`: `None` stands for a `false` return. Null, an empty or
      all-blank string, a stray character, a missing digit and a value
      outside the 32-bit range all fail. */
  function TryParseInt32(s: Option<string>): (r: Option<int>)
    ensures r.Some? ==> s.Some? && IsInt32(r.value)
  {
    if s.None? then None
    else
      var t := StripNumberWhite(s.value);
      if t == [] then None
      else
        var digits := if t[0] == '-' || t[0] == '+' then t[1..] else t;
        if digits == [] || !AllDigits(digits) then None
        else
          var v: int := if t[0] == '-' then -(DigitsValue(digits) as int) else DigitsValue(digits);
          if IsInt32(v) then Some(v) else None
  }

  /** The shortest decimal digits of `n`: no leading zero except for `n == 0`. */
  function Digits(n: nat): (r: string)
    ensures r != [] && AllDigits(r)
    ensures DigitsValue(r) == n
    ensures n > 0 ==> r[0] != '0'
    ensures |r| > 1 ==> r[0] != '0'
  {
    if n < 10 then [DigitChar(n)]
    else
      var r := Digits(n / 10) + [DigitChar(n % 10)];
      assert r[..|r| - 1] == Digits(n / 10);
      r
  }

  /** `int.ToString()` under the invariant culture. */
  function FormatInt(n: int): string {
    if n < 0 then "-" + Digits(-n) else Digits(n)
  }

  /** `int.TryParse` reads back every 32-bit value `int.ToString` writes. */
  lemma ParseFormat(n: int)
    requires IsInt32(n)
    ensures TryParseInt32(Some(FormatInt(n))) == Some(n)
  {
    var s := FormatInt(n);
    assert StripNumberWhite(s) == s;
    if n < 0 {
      assert s[1..] == Digits(-n);
    }
  }
}
