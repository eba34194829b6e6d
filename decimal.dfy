/**
 * Python's `str(n)` for a non-negative int and `int(s)` for a string of
 * decimal digits: the two conversions the year list and the slider marks
 * go through.
 */
module Decimal {
  import opened Wrappers

  function DigitChar(d: nat): char
    requires d < 10
  {
    (48 + d) as char
  }

  function DigitValue(c: char): Option<nat>
  {
    if '0' <= c <= '9' then Some(c as int - 48) else None
  }

  /** `str(n)`: the decimal digits of `n`, without leading zeros. */
  function DecimalString(n: nat): (s: string)
    ensures |s| > 0
    ensures forall k :: 0 <= k < |s| ==> '0' <= s[k] <= '9'
    ensures |s| > 1 ==> s[0] != '0'
  {
    if n < 10 then [DigitChar(n)] else DecimalString(n / 10) + [DigitChar(n % 10)]
  }

  /**
   * `int(s)`: defined on exactly the non-empty runs of decimal digits; `None`
   * where Python raises `ValueError`. Signs, blanks and underscores, which
   * `int` also accepts, never occur in the strings this program parses.
   */
  function ParseDecimal(s: string): (r: Option<nat>)
    ensures r.Some? <==> |s| > 0 && forall k :: 0 <= k < |s| ==> '0' <= s[k] <= '9'
  {
    if |s| == 0 then None
    else
      var last := DigitValue(s[|s| - 1]);
      if |s| == 1 then last
      else
        assert forall k :: 0 <= k < |s| - 1 ==> s[..|s| - 1][k] == s[k];
        match ParseDecimal(s[..|s| - 1])
        case None => None
        case Some(h) => if last.None? then None else Some(10 * h + last.value)
  }

  /** `int(str(n)) == n`. */
  lemma {:induction false} ParseDecimalString(n: nat)
    ensures ParseDecimal(DecimalString(n)) == Some(n)
  {
    if n >= 10 {
      var s := DecimalString(n);
      assert s[..|s| - 1] == DecimalString(n / 10);
      ParseDecimalString(n / 10);
    }
  }

  /** `str` is injective, so distinct years give distinct labels. */
  lemma DecimalStringInjective(m: nat, n: nat)
    requires DecimalString(m) == DecimalString(n)
    ensures m == n
  {
    ParseDecimalString(m);
    ParseDecimalString(n);
  }
}
