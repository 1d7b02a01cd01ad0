/**
 * Decimal text of unsigned integers: the `Display` of `u64`, and the
 * `str::parse::<usize>()` that reads a list index out of a path segment.
 */
module Decimal {
  import opened Wrappers
  import opened Scalars

  predicate IsDigit(c: char) {
    '0' <= c <= '9'
  }

  predicate AllDigits(s: string) {
    forall i :: 0 <= i < |s| ==> IsDigit(s[i])
  }

  /** The value of a string of decimal digits, most significant digit first. */
  function DigitsValue(s: string): nat
    requires AllDigits(s)
  {
    if |s| == 0 then 0
    else DigitsValue(s[..|s| - 1]) * 10 + (s[|s| - 1] as int - '0' as int)
  }

  /** The text after the optional leading `+` of an unsigned number. */
  function DigitPart(s: string): (d: string)
    ensures |s| > 0 && s[0] == '+' ==> d == s[1..]
    ensures |s| == 0 || s[0] != '+' ==> d == s
  {
    if |s| > 0 && s[0] == '+' then s[1..] else s
  }

  /**
   * `usize::from_str`: an optional leading `+`, then at least one ASCII
   * digit and nothing else; values of 2^64 or more overflow and fail.
   */
  function ParseUsize(s: string): (r: Option<nat>)
    ensures r.Some? ==> r.value < U64_LIMIT
    ensures r.Some? ==> |s| > 0 && (IsDigit(s[0]) || s[0] == '+')
    ensures |s| == 0 || s == "+" ==> r == None
  {
    var digits := DigitPart(s);
    if |digits| == 0 || !AllDigits(digits) then None
    else
      var n := DigitsValue(digits);
      if n < U64_LIMIT then Some(n) else None
  }

  /**
   * What `ParseUsize` accepts and what it reads: the text after the optional
   * `+` must be a non-empty run of digits whose value is below 2^64, and that
   * value is the result.
   */
  lemma ParseUsizeAccepts(s: string)
    ensures var d := DigitPart(s);
            ParseUsize(s).Some? <==> |d| > 0 && AllDigits(d) && DigitsValue(d) < U64_LIMIT
    ensures ParseUsize(s).Some? ==> ParseUsize(s).value == DigitsValue(DigitPart(s))
  {
  }

  /** The shortest decimal text of `n`, as `u64`'s `Display` writes it. */
  function NatToString(n: nat): (r: string)
    ensures |r| > 0 && AllDigits(r)
    ensures r[0] != '0' || n == 0
  {
    var d := ['0' + ((n % 10) as char)];
    if n < 10 then d else NatToString(n / 10) + d
  }

  /** Reading back the digits that `NatToString` writes gives the number. */
  lemma {:induction false} DigitsValueOfNatToString(n: nat)
    ensures DigitsValue(NatToString(n)) == n
  {
    var s := NatToString(n);
    if n >= 10 {
      DigitsValueOfNatToString(n / 10);
      assert s[..|s| - 1] == NatToString(n / 10);
    }
  }

  /** Every index the model can hold survives a trip through its decimal text. */
  lemma ParseNatToString(n: nat)
    requires n < U64_LIMIT
    ensures ParseUsize(NatToString(n)) == Some(n)
  {
    DigitsValueOfNatToString(n);
  }
}
