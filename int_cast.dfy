/** Python's `int(text)` on an already stripped string, and `str(n)` for an
    integer `n`. Digits are the ASCII ones. */
module IntCast {
  import opened StrMethods

  /** One or more digits, where a single underscore may stand between two
      digits (`1_000`), as `int` allows. */
  predicate IsDigitRun(s: string)
  {
    |s| > 0 && IsDigit(s[0])
    && forall k | 0 <= k < |s| :: IsDigit(s[k]) || (s[k] == '_' && k + 1 < |s| && IsDigit(s[k + 1]))
  }

  /** The strings `int` accepts once stripped: an optional sign followed by a
      digit run. Anything else makes `int` raise `ValueError`, and so does a
      run of more digits than the interpreter's digit limit, which is not
      modelled. */
  predicate IsIntLiteral(s: string)
  {
    |s| > 0 && if s[0] == '+' || s[0] == '-' then IsDigitRun(s[1..]) else IsDigitRun(s)
  }

  function DigitValue(c: char): nat
    requires IsDigit(c)
  {
    c as int - '0' as int
  }

  /** The number a digit run denotes, underscores skipped. */
  function RunValue(s: string): nat
    requires forall k | 0 <= k < |s| :: IsDigit(s[k]) || s[k] == '_'
  {
    if s == [] then 0
    else if s[|s| - 1] == '_' then RunValue(s[..|s| - 1])
    else 10 * RunValue(s[..|s| - 1]) + DigitValue(s[|s| - 1])
  }

  /** `int(s)` for a string it accepts. */
  function IntValue(s: string): int
    requires IsIntLiteral(s)
  {
    if s[0] == '-' then -(RunValue(s[1..]) as int)
    else if s[0] == '+' then RunValue(s[1..])
    else RunValue(s)
  }

  function DigitChar(d: nat): (c: char)
    requires d < 10
    ensures IsDigit(c) && DigitValue(c) == d
  {
    ('0' as int + d) as char
  }

  /** `str(n)` for a natural number: its decimal digits, without leading
      zeros. */
  function ShowNat(n: nat): (s: string)
    ensures |s| > 0 && forall k | 0 <= k < |s| :: IsDigit(s[k])
    ensures |s| > 1 ==> s[0] != '0'
  {
    if n < 10 then [DigitChar(n)] else ShowNat(n / 10) + [DigitChar(n % 10)]
  }

  /** `str(n)` for an integer. */
  function Show(n: int): string
  {
    if n < 0 then "-" + ShowNat(-n) else ShowNat(n)
  }

  lemma {:induction false} RunValueOfShowNat(n: nat)
    ensures RunValue(ShowNat(n)) == n
  {
    if n >= 10 {
      var s := ShowNat(n);
      assert s[..|s| - 1] == ShowNat(n / 10);
      RunValueOfShowNat(n / 10);
    }
  }

  /** `int(str(n)) == n`: the text of every integer is accepted by `int` and
      read back as the same integer. */
  lemma ShowRoundTrip(n: int)
    ensures IsIntLiteral(Show(n)) && IntValue(Show(n)) == n
  {
    if n < 0 {
      assert Show(n)[1..] == ShowNat(-n);
      RunValueOfShowNat(-n);
    } else {
      RunValueOfShowNat(n);
    }
  }
}
