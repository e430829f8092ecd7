/**
 * Decimal rendering of a non-negative integer, as the "%d" verb of Go's fmt
 * package writes it, with its inverse. The stream test builds its messages
 * as "ping-%d".
 */
module Decimal {

  predicate IsDigit(c: char) {
    '0' <= c <= '9'
  }

  function DigitChar(d: nat): (c: char)
    requires d < 10
    ensures IsDigit(c) && c as int - '0' as int == d
  {
    ('0' as int + d) as char
  }

  function DigitValue(c: char): nat
    requires IsDigit(c)
  {
    c as int - '0' as int
  }

  /** The shortest decimal numeral for `n`: no sign and no leading zero. */
  function FormatNat(n: nat): (s: string)
    ensures |s| >= 1
    ensures forall k :: 0 <= k < |s| ==> IsDigit(s[k])
    ensures s[0] == '0' <==> n == 0
    ensures |s| == 1 <==> n < 10
    decreases n
  {
    if n < 10 then [DigitChar(n)] else FormatNat(n / 10) + [DigitChar(n % 10)]
  }

  /** The value of a numeral made of decimal digits. */
  function ParseNat(s: string): nat
    requires forall k :: 0 <= k < |s| ==> IsDigit(s[k])
    decreases |s|
  {
    if s == [] then 0 else 10 * ParseNat(s[..|s| - 1]) + DigitValue(s[|s| - 1])
  }

  /** Reading back a formatted number gives the number. */
  lemma {:induction false} ParseFormat(n: nat)
    ensures ParseNat(FormatNat(n)) == n
    decreases n
  {
    if n >= 10 {
      var s := FormatNat(n);
      assert s[..|s| - 1] == FormatNat(n / 10);
      ParseFormat(n / 10);
    }
  }

  /** Distinct numbers are written differently. */
  lemma FormatInjective(m: nat, n: nat)
    ensures FormatNat(m) == FormatNat(n) <==> m == n
  {
    if FormatNat(m) == FormatNat(n) {
      ParseFormat(m);
      ParseFormat(n);
    }
  }
}
