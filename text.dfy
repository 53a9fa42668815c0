/** Text rendering shared by the encode-graph builder and the on-disk cache:
    how JavaScript template literals print integers and millisecond delays,
    and how `String.prototype.slice` cuts a string. */
module Text {

  /** The character of a decimal digit. */
  function DigitChar(d: nat): (c: char)
    requires d < 10
    ensures IsDigit(c)
  {
    ((('0' as int) + d) as char)
  }

  predicate IsDigit(c: char) {
    '0' <= c <= '9'
  }

  /** The value of a decimal digit character. */
  function DigitValue(c: char): (d: nat)
    requires IsDigit(c)
    ensures d < 10 && DigitChar(d) == c
  {
    (c as int) - ('0' as int)
  }

  /** True of a non-empty string made only of decimal digits (the regular
      expression `^\d+$`). */
  predicate IsDigits(s: string) {
    |s| > 0 && forall i :: 0 <= i < |s| ==> IsDigit(s[i])
  }

  /** `${n}` for a non-negative integer: its decimal digits, no leading zero. */
  function NatText(n: nat): (s: string)
    ensures IsDigits(s)
    ensures |s| > 1 ==> s[0] != '0'
    decreases n
  {
    if n < 10 then [DigitChar(n)] else NatText(n / 10) + [DigitChar(n % 10)]
  }

  /** The number a string of decimal digits denotes (the inverse of NatText). */
  function DigitsValue(s: string): nat
    requires forall i :: 0 <= i < |s| ==> IsDigit(s[i])
  {
    if s == [] then 0 else 10 * DigitsValue(s[..|s| - 1]) + DigitValue(s[|s| - 1])
  }

  lemma {:induction false} NatTextRoundTrip(n: nat)
    ensures DigitsValue(NatText(n)) == n
    decreases n
  {
    var s := NatText(n);
    if n >= 10 {
      NatTextRoundTrip(n / 10);
      assert s[..|s| - 1] == NatText(n / 10);
    }
  }

  /** Distinct numbers print differently. */
  lemma NatTextInjective(m: nat, n: nat)
    requires NatText(m) == NatText(n)
    ensures m == n
  {
    NatTextRoundTrip(m);
    NatTextRoundTrip(n);
  }

  function Pow10(k: nat): (p: nat)
    ensures p >= 1
  {
    if k == 0 then 1 else 10 * Pow10(k - 1)
  }

  /** A number has exactly k + 1 digits when it lies in [10^k, 10^(k+1)). */
  lemma {:induction false} NatTextLength(n: nat, k: nat)
    requires (k == 0 || Pow10(k) <= n) && n < Pow10(k + 1)
    ensures |NatText(n)| == k + 1
    decreases k
  {
    if k > 0 {
      assert n >= 10 by { assert Pow10(k) >= 10 by { Pow10AtLeastTen(k); } }
      assert n / 10 < Pow10(k);
      if k > 1 {
        assert Pow10(k - 1) <= n / 10 by {
          assert Pow10(k) == 10 * Pow10(k - 1);
        }
      }
      NatTextLength(n / 10, k - 1);
    }
  }

  lemma {:induction false} Pow10AtLeastTen(k: nat)
    requires k >= 1
    ensures Pow10(k) >= 10
  {
    if k > 1 {
      Pow10AtLeastTen(k - 1);
    }
  }

  /** A millisecond timestamp from 2001-09-09 to 2286-11-20 has 13 digits. */
  lemma TimestampHasThirteenDigits(ts: nat)
    requires 1_000_000_000_000 <= ts < 10_000_000_000_000
    ensures |NatText(ts)| == 13
  {
    assert Pow10(12) == 1_000_000_000_000;
    assert Pow10(13) == 10_000_000_000_000;
    NatTextLength(ts, 12);
  }

  /** The fractional part of `${r / 1000}` for 0 <= r < 1000: empty when r is
      0, else a point and up to three digits with trailing zeros dropped. */
  function FractionText(r: nat): (s: string)
    requires r < 1000
    ensures (s == "") == (r == 0)
  {
    var d1, d2, d3 := r / 100, (r / 10) % 10, r % 10;
    if r == 0 then ""
    else if d3 != 0 then ['.', DigitChar(d1), DigitChar(d2), DigitChar(d3)]
    else if d2 != 0 then ['.', DigitChar(d1), DigitChar(d2)]
    else ['.', DigitChar(d1)]
  }

  /** `${delay / 1000}` for an integer number of milliseconds: the delay in
      seconds as an exact decimal. */
  function DelayText(delay: int): (s: string)
    ensures |s| > 0
    ensures (s[0] == '-') == (delay < 0)
  {
    var m := if delay < 0 then -delay else delay;
    (if delay < 0 then "-" else "") + NatText(m / 1000) + FractionText(m % 1000)
  }

  /** JavaScript `s.slice(start, end)`: a negative bound counts from the end,
      bounds are clamped to the string, and an empty range gives "". */
  function JsSlice(s: string, start: int, end: int): (r: string)
    ensures |r| <= |s|
  {
    var from := Clamp(if start < 0 then |s| + start else start, |s|);
    var to := Clamp(if end < 0 then |s| + end else end, |s|);
    if from < to then s[from..to] else ""
  }

  function Clamp(i: int, n: nat): (r: nat)
    ensures r <= n
    ensures 0 <= i <= n ==> r == i
  {
    if i < 0 then 0 else if i > n then n else i
  }
}
