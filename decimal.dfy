/**
  Decimal text of integers as the page's script produces it: `String(n)` for an
  integral Number, `padStart` with a one-character filler, and the `pad` helper
  `(n) => String(n).padStart(2, "0")` that both the countdown and the calendar
  serialiser use.  `DigitsValue` reads a string of digits back, so every rendering
  here has a stated inverse.
*/
module Decimal {

  predicate IsDigit(c: char) {
    '0' <= c <= '9'
  }

  predicate AllDigits(s: string) {
    forall i | 0 <= i < |s| :: IsDigit(s[i])
  }

  function DigitValue(c: char): int
    requires IsDigit(c)
  {
    c as int - '0' as int
  }

  function DigitChar(d: int): (c: char)
    requires 0 <= d < 10
    ensures IsDigit(c) && DigitValue(c) == d
  {
    (d + '0' as int) as char
  }

  function Pow10(k: nat): (p: nat)
    ensures p >= 1
  {
    if k == 0 then 1 else 10 * Pow10(k - 1)
  }

  /** `String(n)` for a non-negative integer: its decimal digits, most significant
      first; the leading digit is '0' only for zero itself. */
  function NatToString(n: nat): (s: string)
    ensures 1 <= |s| && AllDigits(s)
    ensures s[0] == '0' <==> n == 0
  {
    if n < 10 then [DigitChar(n)] else NatToString(n / 10) + [DigitChar(n % 10)]
  }

  /** `String(i)` for any integer. */
  function IntToString(i: int): string {
    if i < 0 then "-" + NatToString(-i) else NatToString(i)
  }

  /** `n` copies of `c`. */
  function Repeat(c: char, n: nat): (r: string)
    ensures |r| == n && forall i | 0 <= i < n :: r[i] == c
  {
    if n == 0 then [] else [c] + Repeat(c, n - 1)
  }

  /** `s.padStart(width, fill)`: the filler is prepended until the width is
      reached; a string already as long as `width` is returned unchanged. */
  function PadStart(s: string, width: nat, fill: char): (r: string)
    ensures |r| == if |s| < width then width else |s|
    ensures r[|r| - |s|..] == s
    ensures forall i | 0 <= i < |r| - |s| :: r[i] == fill
  {
    if |s| >= width then s else Repeat(fill, width - |s|) + s
  }

  /** The script's `pad`: `String(n).padStart(2, "0")`. */
  function Pad2(n: int): string {
    PadStart(IntToString(n), 2, '0')
  }

  /** The value of a string of decimal digits (the empty string reads as 0). */
  function DigitsValue(s: string): nat
    requires AllDigits(s)
  {
    if |s| == 0 then 0 else 10 * DigitsValue(s[..|s| - 1]) + DigitValue(s[|s| - 1])
  }

  /** Reading the rendering of `n` back gives `n`. */
  lemma {:induction false} NatToStringValue(n: nat)
    ensures DigitsValue(NatToString(n)) == n
  {
    if n >= 10 {
      var s := NatToString(n / 10);
      var r := s + [DigitChar(n % 10)];
      assert NatToString(n) == r;
      assert r[..|r| - 1] == s;
      NatToStringValue(n / 10);
    }
  }

  /** A string of `k` digits reads as a number below `10^k`. */
  lemma {:induction false} DigitsValueBound(s: string)
    requires AllDigits(s)
    ensures DigitsValue(s) < Pow10(|s|)
    ensures |s| > 0 && s[0] != '0' ==> Pow10(|s| - 1) <= DigitsValue(s)
  {
    if |s| > 0 {
      DigitsValueBound(s[..|s| - 1]);
    }
  }

  /** A leading zero does not change the value. */
  lemma {:induction false} LeadingZeroValue(s: string)
    requires AllDigits(s)
    ensures AllDigits("0" + s) && DigitsValue("0" + s) == DigitsValue(s)
  {
    if |s| > 0 {
      var z := "0" + s;
      assert z[..|z| - 1] == "0" + s[..|s| - 1];
      LeadingZeroValue(s[..|s| - 1]);
    }
  }

  /** Rendering is the inverse of reading on strings without a superfluous leading zero. */
  lemma {:induction false} DigitsRender(s: string)
    requires AllDigits(s) && 1 <= |s|
    requires |s| == 1 || s[0] != '0'
    ensures NatToString(DigitsValue(s)) == s
  {
    if |s| > 1 {
      var p := s[..|s| - 1];
      DigitsValueBound(p);
      assert p[0] == s[0];
      DigitsRender(p);
      var c := s[|s| - 1];
      var v := DigitsValue(s);
      assert v == 10 * DigitsValue(p) + DigitValue(c);
      assert v / 10 == DigitsValue(p) && v % 10 == DigitValue(c);
      assert DigitChar(DigitValue(c)) == c;
      assert NatToString(v) == p + [c];
      assert s == p + [c];
    }
  }

  /** `n` has exactly `k` digits when `10^(k-1) <= n < 10^k` (or `k == 1` and `n < 10`). */
  lemma {:induction false} NatToStringLength(n: nat, k: nat)
    requires 1 <= k && n < Pow10(k)
    requires k == 1 || Pow10(k - 1) <= n
    ensures |NatToString(n)| == k
  {
    if k > 1 {
      NatToStringLength(n / 10, k - 1);
    }
  }

  /** `pad` is a minimum width, never a truncation: it is `String(n)` when that
      already has two characters, a '0' before it otherwise. */
  lemma PadLength(n: int)
    ensures |Pad2(n)| == if |IntToString(n)| < 2 then 2 else |IntToString(n)|
    ensures |IntToString(n)| >= 2 ==> Pad2(n) == IntToString(n)
    ensures |IntToString(n)| < 2 ==> Pad2(n) == "0" + IntToString(n)
  {
  }

  /** For a count, `pad` gives digits that read back as the count; a one-digit
      count becomes "0" and its digit, a count of 10 or more is rendered in full. */
  lemma {:induction false} PadNat(n: nat)
    ensures AllDigits(Pad2(n)) && DigitsValue(Pad2(n)) == n
    ensures n < 10 ==> Pad2(n) == ['0', DigitChar(n)]
    ensures 10 <= n ==> Pad2(n) == NatToString(n)
    ensures n < 100 ==> |Pad2(n)| == 2
  {
    NatToStringValue(n);
    if n < 10 {
      assert NatToString(n) == [DigitChar(n)];
      LeadingZeroValue(NatToString(n));
    } else {
      if n < 100 {
        NatToStringLength(n, 2);
      }
    }
  }

  /** A count below 100 pads to exactly two digits that read back as the count. */
  lemma PadTwoDigits(n: int)
    requires 0 <= n < 100
    ensures |Pad2(n)| == 2 && AllDigits(Pad2(n)) && DigitsValue(Pad2(n)) == n
  {
    PadNat(n);
  }

  /** A four-digit number renders as four digits that read back as the number. */
  lemma FourDigits(n: int)
    requires 1000 <= n < 10000
    ensures |IntToString(n)| == 4 && AllDigits(IntToString(n)) && DigitsValue(IntToString(n)) == n
  {
    NatToStringLength(n, 4);
    NatToStringValue(n);
  }

  /** Two digits read and re-padded give back the same two characters. */
  lemma {:induction false} PadReadBack(s: string)
    requires |s| == 2 && AllDigits(s)
    ensures Pad2(DigitsValue(s)) == s
  {
    var v := DigitsValue(s);
    assert s[..1] == [s[0]];
    assert s[..|s| - 1] == s[..1] && s[..1][..0] == [];
    assert DigitsValue(s[..1]) == DigitValue(s[0]);
    if s[0] == '0' {
      assert v == DigitValue(s[1]);
      PadNat(v);
      assert DigitChar(v) == s[1];
    } else {
      DigitsRender(s);
      DigitsValueBound(s);
      PadNat(v);
    }
  }

  /** The number of digits a string starts with. */
  function LeadingDigits(s: string): (k: nat)
    ensures k <= |s|
  {
    if |s| == 0 || !IsDigit(s[0]) then 0 else 1 + LeadingDigits(s[1..])
  }

  /** Digits followed by a non-digit: the run of leading digits is exactly the digits. */
  lemma {:induction false} LeadingDigitsOf(a: string, b: string)
    requires AllDigits(a) && |b| > 0 && !IsDigit(b[0])
    ensures LeadingDigits(a + b) == |a|
  {
    if |a| > 0 {
      assert (a + b)[1..] == a[1..] + b;
      LeadingDigitsOf(a[1..], b);
    }
  }

  /** A string of digits followed by a non-digit splits there, and only there. */
  lemma DigitRunSplit(a: string, b: string, c: string, d: string)
    requires AllDigits(a) && AllDigits(c)
    requires |b| > 0 && !IsDigit(b[0]) && |d| > 0 && !IsDigit(d[0])
    requires a + b == c + d
    ensures a == c && b == d
  {
    LeadingDigitsOf(a, b);
    LeadingDigitsOf(c, d);
    assert a == (a + b)[..|a|] && c == (c + d)[..|c|];
    assert b == (a + b)[|a|..] && d == (c + d)[|c|..];
  }
}
