/**
 * Decimal numerals as the page writes them: `String(n)` of a non-negative
 * integer, and `String.prototype.padStart(width, '0')`.
 */
module Decimal {

  predicate IsDigit(c: char)
  {
    '0' <= c <= '9'
  }

  predicate AllDigits(s: string)
  {
    forall i :: 0 <= i < |s| ==> IsDigit(s[i])
  }

  /** A numeral without redundant leading zeros, as `String(n)` produces. */
  predicate Canonical(s: string)
  {
    |s| >= 1 && AllDigits(s) && (s[0] == '0' ==> |s| == 1)
  }

  function DigitValue(c: char): (d: nat)
    requires IsDigit(c)
    ensures d < 10
  {
    c as int - '0' as int
  }

  function DigitChar(d: nat): (c: char)
    requires d < 10
    ensures IsDigit(c) && DigitValue(c) == d
  {
    (d + '0' as int) as char
  }

  function Pow10(k: nat): (p: nat)
    ensures p >= 1
  {
    if k == 0 then 1 else 10 * Pow10(k - 1)
  }

  /** The number a string of digits denotes, most significant digit first. */
  function Value(s: string): nat
    requires AllDigits(s)
  {
    if |s| == 0 then 0 else Value(s[..|s| - 1]) * 10 + DigitValue(s[|s| - 1])
  }

  /** `String(n)` for a non-negative integer `n`. */
  function NatToString(n: nat): (s: string)
    ensures Canonical(s)
    ensures n >= 1 ==> s[0] != '0'
  {
    if n < 10 then [DigitChar(n)] else NatToString(n / 10) + [DigitChar(n % 10)]
  }

  /** `k` copies of the character `c`. */
  function Repeat(c: char, k: nat): (r: string)
    ensures |r| == k
    ensures forall i :: 0 <= i < k ==> r[i] == c
  {
    if k == 0 then [] else [c] + Repeat(c, k - 1)
  }

  /** `s.padStart(width, c)` for a one-character pad string `c`. */
  function PadStart(s: string, width: nat, c: char): (r: string)
    ensures |r| == if |s| >= width then |s| else width
    ensures r[|r| - |s|..] == s
    ensures forall i :: 0 <= i < |r| - |s| ==> r[i] == c
  {
    if |s| >= width then s else Repeat(c, width - |s|) + s
  }

  /** `String(n).padStart(width, '0')`. */
  function ZeroPad(n: nat, width: nat): (r: string)
    ensures AllDigits(r)
    ensures Value(r) == n
    ensures |r| >= width
    ensures width >= 1 && n < Pow10(width) ==> |r| == width
    ensures Pow10(width) <= 10 * n ==> r == NatToString(n)
    ensures |NatToString(n)| >= width ==> r == NatToString(n)
  {
    var s := NatToString(n);
    ValueOfNatToString(n);
    PadKeepsValue(s, width);
    NumeralWidth(n, width);
    PadStart(s, width, '0')
  }

  /** How the width of `String(n)` compares with a padding width. */
  lemma NumeralWidth(n: nat, width: nat)
    ensures width >= 1 && n < Pow10(width) ==> |NatToString(n)| <= width
    ensures Pow10(width) <= 10 * n ==> |NatToString(n)| >= width
  {
    if n < Pow10(width) && width >= 1 {
      LengthBound(n, width);
    }
    if Pow10(width) <= 10 * n {
      LengthLowerBound(n, width);
    }
  }

  /** Padding a numeral with zeros keeps it a numeral of the same value. */
  lemma PadKeepsValue(s: string, width: nat)
    requires AllDigits(s)
    ensures AllDigits(PadStart(s, width, '0'))
    ensures Value(PadStart(s, width, '0')) == Value(s)
  {
    var r := PadStart(s, width, '0');
    assert r == Repeat('0', |r| - |s|) + s;
    LeadingZeros(|r| - |s|, s);
  }

  /** Reading back `String(n)` gives `n`. */
  lemma {:induction false} ValueOfNatToString(n: nat)
    ensures Value(NatToString(n)) == n
  {
    if n >= 10 {
      var p := NatToString(n / 10);
      var s := p + [DigitChar(n % 10)];
      assert s[..|s| - 1] == p;
      ValueOfNatToString(n / 10);
    }
  }

  /** `String` is onto the canonical numerals: writing back the value of one gives it again. */
  lemma {:induction false} NatToStringOfValue(s: string)
    requires Canonical(s)
    ensures NatToString(Value(s)) == s
  {
    if |s| == 1 {
      assert s[..0] == [];
      assert DigitChar(DigitValue(s[0])) == s[0];
    } else {
      var p := s[..|s| - 1];
      assert p[0] == s[0];
      NatToStringOfValue(p);
      PositiveValue(p);
      var d := DigitValue(s[|s| - 1]);
      assert Value(s) / 10 == Value(p) && Value(s) % 10 == d;
      assert DigitChar(d) == s[|s| - 1];
      assert s == p + [s[|s| - 1]];
    }
  }

  /** A digit string that does not start with '0' denotes a positive number. */
  lemma {:induction false} PositiveValue(s: string)
    requires |s| >= 1 && AllDigits(s) && s[0] != '0'
    ensures Value(s) >= 1
  {
    if |s| > 1 {
      var p := s[..|s| - 1];
      assert p[0] == s[0];
      PositiveValue(p);
    }
  }

  /** Leading zeros do not change the value of a numeral. */
  lemma {:induction false} LeadingZeros(z: nat, s: string)
    requires AllDigits(s)
    ensures AllDigits(Repeat('0', z) + s)
    ensures Value(Repeat('0', z) + s) == Value(s)
  {
    if z > 0 {
      var t := Repeat('0', z - 1) + s;
      LeadingZeros(z - 1, s);
      OneLeadingZero(t);
      assert Repeat('0', z) == ['0'] + Repeat('0', z - 1);
      assert Repeat('0', z) + s == ['0'] + t;
      calc {
        Value(Repeat('0', z) + s);
        Value(['0'] + t);
        Value(t);
      }
    } else {
      assert Repeat('0', z) + s == s;
    }
  }

  lemma {:induction false} OneLeadingZero(s: string)
    requires AllDigits(s)
    ensures AllDigits(['0'] + s)
    ensures Value(['0'] + s) == Value(s)
  {
    if |s| > 0 {
      var t := ['0'] + s;
      assert t[..|t| - 1] == ['0'] + s[..|s| - 1];
      OneLeadingZero(s[..|s| - 1]);
    }
  }

  /** A number below 10^k takes at most k digits. */
  lemma {:induction false} LengthBound(n: nat, k: nat)
    requires k >= 1 && n < Pow10(k)
    ensures |NatToString(n)| <= k
  {
    if n >= 10 {
      assert Pow10(k) == 10 * Pow10(k - 1);
      assert n / 10 < Pow10(k - 1);
      LengthBound(n / 10, k - 1);
    }
  }

  /** A number with 10 * n >= 10^k takes at least k digits. */
  lemma {:induction false} LengthLowerBound(n: nat, k: nat)
    requires Pow10(k) <= 10 * n
    ensures |NatToString(n)| >= k
  {
    if k > 1 {
      assert Pow10(k) == 10 * Pow10(k - 1);
      assert Pow10(k - 1) <= n;
      assert Pow10(k - 1) <= 10 * (n / 10);
      LengthLowerBound(n / 10, k - 1);
    }
  }
}
