/** Decimal text for integers, as JavaScript writes them with `String(n)` and
    reads them back with `Number(s)`, and `padStart(2, '0')`. */
module Decimal {
  import opened Wrappers

  predicate IsDigit(c: char) {
    '0' <= c <= '9'
  }

  /** A non-empty run of decimal digits. */
  predicate IsDigits(s: string) {
    |s| >= 1 && forall i :: 0 <= i < |s| ==> IsDigit(s[i])
  }

  function DigitChar(d: int): (c: char)
    requires 0 <= d < 10
    ensures IsDigit(c) && c as int - '0' as int == d
  {
    ('0' as int + d) as char
  }

  /** The value of a string of digits, leading zeros allowed. */
  function DigitsValue(s: string): nat
    requires forall i :: 0 <= i < |s| ==> IsDigit(s[i])
  {
    if s == [] then 0 else 10 * DigitsValue(s[..|s| - 1]) + DigitValue(s[|s| - 1])
  }

  function DigitValue(c: char): (d: nat)
    requires IsDigit(c)
    ensures d < 10
  {
    c as int - '0' as int
  }

  /** `String(n)` for a non-negative integer: its digits, most significant
      first, with no leading zero. */
  function ShowNat(n: nat): (s: string)
    ensures IsDigits(s)
    ensures |s| > 1 ==> s[0] != '0'
    ensures n < 10 <==> |s| == 1
  {
    if n < 10 then [DigitChar(n)] else ShowNat(n / 10) + [DigitChar(n % 10)]
  }

  /** `String(n)` for an integer: a minus sign before negative values. */
  function Show(n: int): string {
    if n < 0 then "-" + ShowNat(-n) else ShowNat(n)
  }

  /** `Number(s)` on the integer forms this program writes: an optional minus
      sign and at least one digit. Any other text is `None` (it would be NaN
      or a value this program never stores). */
  function ParseInteger(s: string): Option<int> {
    if |s| > 0 && s[0] == '-' then
      if IsDigits(s[1..]) then Some(0 - DigitsValue(s[1..]) as int) else None
    else if IsDigits(s) then Some(DigitsValue(s))
    else None
  }

  /** `s.padStart(2, '0')`: zeros in front up to length 2; a longer text
      is kept as it is. */
  function PadStart2(s: string): string {
    if |s| >= 2 then s else seq(2 - |s|, _ => '0') + s
  }

  lemma PadStart2Spec(s: string)
    ensures var r := PadStart2(s);
      && |r| == (if |s| >= 2 then |s| else 2)
      && r[|r| - |s|..] == s
      && forall i :: 0 <= i < |r| - |s| ==> r[i] == '0'
  {
  }

  /** A month or day number as two zero-padded digits. */
  function TwoDigits(k: int): string {
    PadStart2(Show(k))
  }

  lemma {:induction false} DigitsValueOfShowNat(n: nat)
    ensures DigitsValue(ShowNat(n)) == n
  {
    if n >= 10 {
      var s := ShowNat(n / 10);
      DigitsValueOfShowNat(n / 10);
      assert (s + [DigitChar(n % 10)])[..|s|] == s;
    }
  }

  /** Reading back what `String(n)` wrote gives `n`. */
  lemma {:induction false} ParseShow(n: int)
    ensures ParseInteger(Show(n)) == Some(n)
  {
    var t := Show(n);
    if n < 0 {
      var s := ShowNat(-n);
      assert t == "-" + s && t[0] == '-' && t[1..] == s;
      DigitsValueOfShowNat(-n);
    } else {
      assert IsDigit(t[0]);
      DigitsValueOfShowNat(n);
    }
  }

  /** `String` is injective on integers. */
  lemma ShowInjective(m: int, n: int)
    requires Show(m) == Show(n)
    ensures m == n
  {
    ParseShow(m);
    ParseShow(n);
  }

  /** Every number from 0 to 99 pads to exactly two digits whose value is
      the number. */
  lemma TwoDigitsShape(k: nat)
    requires k < 100
    ensures |TwoDigits(k)| == 2 && IsDigits(TwoDigits(k))
    ensures DigitsValue(TwoDigits(k)) == k
  {
    DigitsValueOfShowNat(k);
    var s := ShowNat(k);
    if k < 10 {
      var p := TwoDigits(k);
      assert p == ['0'] + s;
      assert p[..1] == ['0'];
    } else {
      assert ShowNat(k / 10) == [DigitChar(k / 10)];
    }
  }

  /** A four-digit number is written with four digits. */
  lemma ShowNatFourDigits(n: nat)
    requires 1000 <= n <= 9999
    ensures |ShowNat(n)| == 4
  {
    assert |ShowNat(n / 1000)| == 1;
    assert |ShowNat(n / 100)| == 2;
    assert |ShowNat(n / 10)| == 3;
  }

  /** Digit strings of one width are told apart by their values. */
  lemma {:induction false} DigitsValueInjective(a: string, b: string)
    requires |a| == |b|
    requires forall i :: 0 <= i < |a| ==> IsDigit(a[i])
    requires forall i :: 0 <= i < |b| ==> IsDigit(b[i])
    requires DigitsValue(a) == DigitsValue(b)
    ensures a == b
  {
    if a != [] {
      var n := |a| - 1;
      assert DigitValue(a[n]) == DigitValue(b[n]);
      DigitsValueInjective(a[..n], b[..n]);
      assert a == a[..n] + [a[n]] && b == b[..n] + [b[n]];
    }
  }
}
