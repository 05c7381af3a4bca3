/** Decimal digit runs: the timestamp of a signature and the digits of its timezone. */
module Decimal {

  predicate IsDigit(c: char) {
    '0' <= c <= '9'
  }

  predicate IsDigitText(s: string) {
    forall c | c in s :: IsDigit(c)
  }

  function DigitValue(c: char): (v: nat)
    requires IsDigit(c)
    ensures v < 10
  {
    c as int - '0' as int
  }

  function DigitChar(v: nat): (c: char)
    requires v < 10
    ensures IsDigit(c) && DigitValue(c) == v
  {
    (v + '0' as int) as char
  }

  /**
    The value of a run of decimal digits, most significant first, read left
    to right as a decimal scan does: `acc` is the value of the digits before
    index `i`.
  */
  function DigitsValueFrom(s: string, i: nat, acc: nat): nat
    requires i <= |s| && IsDigitText(s)
    decreases |s| - i
  {
    if i == |s| then acc
    else
      assert s[i] in s;
      DigitsValueFrom(s, i + 1, acc * 10 + DigitValue(s[i]))
  }

  function DigitsValue(s: string): nat
    requires IsDigitText(s)
  {
    DigitsValueFrom(s, 0, 0)
  }

  /** Two digits read as the tens digit, then the units digit. */
  lemma TwoDigitsValue(s: string)
    requires |s| == 2 && IsDigitText(s)
    ensures DigitsValue(s) == DigitValue(s[0]) * 10 + DigitValue(s[1])
  {
    assert s[0] in s && s[1] in s;
    calc {
      DigitsValue(s);
      DigitsValueFrom(s, 0, 0);
      DigitsValueFrom(s, 1, DigitValue(s[0]));
      DigitsValueFrom(s, 2, DigitValue(s[0]) * 10 + DigitValue(s[1]));
    }
  }

  /** Appending a digit multiplies the value by ten and adds the digit. */
  lemma {:induction false} DigitsValueFromSnoc(s: string, c: char, i: nat, acc: nat)
    requires i <= |s| && IsDigitText(s) && IsDigit(c)
    ensures IsDigitText(s + [c])
    ensures DigitsValueFrom(s + [c], i, acc) == DigitsValueFrom(s, i, acc) * 10 + DigitValue(c)
    decreases |s| - i
  {
    var t := s + [c];
    assert IsDigitText(t);
    if i < |s| {
      assert s[i] in s && t[i] == s[i];
      DigitsValueFromSnoc(s, c, i + 1, acc * 10 + DigitValue(s[i]));
    } else {
      assert t[i] == c;
    }
  }

  /** The shortest decimal text of `n`: no leading zero, "0" for zero. */
  function DecimalText(n: nat): (s: string)
    ensures |s| > 0 && IsDigitText(s)
    ensures |s| > 1 ==> s[0] != '0'
  {
    if n < 10 then [DigitChar(n)] else DecimalText(n / 10) + [DigitChar(n % 10)]
  }

  /** Writing a number in decimal and reading it back gives the number. */
  lemma {:induction false} DecimalRoundTrip(n: nat)
    ensures DigitsValue(DecimalText(n)) == n
  {
    if n >= 10 {
      var front := DecimalText(n / 10);
      assert DecimalText(n) == front + [DigitChar(n % 10)];
      DecimalRoundTrip(n / 10);
      DigitsValueFromSnoc(front, DigitChar(n % 10), 0, 0);
      assert n == (n / 10) * 10 + n % 10;
    } else {
      var empty: string := [];
      DigitsValueFromSnoc(empty, DigitChar(n), 0, 0);
      assert empty + [DigitChar(n)] == DecimalText(n);
    }
  }

  /**
    The length of the run of digits that starts at `from`: what a decimal
    scan such as `strtol` consumes.
  */
  function DigitRun(s: string, from: nat): (k: nat)
    requires from <= |s|
    ensures from + k <= |s|
    ensures from + k == |s| || !IsDigit(s[from + k])
    decreases |s| - from
  {
    if from < |s| && IsDigit(s[from]) then 1 + DigitRun(s, from + 1) else 0
  }

  /** Every character the scan counted is a digit. */
  lemma {:induction false} DigitRunDigits(s: string, from: nat, i: nat)
    requires from <= |s| && from <= i < from + DigitRun(s, from)
    ensures IsDigit(s[i])
    decreases |s| - from
  {
    if i > from {
      DigitRunDigits(s, from + 1, i);
    }
  }

  /** The counted run, as a string, is all digits. */
  lemma DigitRunText(s: string, from: nat)
    requires from <= |s|
    ensures IsDigitText(s[from..from + DigitRun(s, from)])
  {
    var k := DigitRun(s, from);
    forall c | c in s[from..from + k] ensures IsDigit(c) {
      var j :| 0 <= j < k && s[from..from + k][j] == c;
      DigitRunDigits(s, from, from + j);
    }
  }

  /** A run of digits followed by a non-digit, or by the end, is scanned whole. */
  lemma {:induction false} DigitRunOf(s: string, from: nat, digits: string, rest: string)
    requires from <= |s| && s[from..] == digits + rest
    requires IsDigitText(digits)
    requires rest == [] || !IsDigit(rest[0])
    ensures DigitRun(s, from) == |digits|
    decreases |digits|
  {
    if |digits| > 0 {
      assert s[from] == s[from..][0] == digits[0];
      assert digits[0] in digits;
      assert s[from + 1..] == digits[1..] + rest;
      assert IsDigitText(digits[1..]) by {
        forall c | c in digits[1..] ensures IsDigit(c) {
          assert c in digits;
        }
      }
      DigitRunOf(s, from + 1, digits[1..], rest);
    } else {
      assert from == |s| || s[from] == s[from..][0] == rest[0];
    }
  }

  /**
    A number in decimal, padded with a leading zero to at least two digits,
    as `printf`'s "%02d" writes it.
  */
  function PadTwo(n: nat): (s: string)
    ensures |s| >= 2 && IsDigitText(s)
  {
    if n < 10 then "0" + DecimalText(n) else DecimalText(n)
  }

  /** Below one hundred the padded form is exactly the tens digit and the units digit. */
  lemma {:induction false} PadTwoDigits(n: nat)
    requires n < 100
    ensures PadTwo(n) == [DigitChar(n / 10), DigitChar(n % 10)]
  {
    if n >= 10 {
      assert DecimalText(n / 10) == [DigitChar(n / 10)];
    }
  }
}
