/**
  Java's 32-bit int as it shows up in the task file: decimal formatting as
  String.format("%d") does it, Integer.parseInt, and two's-complement wrap-around
  of int addition. Digits are ASCII digits.
*/
module JavaInt {
  import opened Wrappers

  const MIN_INT: int := -0x8000_0000
  const MAX_INT: int := 0x7fff_ffff

  predicate InIntRange(n: int) {
    MIN_INT <= n <= MAX_INT
  }

  /** The value Java's int arithmetic produces for the mathematical result n. */
  function Wrap(n: int): (r: int)
    ensures InIntRange(r)
    ensures (r - n) % 0x1_0000_0000 == 0
    ensures InIntRange(n) ==> r == n
  {
    (n - MIN_INT) % 0x1_0000_0000 + MIN_INT
  }

  /** Integer.MAX_VALUE + 1 overflows to Integer.MIN_VALUE. */
  lemma WrapMaxPlusOne()
    ensures Wrap(MAX_INT + 1) == MIN_INT
  {
  }

  predicate IsDigit(c: char) {
    '0' <= c <= '9'
  }

  predicate AllDigits(s: string) {
    forall k :: 0 <= k < |s| ==> IsDigit(s[k])
  }

  function DigitChar(d: nat): (c: char)
    requires d < 10
    ensures IsDigit(c) && c as int - '0' as int == d
  {
    ('0' as int + d) as char
  }

  /** The value of a string of decimal digits (leading zeros allowed). */
  function DigitsValue(s: string): nat
    requires AllDigits(s)
  {
    if s == [] then 0 else DigitsValue(s[..|s| - 1]) * 10 + (s[|s| - 1] as int - '0' as int)
  }

  /** The shortest decimal representation of n. */
  function NatToDigits(n: nat): (s: string)
    ensures |s| >= 1 && AllDigits(s)
    ensures |s| > 1 ==> s[0] != '0'
  {
    if n < 10 then [DigitChar(n)] else NatToDigits(n / 10) + [DigitChar(n % 10)]
  }

  lemma {:induction false} DigitsRoundTrip(n: nat)
    ensures DigitsValue(NatToDigits(n)) == n
  {
    if n >= 10 {
      DigitsRoundTrip(n / 10);
      var s := NatToDigits(n);
      assert s[..|s| - 1] == NatToDigits(n / 10);
    }
  }

  lemma {:induction false} DigitsLength(n: nat, width: nat)
    requires n < Pow10(width)
    ensures |NatToDigits(n)| <= width || (n == 0 && width == 0)
  {
    if n >= 10 {
      DigitsLength(n / 10, width - 1);
    }
  }

  function Pow10(k: nat): (p: nat)
    ensures p >= 1
  {
    if k == 0 then 1 else 10 * Pow10(k - 1)
  }

  function Zeros(k: nat): (s: string)
    ensures |s| == k && AllDigits(s)
    ensures forall i :: 0 <= i < k ==> s[i] == '0'
  {
    seq(k, i => '0')
  }

  /** n written with at least width digits, zero-padded on the left. */
  function Pad(n: nat, width: nat): (s: string)
    ensures AllDigits(s)
  {
    var d := NatToDigits(n);
    if |d| >= width then d
    else
      assert AllDigits(Zeros(width - |d|) + d);
      Zeros(width - |d|) + d
  }

  lemma PadLength(n: nat, width: nat)
    requires n < Pow10(width) && width > 0
    ensures |Pad(n, width)| == width
  {
    DigitsLength(n, width);
  }

  lemma {:induction false} LeadingZero(s: string)
    requires AllDigits(s)
    ensures AllDigits(['0'] + s) && DigitsValue(['0'] + s) == DigitsValue(s)
  {
    if s != [] {
      LeadingZero(s[..|s| - 1]);
      assert (['0'] + s)[..|s|] == ['0'] + s[..|s| - 1];
    }
  }

  lemma {:induction false} LeadingZeros(k: nat, s: string)
    requires AllDigits(s)
    ensures DigitsValue(Zeros(k) + s) == DigitsValue(s)
  {
    if k == 0 {
      assert Zeros(k) + s == s;
    } else {
      LeadingZeros(k - 1, s);
      assert Zeros(k) + s == ['0'] + (Zeros(k - 1) + s);
      LeadingZero(Zeros(k - 1) + s);
    }
  }

  lemma PadRoundTrip(n: nat, width: nat)
    ensures DigitsValue(Pad(n, width)) == n
  {
    DigitsRoundTrip(n);
    var d := NatToDigits(n);
    if |d| < width {
      assert Pad(n, width) == Zeros(width - |d|) + d;
      LeadingZeros(width - |d|, d);
    } else {
      assert Pad(n, width) == d;
    }
  }

  lemma {:induction false} AllZeroValue(s: string)
    requires AllDigits(s) && DigitsValue(s) == 0
    ensures s == Zeros(|s|)
  {
    if s != [] {
      AllZeroValue(s[..|s| - 1]);
      assert s == s[..|s| - 1] + [s[|s| - 1]];
    }
  }

  lemma {:induction false} ValueBelowPow10(s: string)
    requires AllDigits(s)
    ensures DigitsValue(s) < Pow10(|s|)
  {
    if s != [] {
      ValueBelowPow10(s[..|s| - 1]);
    }
  }

  /** Appending a digit to a positive number appends its character to the digits. */
  lemma NatToDigitsSnoc(v: nat, d: nat)
    requires v > 0 && d < 10
    ensures NatToDigits(v * 10 + d) == NatToDigits(v) + [DigitChar(d)]
  {
    var n := v * 10 + d;
    assert n / 10 == v && n % 10 == d;
  }

  /** A fixed-width digit string is the padded form of its own value. */
  lemma {:induction false} PadOfValue(s: string)
    requires AllDigits(s) && |s| > 0
    ensures Pad(DigitsValue(s), |s|) == s
  {
    var init, c := s[..|s| - 1], s[|s| - 1];
    assert s == init + [c];
    var v := DigitsValue(init);
    var dc: nat := c as int - '0' as int;
    assert DigitChar(dc) == c;
    assert DigitsValue(s) == v * 10 + dc;
    if v == 0 {
      AllZeroValue(init);
      assert NatToDigits(dc) == [c];
      assert s == Zeros(|s| - 1) + [c];
    } else {
      PadOfValue(init);
      ValueBelowPow10(init);
      DigitsLength(v, |init|);
      NatToDigitsSnoc(v, dc);
      var d := NatToDigits(v);
      assert init == Zeros(|init| - |d|) + d;
      assert Zeros(|s| - |d| - 1) + (d + [c]) == init + [c];
    }
  }

  /** %d formatting: an optional minus sign and the shortest digits of the magnitude. */
  function FormatInt(n: int): (s: string)
    ensures |s| >= 1 && (IsDigit(s[0]) || s[0] == '-') && IsDigit(s[|s| - 1])
    ensures forall k :: 0 <= k < |s| ==> IsDigit(s[k]) || (k == 0 && s[k] == '-')
  {
    if n < 0 then "-" + NatToDigits(-n) else NatToDigits(n)
  }

  /** The text after an optional leading '+' or '-'. */
  function Unsigned(s: string): string {
    if s != [] && (s[0] == '-' || s[0] == '+') then s[1..] else s
  }

  function Abs(n: int): nat {
    if n < 0 then -n else n
  }

  /**
    Integer.parseInt: an optional '+' or '-' followed by one or more digits whose
    value lies in the int range; None stands for NumberFormatException. Leading
    zeros are allowed, so the digits are the magnitude padded to their own width.
  */
  function ParseInt(s: string): (r: Option<int>)
    ensures r.Some? ==> InIntRange(r.value)
    ensures r.Some? <==> var d := Unsigned(s);
      d != [] && AllDigits(d) && InIntRange(if s[0] == '-' then -(DigitsValue(d) as int) else DigitsValue(d))
    ensures r.Some? ==> var d := Unsigned(s);
      d == Pad(Abs(r.value), |d|) && (r.value < 0 ==> s[0] == '-') && (r.value > 0 ==> s[0] != '-')
  {
    var d := Unsigned(s);
    if d == [] || !AllDigits(d) then None
    else
      var magnitude: int := DigitsValue(d);
      var value: int := if s[0] == '-' then -magnitude else magnitude;
      if InIntRange(value) then
        PadOfValue(d);
        Some(value)
      else None
  }

  /**
    Every int is read back from its digits padded with zeros to any width, after a
    '-' when it is negative and after an optional '+' otherwise.
  */
  lemma ParsePadded(n: int, width: nat, plus: bool)
    requires InIntRange(n)
    ensures ParseInt((if n < 0 then "-" else if plus then "+" else "") + Pad(Abs(n), width)) == Some(n)
  {
    var p := Pad(Abs(n), width);
    var sign := if n < 0 then "-" else if plus then "+" else "";
    PadRoundTrip(Abs(n), width);
    assert p != [];
    assert Unsigned(sign + p) == p by {
      if sign != "" {
        assert (sign + p)[1..] == p;
      }
    }
  }

  /** Every int that %d prints is read back by Integer.parseInt. */
  lemma ParseFormatInt(n: int)
    requires InIntRange(n)
    ensures ParseInt(FormatInt(n)) == Some(n)
  {
    ParsePadded(n, 0, false);
    assert FormatInt(n) == (if n < 0 then "-" else "") + Pad(Abs(n), 0);
  }
}
