/** Decimal numbers as printf writes them and strtol reads them. */
module Decimal {
  import opened Powers

  predicate IsDigit(c: char)
  {
    '0' <= c <= '9'
  }

  function DigitChar(d: nat): char
    requires d < 10
  {
    ('0' as int + d) as char
  }

  /** "%zu" */
  function Digits(n: nat): (s: string)
    ensures s != ""
  {
    if n < 10 then [DigitChar(n)] else Digits(n / 10) + [DigitChar(n % 10)]
  }

  predicate AllDigits(s: string)
  {
    forall i :: 0 <= i < |s| ==> IsDigit(s[i])
  }

  function Number(s: string): nat
    requires AllDigits(s)
    decreases |s|
  {
    if s == "" then 0 else Number(s[..|s| - 1]) * 10 + (s[|s| - 1] as int - '0' as int)
  }

  lemma {:induction false} NumberDigits(n: nat)
    ensures AllDigits(Digits(n)) && Number(Digits(n)) == n
  {
    if n >= 10 {
      NumberDigits(n / 10);
      assert Digits(n)[..|Digits(n)| - 1] == Digits(n / 10);
    } else {
      assert Digits(n)[..0] == "";
    }
  }

  lemma DigitsInjective(m: nat, n: nat)
    requires Digits(m) == Digits(n)
    ensures m == n
  {
    NumberDigits(m);
    NumberDigits(n);
  }

  /** A number has at most as many digits as a power of ten that exceeds it has zeros. */
  function Pow10(k: nat): (p: nat)
    ensures p > 0
  {
    Pow(10, k)
  }

  lemma {:induction false} DigitsLength(n: nat, k: nat)
    requires k > 0
    ensures |Digits(n)| <= k <==> n < Pow10(k)
    decreases k
  {
    if k == 1 {
      assert Pow10(1) == 10 * Pow10(0);
      assert n >= 10 ==> |Digits(n)| == |Digits(n / 10)| + 1;
    } else if n >= 10 {
      DigitsLength(n / 10, k - 1);
      assert n / 10 < Pow10(k - 1) <==> n < 10 * Pow10(k - 1);
    } else {
      assert Pow10(k) == 10 * Pow10(k - 1);
    }
  }

  // ---------------------------------------------------------------- strtol

  const LONG_MIN := -0x8000_0000_0000_0000
  const LONG_MAX := 0x7FFF_FFFF_FFFF_FFFF

  predicate IsLong(n: int)
  {
    LONG_MIN <= n <= LONG_MAX
  }

  predicate IsSpace(c: char)
  {
    c == ' ' || 9 <= c as int <= 13
  }

  function SkipSpace(s: string): string
  {
    if s != "" && IsSpace(s[0]) then SkipSpace(s[1..]) else s
  }

  /** The number of digits a text starts with. */
  function DigitSpan(s: string): (n: nat)
    ensures n <= |s| && forall i :: 0 <= i < n ==> IsDigit(s[i])
    ensures n < |s| ==> !IsDigit(s[n])
  {
    if s != "" && IsDigit(s[0]) then 1 + DigitSpan(s[1..]) else 0
  }

  function Clamp(n: int): (r: int)
    ensures IsLong(r)
  {
    if n < LONG_MIN then LONG_MIN else if n > LONG_MAX then LONG_MAX else n
  }

  /** strtol in base 10: leading space, a sign, digits; what follows is ignored. */
  function StrToL(s: string): (r: int)
    ensures IsLong(r)
  {
    var t := SkipSpace(s);
    if t != "" && (t[0] == '-' || t[0] == '+') then
      var n: int := Number(t[1..][..DigitSpan(t[1..])]);
      Clamp(if t[0] == '-' then -n else n)
    else Clamp(Number(t[..DigitSpan(t)]))
  }

  /** "%ld" */
  function Signed(n: int): string
  {
    if n < 0 then "-" + Digits(-n) else Digits(n)
  }

  lemma {:induction false} SpanOf(ds: string, rest: string)
    requires AllDigits(ds) && (rest == "" || !IsDigit(rest[0]))
    ensures DigitSpan(ds + rest) == |ds|
    decreases |ds|
  {
    if ds == "" {
      assert ds + rest == rest;
    } else {
      assert (ds + rest)[1..] == ds[1..] + rest;
      SpanOf(ds[1..], rest);
    }
  }

  lemma {:induction false} SkipSpaces(space: string, t: string)
    requires forall i :: 0 <= i < |space| ==> space[i] as int in [9, 10, 11, 12, 13, 32]
    ensures SkipSpace(space + t) == SkipSpace(t)
    decreases |space|
  {
    if space == "" {
      assert space + t == t;
    } else {
      assert space[0] as int in [9, 10, 11, 12, 13, 32];
      assert (space + t)[1..] == space[1..] + t;
      SkipSpaces(space[1..], t);
    }
  }

  /** Spaces and a sign may stand before a number, and what a long does not hold becomes the nearest one. */
  lemma StrToLForms(space: string, n: nat, rest: string)
    requires forall i :: 0 <= i < |space| ==> space[i] as int in [9, 10, 11, 12, 13, 32]
    requires rest == "" || !IsDigit(rest[0])
    ensures var t, greatest := Digits(n) + rest, 0x7FFF_FFFF_FFFF_FFFF;
            && StrToL(space + t) == StrToL(space + ("+" + t)) == (if n > greatest then greatest else n)
            && StrToL(space + ("-" + t)) == (if n > greatest + 1 then 0 - greatest - 1 else 0 - n)
  {
    var ds := Digits(n);
    var t := ds + rest;
    NumberDigits(n);
    hide Digits, Number, DigitSpan, SkipSpace;
    SpanOf(ds, rest);
    assert t[..|ds|] == ds && IsDigit(ds[0]) && t[0] == ds[0];
    assert ("+" + t)[1..] == t && ("-" + t)[1..] == t;
    NotSpace(t);
    NotSpace("+" + t);
    NotSpace("-" + t);
    SkipSpaces(space, t);
    SkipSpaces(space, "+" + t);
    SkipSpaces(space, "-" + t);
  }

  /** A printed number followed by something that is not a digit is read back. */
  lemma StrToLSigned(n: int, rest: string)
    requires IsLong(n) && (rest == "" || !IsDigit(rest[0]))
    ensures StrToL(Signed(n) + rest) == n
  {
    var m := if n < 0 then -n else n;
    var ds := Digits(m);
    NumberDigits(m);
    hide Digits, Number, DigitSpan;
    SpanOf(ds, rest);
    assert (ds + rest)[..|ds|] == ds;
    assert IsDigit(ds[0]);
    if n < 0 {
      assert Signed(n) + rest == "-" + (ds + rest);
      NotSpace("-" + (ds + rest));
      assert ("-" + (ds + rest))[1..] == ds + rest;
    } else {
      assert (ds + rest)[0] == ds[0];
      NotSpace(ds + rest);
    }
  }

  /** A printed number that does not fit gives the greatest long. */
  lemma StrToLDigits(n: nat, rest: string)
    requires rest == "" || !IsDigit(rest[0])
    ensures StrToL(Digits(n) + rest) == Clamp(n)
  {
    var ds := Digits(n);
    NumberDigits(n);
    hide Digits, Number, DigitSpan;
    SpanOf(ds, rest);
    assert (ds + rest)[..|ds|] == ds;
    assert IsDigit(ds[0]) && (ds + rest)[0] == ds[0];
    NotSpace(ds + rest);
  }

  lemma NotSpace(t: string)
    requires t != "" && (t[0] == '-' || t[0] == '+' || IsDigit(t[0]))
    ensures SkipSpace(t) == t
  {
  }
}
