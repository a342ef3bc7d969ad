/**
 size_trunc_len of lib/util.c: a file size in a few characters, with 64-bit arithmetic.
 */
module SizeTrunc {
  import opened Options
  import opened Decimal
  import opened Powers
  import opened CString

  const UINTMAX_RANGE := 0x1_0000_0000_0000_0000
  const MAX_LEN := 19
  const SUFFIX: seq<string> := ["", "K", "M", "G", "T", "P", "E", "Z", "Y", "R", "Q"]
  const SUFFIX_LC: seq<string> := ["", "k", "m", "g", "t", "p", "e", "z", "y", "r", "q"]
  const SFX_LAST := 10

  /** The prefixes from kilo to quetta. */
  lemma Prefixes(j: nat)
    requires 1 <= j <= 10
    ensures Sfx(false, j) == ["KMGTPEZYRQ"[j - 1]] && Sfx(true, j) == ["kmgtpezyrq"[j - 1]]
    ensures Sfx(false, 0) == Sfx(true, 0) == "" && SFX_LAST == 10
  {
  }

  function Sfx(si: bool, j: nat): (s: string)
    requires j <= SFX_LAST
    ensures |s| == if j > 0 then 1 else 0
    ensures NUL !in s
  {
    if si then SUFFIX_LC[j] else SUFFIX[j]
  }

  // ---------------------------------------------------------------- arithmetic

  function Base(si: bool): nat { if si then 1000 else 1024 }
  function Half(si: bool): nat { if si then 500 else 512 }

  /** One unit of 1024 becomes 1000 of the next smaller one. */
  function ScaleStep(size: nat): (r: nat)
    ensures r < UINTMAX_RANGE
  {
    (size / 125 * 128 % UINTMAX_RANGE + size % 125 * 1024 / 1000) % UINTMAX_RANGE
  }

  function Scaled(size: nat, u: nat): nat
  {
    if u == 0 then size else ScaleStep(Scaled(size, u - 1))
  }

  /** One power of the base, with rounding. */
  function RoundStep(size: nat, si: bool): nat
  {
    (size + Half(si)) % UINTMAX_RANGE / Base(si)
  }

  /** The step is the exact product, rounded down, as long as that fits. */
  lemma ScaleStepExact(size: nat)
    ensures ScaleStep(size) == size * 1024 / 1000 % UINTMAX_RANGE
    ensures ScaleStep(size) == size * 1024 / 1000 <==> size * 1024 / 1000 < UINTMAX_RANGE
  {
    Parts(size);
    StepOf(size / 125, size % 125);
    ModFixed(size * 1024 / 1000);
  }

  lemma Parts(size: nat)
    ensures size == 125 * (size / 125) + size % 125
  {
  }

  lemma StepOf(q: nat, r: nat)
    ensures (q * 128 % UINTMAX_RANGE + r * 1024 / 1000) % UINTMAX_RANGE == (125 * q + r) * 1024 / 1000 % UINTMAX_RANGE
  {
    ProductQuotient(q, r);
    WrappedSum(q * 128, r * 1024 / 1000);
  }

  lemma ModFixed(x: nat)
    ensures x % UINTMAX_RANGE == x <==> x < UINTMAX_RANGE
  {
  }

  lemma ProductQuotient(q: nat, r: nat)
    ensures (125 * q + r) * 1024 / 1000 == q * 128 + r * 1024 / 1000
  {
    var w, d := r * 1024 / 1000, r * 1024 % 1000;
    assert (125 * q + r) * 1024 == 1000 * (q * 128 + w) + d;
    QuotientIs((125 * q + r) * 1024, q * 128 + w, d);
  }

  lemma QuotientIs(n: nat, k: nat, d: nat)
    requires n == 1000 * k + d && d < 1000
    ensures n / 1000 == k
  {
  }

  lemma WrappedSum(x: nat, y: nat)
    ensures (x % UINTMAX_RANGE + y) % UINTMAX_RANGE == (x + y) % UINTMAX_RANGE
  {
  }

  /** No step overflows. */
  predicate ScaleFits(size: nat, u: nat)
  {
    u == 0 || (ScaleFits(size, u - 1) && Scaled(size, u - 1) * 1024 / 1000 < UINTMAX_RANGE)
  }

  /** What all steps together lose by rounding down. */
  lemma {:induction false} ScaleLoss(size: nat, u: nat)
    requires ScaleFits(size, u)
    ensures var loss := size * Pow(1024, u) - Scaled(size, u) * Pow(1000, u);
            0 <= 3 * loss <= 125 * (Pow(1024, u) - Pow(1000, u))
    decreases u
  {
    if u > 0 {
      ScaleLoss(size, u - 1);
      var s, t, p, q := Scaled(size, u - 1), Scaled(size, u), Pow(1000, u - 1), Pow(1024, u - 1);
      ScaleStepExact(s);
      assert 1000 * t <= 1024 * s < 1000 * t + 1000;
      MulMono(1000 * t, p, 1024 * s, p);
      MulMono(1024 * s, p, 1000 * t + 1000, p);
      LossStep(size, s, t, p, q);
    }
  }

  lemma LossStep(size: nat, s: nat, t: nat, p: nat, q: nat)
    requires 1000 * t * p <= 1024 * s * p <= (1000 * t + 1000) * p
    requires 0 <= 3 * (size * q - s * p) <= 125 * (q - p)
    ensures 0 <= 3 * (size * (1024 * q) - t * (1000 * p)) <= 125 * (1024 * q - 1000 * p)
  {
    assert size * (1024 * q) == 1024 * (size * q);
    assert t * (1000 * p) == 1000 * t * p;
    assert 1024 * s * p == 1024 * (s * p);
    assert (1000 * t + 1000) * p == 1000 * t * p + 1000 * p;
  }

  // ---------------------------------------------------------------- what is shown

  function EffectiveLen(len: nat): (n: nat)
    ensures 1 <= n <= MAX_LEN
  {
    if len == 0 then 9 else if len > MAX_LEN then MAX_LEN else len
  }

  function Min(a: nat, b: nat): nat { if a < b then a else b }

  /** A number with a suffix, a mark for less than half a unit, "0", or no text at all. */
  datatype Outcome = Number(value: nat, j: nat) | Tilde(j: nat) | Zero | Nothing

  /** Room for the digits beside suffix j. */
  function Room(len: nat, j: nat): nat
    requires len > 0
  {
    len - if j > 0 then 1 else 0
  }

  function Choose(size: nat, si: bool, len: nat, units: nat, j: nat): (o: Outcome)
    requires len > 0
    ensures o.Number? || o.Tilde? ==> j <= o.j <= SFX_LAST
    decreases SFX_LAST + 1 - j
  {
    if j > SFX_LAST then Nothing
    else if size == 0 then if j == units then Zero else Tilde(j)
    else if size < Pow10(Room(len, j)) then Number(size, j)
    else Choose(RoundStep(size, si), si, len, units, j + 1)
  }

  function TextOf(o: Outcome, si: bool, len: nat): Option<string>
    requires o.Number? || o.Tilde? ==> o.j <= SFX_LAST
  {
    match o
    case Nothing => None
    case Zero => Some("0")
    case Number(v, j) => Some(Digits(v) + Sfx(si, j))
    case Tilde(j) => Some((if len > 1 then "~" else "") + if j > 1 then Sfx(si, j - 1) else "B")
  }

  /** The texts: a number with its prefix, "0", or a mark with the prefix below. */
  lemma TextsShown(v: nat, j: nat, si: bool, len: nat)
    requires 1 <= j <= 10
    ensures var prefix := if si then "kmgtpezyrq" else "KMGTPEZYRQ";
            && TextOf(Number(v, 0), si, len) == Some(Digits(v))
            && TextOf(Number(v, j), si, len) == Some(Digits(v) + [prefix[j - 1]])
            && TextOf(Tilde(0), si, len) == TextOf(Tilde(1), si, len) == Some(if len > 1 then "~B" else "B")
            && (j > 1 ==> TextOf(Tilde(j), si, len) == Some((if len > 1 then "~" else "") + [prefix[j - 2]]))
            && TextOf(Zero, si, len) == Some("0") && TextOf(Nothing, si, len) == None
  {
    Prefixes(j);
    if j > 1 {
      Prefixes(j - 1);
    }
    assert Digits(v) + "" == Digits(v) && "~" + "B" == "~B" && "" + "B" == "B";
  }

  /** No length stands for nine characters, and there are never more than nineteen. */
  lemma Lengths(len: nat, size: nat, units: nat, si: bool)
    ensures Outcomes(0, size, units, si) == Outcomes(9, size, units, si)
    ensures len > 19 ==> Outcomes(len, size, units, si) == Outcomes(19, size, units, si)
  {
  }

  /** The outcome of a call. */
  function Outcomes(len: nat, size: nat, units: nat, si: bool): (o: Outcome)
    ensures o.Number? || o.Tilde? ==> Min(units, SFX_LAST) <= o.j <= SFX_LAST
  {
    var u := Min(units, SFX_LAST);
    Choose(if si then Scaled(size, u) else size, si, EffectiveLen(len), units, u)
  }

  /** g_snprintf of a text into a buffer of n characters. */
  method Snprintf(buffer: array<char>, n: nat, s: string)
    requires n > 0 && n <= buffer.Length && NUL !in s
    modifies buffer
    ensures Holds(buffer, 0, s[..Min(|s|, n - 1)])
    ensures buffer[n..] == old(buffer[n..])
  {
    var i := 0;
    while i < |s| && i < n - 1
      invariant 0 <= i <= |s| && i <= n - 1
      invariant buffer[..i] == s[..i] && buffer[n..] == old(buffer[n..])
    {
      buffer[i] := s[i];
      i := i + 1;
    }
    buffer[i] := NUL;
    assert forall c :: c in s[..i] ==> c in s;
  }

  lemma DigitsNoNul(v: nat)
    ensures NUL !in Digits(v)
  {
    NumberDigits(v);
  }

  /** The scaling loop: from units of 1024 to units of 1000. */
  method ScaleSize(size: nat, unitsSafe: nat) returns (s: nat)
    ensures s == Scaled(size, unitsSafe)
  {
    s := size;
    for i := 0 to unitsSafe
      invariant s == Scaled(size, i)
    {
      s := ScaleStep(s);
    }
  }

  /** The text goes into the buffer as a whole. */
  method Show(buffer: array<char>, n: nat, s: string)
    requires n < buffer.Length && NUL !in s && |s| <= n
    modifies buffer
    ensures Holds(buffer, 0, s) && buffer[n + 1..] == old(buffer[n + 1..])
  {
    Snprintf(buffer, n + 1, s);
    assert s[..Min(|s|, n)] == s;
  }

  /** size_trunc_len: the buffer gets the whole text of the outcome, in at most len characters. */
  method SizeTruncLen(buffer: array<char>, len: nat, size: nat, units: nat, useSi: bool)
    requires buffer.Length > EffectiveLen(len) && size < UINTMAX_RANGE
    modifies buffer
    ensures var text := TextOf(Outcomes(len, size, units, useSi), useSi, EffectiveLen(len));
            if text.Some? then |text.value| <= EffectiveLen(len) && Holds(buffer, 0, text.value)
            else buffer[..] == old(buffer[..])
    ensures buffer[EffectiveLen(len) + 1..] == old(buffer[EffectiveLen(len) + 1..])
  {
    hide Digits, ScaleStep, RoundStep, Holds, Sfx, Pow10, Scaled, Choose, TextOf;
    var n: nat := if len == 0 then 9 else if len > MAX_LEN then MAX_LEN else len;
    var unitsSafe := if units < SFX_LAST then units else SFX_LAST;
    var s: nat := size;
    if useSi {
      s := ScaleSize(s, unitsSafe);
    }
    ghost var o := Choose(s, useSi, n, units, unitsSafe);
    ghost var text := TextOf(o, useSi, n);
    assert o == Outcomes(len, size, units, useSi);
    ChooseShows(s, useSi, n, units, unitsSafe);
    TextFits(o, useSi, n);
    hide Outcomes, EffectiveLen, Shows;
    var j: nat := unitsSafe;
    while j <= SFX_LAST
      invariant unitsSafe <= j <= SFX_LAST + 1 && buffer[..] == old(buffer[..])
      invariant TextOf(Choose(s, useSi, n, units, j), useSi, n) == text
      decreases SFX_LAST + 1 - j
    {
      ChooseStep(s, useSi, n, units, j);
      if s == 0 {
        if j == units {
          Show(buffer, n, "0");
        } else {
          Show(buffer, n, (if n > 1 then "~" else "") + if j > 1 then Sfx(useSi, j - 1) else "B");
        }
        return;
      }
      if s < Pow10(n - if j > 0 then 1 else 0) {
        Show(buffer, n, Digits(s) + Sfx(useSi, j));
        return;
      }
      s := RoundStep(s, useSi);
      j := j + 1;
    }
    ChooseEnd(s, useSi, n, units, j);
  }

  lemma ChooseStep(s: nat, si: bool, n: nat, units: nat, j: nat)
    requires n > 0 && j <= SFX_LAST
    ensures TextOf(Choose(s, si, n, units, j), si, n) ==
            if s == 0 then
              if j == units then Some("0")
              else Some((if n > 1 then "~" else "") + if j > 1 then Sfx(si, j - 1) else "B")
            else if s < Pow10(n - if j > 0 then 1 else 0) then Some(Digits(s) + Sfx(si, j))
            else TextOf(Choose(RoundStep(s, si), si, n, units, j + 1), si, n)
  {
    hide Digits, RoundStep, Sfx, Pow10;
  }

  lemma ChooseEnd(s: nat, si: bool, n: nat, units: nat, j: nat)
    requires n > 0 && j > SFX_LAST
    ensures TextOf(Choose(s, si, n, units, j), si, n) == None
  {
  }

  lemma {:induction false} ChooseShows(size: nat, si: bool, len: nat, units: nat, j: nat)
    requires len > 0
    ensures Shows(Choose(size, si, len, units, j), len)
    decreases SFX_LAST + 1 - j
  {
    hide RoundStep, Pow10;
    if j <= SFX_LAST && size != 0 && size >= Pow10(Room(len, j)) {
      ChooseShows(RoundStep(size, si), si, len, units, j + 1);
    }
  }

  /** A text that came out of Choose fits. */
  predicate Shows(o: Outcome, len: nat)
    requires len > 0
  {
    match o
    case Number(v, j) => j <= SFX_LAST && 0 < v < Pow10(Room(len, j))
    case Tilde(j) => j <= SFX_LAST
    case _ => true
  }

  lemma TextFits(o: Outcome, si: bool, len: nat)
    requires len > 0 && Shows(o, len)
    ensures var text := TextOf(o, si, len); text.Some? ==> |text.value| <= len && NUL !in text.value
  {
    hide Digits;
    if o.Number? {
      DigitsNoNul(o.value);
      assert Pow10(0) == 1;
      if Room(len, o.j) > 0 {
        DigitsLength(o.value, Room(len, o.j));
      }
    }
  }

  // ---------------------------------------------------------------- how close the shown number is

  function Abs(x: int): nat { if x < 0 then -x else x }

  /** After k steps the value differs from size / base^k by at most half a unit and half a unit of each
      step before. */
  predicate Close(v: nat, k: nat, size: nat, si: bool)
  {
    var b, p := Base(si), Pow(Base(si), k);
    2 * (b - 1) * Abs(v * p - size) <= b * (p - 1)
  }

  lemma CloseStart(size: nat, si: bool)
    ensures Close(size, 0, size, si)
  {
  }

  lemma RoundExact(v: nat, si: bool)
    requires v + Half(si) < UINTMAX_RANGE
    ensures var r := RoundStep(v, si); 2 * Abs(Base(si) * r - v) <= Base(si) && r <= v
  {
    assert (v + Half(si)) % UINTMAX_RANGE == v + Half(si);
  }

  lemma CloseStep(v: nat, k: nat, size: nat, si: bool)
    requires Close(v, k, size, si) && v + Half(si) < UINTMAX_RANGE
    ensures Close(RoundStep(v, si), k + 1, size, si) && RoundStep(v, si) <= v
  {
    RoundExact(v, si);
    hide RoundStep, Abs;
    var b, p, r := Base(si), Pow(Base(si), k), RoundStep(v, si);
    assert Pow(b, k + 1) == b * p;
    hide Pow;
    CloseArithmetic(v, r, b, p, size);
  }

  lemma CloseArithmetic(v: nat, r: nat, b: nat, p: nat, size: nat)
    requires b > 1 && p > 0 && 2 * Abs(b * r - v) <= b && 2 * (b - 1) * Abs(v * p - size) <= b * (p - 1)
    ensures 2 * (b - 1) * Abs(r * (b * p) - size) <= b * (b * p - 1)
  {
    var e, d := b * r - v, v * p - size;
    SplitProduct(r, b, p, v);
    AbsTimes(e, p, b);
    AbsSum(e * p, d);
    Widen(Abs(e * p + d), Abs(e * p), Abs(d), b, p);
  }

  lemma SplitProduct(r: nat, b: nat, p: nat, v: nat)
    ensures r * (b * p) == (b * r - v) * p + v * p
  {
    assert r * (b * p) == (b * r) * p;
    assert (b * r - v) * p == (b * r) * p - v * p;
  }

  lemma AbsSum(x: int, y: int)
    ensures Abs(x + y) <= Abs(x) + Abs(y)
  {
  }

  lemma AbsTimes(e: int, p: nat, b: nat)
    requires 2 * Abs(e) <= b
    ensures 2 * Abs(e * p) <= b * p
  {
    MulMono(2 * Abs(e), p, b, p);
    assert Abs(e * p) == Abs(e) * p by {
      assert e < 0 ==> (-e) * p == -(e * p);
      assert e >= 0 ==> e * p >= 0;
      assert e < 0 ==> (-e) * p >= 0;
    }
    assert 2 * Abs(e) * p == 2 * (Abs(e) * p);
  }

  lemma Widen(s: nat, x: nat, d: nat, b: nat, p: nat)
    requires b > 1 && p > 0 && s <= x + d && 2 * x <= b * p && 2 * (b - 1) * d <= b * (p - 1)
    ensures 2 * (b - 1) * s <= b * (b * p - 1)
  {
    var c := 2 * (b - 1);
    MulMono(c, s, c, x + d);
    assert c * (x + d) == c * x + c * d;
    MulMono(b - 1, 2 * x, b - 1, b * p);
    assert c * x == (b - 1) * (2 * x);
    assert (b - 1) * (b * p) + b * (p - 1) == b * (b * p - 1);
  }

  /** That is less than 501 thousandths. */
  lemma CloseBound(v: nat, k: nat, size: nat, si: bool)
    requires Close(v, k, size, si)
    ensures 1000 * Abs(v * Pow(Base(si), k) - size) < 501 * Pow(Base(si), k)
  {
    hide Pow;
    var p := Pow(Base(si), k);
    var d := Abs(v * p - size);
    hide Abs;
    if si {
      assert 1998 * d <= 1000 * (p - 1);
    } else {
      assert 2046 * d <= 1024 * (p - 1);
    }
  }

  /** Whatever is shown is close to the size that the steps started with. */
  lemma {:induction false} ChosenClose(v: nat, k: nat, size: nat, si: bool, len: nat, units: nat, j: nat)
    requires len > 0 && Close(v, k, size, si) && v <= size && size + Half(si) < UINTMAX_RANGE
    ensures var o := Choose(v, si, len, units, j);
            && (o.Number? ==> Close(o.value, k + o.j - j, size, si))
            && (o.Tilde? ==> Close(0, k + o.j - j, size, si))
    decreases SFX_LAST + 1 - j
  {
    hide Close, RoundStep;
    if j <= SFX_LAST && v != 0 && v >= Pow10(Room(len, j)) {
      CloseStep(v, k, size, si);
      ChosenClose(RoundStep(v, si), k + 1, size, si, len, units, j + 1);
    }
  }

  lemma {:induction false} ZeroOnlyFirst(size: nat, si: bool, len: nat, units: nat, j: nat)
    requires len > 0
    ensures Choose(size, si, len, units, j).Zero? ==> j <= units <= SFX_LAST
    ensures Choose(size, si, len, units, j).Zero? && j == units ==> size == 0
    decreases SFX_LAST + 1 - j
  {
    hide RoundStep, Pow10;
    if j <= SFX_LAST && size != 0 && size >= Pow10(Room(len, j)) {
      ZeroOnlyFirst(RoundStep(size, si), si, len, units, j + 1);
    }
  }

  /** A size so near to the end of the type that rounding wraps: after one step it is taken for 0. */
  lemma WrappedSize(size: nat, si: bool, len: nat, units: nat, j: nat)
    requires 0 < len <= MAX_LEN && size < UINTMAX_RANGE <= size + Half(si) && j <= SFX_LAST
    ensures Choose(size, si, len, units, j) ==
            if j == SFX_LAST then Nothing else if j + 1 == units then Zero else Tilde(j + 1)
  {
    hide Pow10;
    Pow10Bound(Room(len, j));
    assert (size + Half(si)) % UINTMAX_RANGE == size + Half(si) - UINTMAX_RANGE;
    assert RoundStep(size, si) == 0;
  }

  /** Of the sizes in bytes it is the last 512, or 500, that are marked as almost nothing. */
  lemma TopSizes(len: nat, size: nat, si: bool)
    requires size < 0x1_0000_0000_0000_0000
    ensures size >= 0x1_0000_0000_0000_0000 - (if si then 500 else 512) ==> Outcomes(len, size, 0, si) == Tilde(1)
    ensures 1000 <= size < 0x1_0000_0000_0000_0000 - (if si then 500 else 512) ==>
              Outcomes(len, size, 0, si) != Tilde(1)
  {
    hide Choose, Pow10, RoundStep;
    assert StartSize(size, 0, si) == size;
    if size >= 0x1_0000_0000_0000_0000 - (if si then 500 else 512) {
      WrappedSize(size, si, EffectiveLen(len), 0, 0);
    } else if size >= 1000 {
      ShownIsClose(len, size, 0, si);
      assert Pow(Base(si), 1) == Base(si) * Pow(Base(si), 0);
    }
  }

  lemma Pow10Bound(k: nat)
    requires k <= MAX_LEN
    ensures Pow10(k) <= 10000000000000000000
  {
    hide Pow;
    PowUp(10, k, 19);
    FastPowIsPow(10, 19);
    assert FastPow(10, 19) == 10000000000000000000;
  }

  /** The size that the rounding starts with. */
  function StartSize(size: nat, units: nat, si: bool): nat
  {
    if si then Scaled(size, Min(units, SFX_LAST)) else size
  }

  lemma StartSizeFits(size: nat, units: nat, si: bool)
    requires size < UINTMAX_RANGE
    ensures StartSize(size, units, si) < UINTMAX_RANGE
  {
    hide ScaleStep;
  }

  /** A number that is shown differs from the exact quotient by less than 501/1000, for every input.
      The mark "~" stands for less than 501/1000 exactly when the first rounding does not wrap. "0"
      is shown for a size of 0 only. */
  lemma ShownIsClose(len: nat, size: nat, units: nat, si: bool)
    requires size < UINTMAX_RANGE
    ensures var o, s, u := Outcomes(len, size, units, si), StartSize(size, units, si), Min(units, SFX_LAST);
            && (o.Number? ==> 1000 * Abs(o.value * Pow(Base(si), o.j - u) - s) < 501 * Pow(Base(si), o.j - u))
            && (o.Tilde? ==> (1000 * s < 501 * Pow(Base(si), o.j - u) <==> s + Half(si) < UINTMAX_RANGE))
            && (o.Zero? <==> s == 0 && units <= SFX_LAST)
  {
    hide Scaled, Pow10, RoundStep, Choose;
    var s, u, n := StartSize(size, units, si), Min(units, SFX_LAST), EffectiveLen(len);
    StartSizeFits(size, units, si);
    ZeroOnlyFirst(s, si, n, units, u);
    ZeroFirst(si, n, units, u);
    if s + Half(si) < UINTMAX_RANGE {
      NearWithoutWrap(s, si, n, units, u);
    } else {
      WrappedSize(s, si, n, units, u);
      assert Pow(Base(si), 1) == Base(si) * Pow(Base(si), 0);
    }
  }

  lemma ZeroFirst(si: bool, len: nat, units: nat, j: nat)
    requires len > 0 && j <= SFX_LAST
    ensures Choose(0, si, len, units, j) == if j == units then Zero else Tilde(j)
  {
  }

  lemma NearWithoutWrap(s: nat, si: bool, len: nat, units: nat, j: nat)
    requires len > 0 && s + Half(si) < UINTMAX_RANGE
    ensures var o := Choose(s, si, len, units, j);
            && (o.Number? ==> 1000 * Abs(o.value * Pow(Base(si), o.j - j) - s) < 501 * Pow(Base(si), o.j - j))
            && (o.Tilde? ==> 1000 * s < 501 * Pow(Base(si), o.j - j))
  {
    hide Close, Choose, Pow;
    CloseStart(s, si);
    ChosenClose(s, 0, s, si, len, units, j);
    var o := Choose(s, si, len, units, j);
    if o.Number? {
      CloseBound(o.value, o.j - j, s, si);
    } else if o.Tilde? {
      CloseBound(0, o.j - j, s, si);
    }
  }

  lemma AbsScaled(x: int, p: nat)
    ensures Abs(x) * p == Abs(x * p)
  {
    if x < 0 {
      assert (-x) * p == -(x * p) && (-x) * p >= 0;
    } else {
      assert x * p >= 0;
    }
  }

  /** An error in scaled units, and what the scaling itself has lost. */
  lemma ErrorsAdd(v: nat, s: nat, size: nat, p: nat, q: nat, w: nat)
    requires q > 0 && 1000 * Abs(v * p - s) < 501 * p
    requires 0 <= 3 * (size * w - s * q) <= 125 * (w - q)
    ensures 3000 * Abs(v * (p * q) - size * w) < 1503 * (p * q) + 125000 * (w - q)
  {
    var d, e := v * p - s, s * q - size * w;
    ErrorParts(v, s, size, p, q, w);
    ErrorScaled(d, p, q);
    AbsSum(d * q, e);
    Combine(Abs(d * q), Abs(e), Abs(d * q + e), p * q, w - q);
  }

  lemma Combine(x: nat, y: nat, z: nat, m: nat, n: int)
    requires z <= x + y && 1000 * x < 501 * m && 3 * y <= 125 * n
    ensures 3000 * z < 1503 * m + 125000 * n
  {
  }

  lemma ErrorParts(v: nat, s: nat, size: nat, p: nat, q: nat, w: nat)
    ensures v * (p * q) - size * w == (v * p - s) * q + (s * q - size * w)
  {
    assert v * (p * q) == (v * p) * q;
    assert (v * p - s) * q == (v * p) * q - s * q;
  }

  lemma ErrorScaled(d: int, p: nat, q: nat)
    requires q > 0 && 1000 * Abs(d) < 501 * p
    ensures 1000 * Abs(d * q) < 501 * (p * q)
  {
    AbsScaled(d, q);
    hide Abs;
    MulMono(1000 * Abs(d), q, 501 * p, q);
    assert 1000 * Abs(d) * q == 1000 * (Abs(d) * q) && 501 * p * q == 501 * (p * q);
  }

  /** With SI units, from the size that was passed to the number that is shown: the 501/1000 of
      rounding, and less than 42 units of what each scaling step may lose. */
  lemma ShownFromInput(len: nat, size: nat, units: nat)
    requires size < UINTMAX_RANGE && ScaleFits(size, Min(units, SFX_LAST))
    ensures var o, u := Outcomes(len, size, units, true), Min(units, SFX_LAST);
            o.Number? ==>
              3000 * Abs(o.value * Pow(1000, o.j) - size * Pow(1024, u))
              < 1503 * Pow(1000, o.j) + 125000 * (Pow(1024, u) - Pow(1000, u))
  {
    hide Scaled, ScaleFits, Outcomes, Pow, Abs;
    var o, u := Outcomes(len, size, units, true), Min(units, SFX_LAST);
    ShownIsClose(len, size, units, true);
    ScaleLoss(size, u);
    if o.Number? {
      PowAdd(1000, o.j - u, u);
      ErrorsAdd(o.value, Scaled(size, u), size, Pow(1000, o.j - u), Pow(1000, u), Pow(1024, u));
    }
  }

  // ---------------------------------------------------------------- some text is always shown

  function Rounded(size: nat, si: bool, k: nat): nat
    decreases k
  {
    if k == 0 then size else Rounded(RoundStep(size, si), si, k - 1)
  }

  lemma RoundSmaller(size: nat, si: bool)
    ensures RoundStep(size, si) <= size
    ensures RoundStep(size, si) <= (size + Half(si)) / Base(si)
  {
    assert (size + Half(si)) % UINTMAX_RANGE <= size + Half(si);
  }

  lemma {:induction false} RoundedSmaller(size: nat, si: bool, k: nat)
    ensures Rounded(size, si, k) <= size
    decreases k
  {
    hide RoundStep;
    if k > 0 {
      RoundSmaller(size, si);
      RoundedSmaller(RoundStep(size, si), si, k - 1);
    }
  }

  lemma {:induction false} RoundedMore(size: nat, si: bool, k: nat, m: nat)
    ensures Rounded(size, si, k + m) == Rounded(Rounded(size, si, k), si, m)
    decreases k
  {
    hide RoundStep;
    if k > 0 {
      RoundedMore(RoundStep(size, si), si, k - 1, m);
    }
  }

  /** Behind the suffix for bytes, no text is written exactly when the size is too large for the room
      even with the last suffix. */
  lemma {:induction false} NothingIff(size: nat, si: bool, len: nat, units: nat, j: nat)
    requires len > 0 && 1 <= j <= SFX_LAST
    ensures Choose(size, si, len, units, j).Nothing? <==> Rounded(size, si, SFX_LAST - j) >= Pow10(len - 1)
    decreases SFX_LAST - j
  {
    hide RoundStep, Pow10;
    RoundedSmaller(size, si, SFX_LAST - j);
    if j < SFX_LAST && size >= Pow10(len - 1) {
      NothingIff(RoundStep(size, si), si, len, units, j + 1);
    }
  }

  /** The smallest size that k steps leave at 10^room or more. */
  function Threshold(room: nat, si: bool, k: nat): (t: nat)
    ensures t > 0
    decreases k
  {
    if k == 0 then Pow10(room) else Base(si) * Threshold(room, si, k - 1) - Half(si)
  }

  lemma RoundReaches(size: nat, si: bool, t: nat)
    requires t > 0 && size + Half(si) < UINTMAX_RANGE
    ensures RoundStep(size, si) >= t <==> size >= Base(si) * t - Half(si)
  {
    assert (size + Half(si)) % UINTMAX_RANGE == size + Half(si);
  }

  lemma {:induction false} RoundedReaches(size: nat, si: bool, room: nat, k: nat)
    requires size + Half(si) < UINTMAX_RANGE
    ensures Rounded(size, si, k) >= Pow10(room) <==> size >= Threshold(room, si, k)
    decreases k
  {
    hide RoundStep, Pow10;
    if k > 0 {
      RoundReaches(size, si, Threshold(room, si, k - 1));
      RoundSmaller(size, si);
      RoundedReaches(RoundStep(size, si), si, room, k - 1);
    }
  }

  /** Nothing is written exactly from a threshold on that is known before the call, up to where the
      first rounding wraps. */
  lemma NothingFrom(size: nat, si: bool, len: nat, units: nat, j: nat)
    requires 0 < len && 1 <= j <= SFX_LAST && size < UINTMAX_RANGE
    ensures Choose(size, si, len, units, j).Nothing? <==>
            size >= Threshold(len - 1, si, SFX_LAST - j) && (j < SFX_LAST ==> size + Half(si) < UINTMAX_RANGE)
  {
    hide Pow10, Choose, RoundStep;
    NothingIff(size, si, len, units, j);
    if size + Half(si) < UINTMAX_RANGE {
      RoundedReaches(size, si, len - 1, SFX_LAST - j);
    } else if j < SFX_LAST {
      assert RoundStep(size, si) == 0 by { RoundWraps(size, si); }
      RoundedSmaller(0, si, SFX_LAST - j - 1);
    }
  }

  lemma RoundWraps(size: nat, si: bool)
    requires size < UINTMAX_RANGE <= size + Half(si)
    ensures RoundStep(size, si) == 0
  {
    assert (size + Half(si)) % UINTMAX_RANGE == size + Half(si) - UINTMAX_RANGE;
  }

  /** So for units above bytes a caller can tell from the size whether there will be a text. */
  lemma NothingWritten(len: nat, size: nat, units: nat, si: bool)
    requires size < UINTMAX_RANGE && units > 0
    ensures var s, u := StartSize(size, units, si), Min(units, SFX_LAST);
            Outcomes(len, size, units, si).Nothing? <==>
            s >= Threshold(EffectiveLen(len) - 1, si, SFX_LAST - u)
            && (u < SFX_LAST ==> s + Half(si) < UINTMAX_RANGE)
  {
    hide Scaled, Choose, Threshold;
    StartSizeFits(size, units, si);
    NothingFrom(StartSize(size, units, si), si, EffectiveLen(len), units, Min(units, SFX_LAST));
  }

  /** Seven steps bring every size down to 0. */
  lemma SevenSteps(size: nat, si: bool)
    requires size < UINTMAX_RANGE
    ensures Rounded(size, si, 7) == 0
  {
    hide RoundStep;
    var a := RoundStep(size, si);
    RoundSmaller(size, si);
    var b := RoundStep(a, si);
    RoundSmaller(a, si);
    var c := RoundStep(b, si);
    RoundSmaller(b, si);
    var d := RoundStep(c, si);
    RoundSmaller(c, si);
    var e := RoundStep(d, si);
    RoundSmaller(d, si);
    var f := RoundStep(e, si);
    RoundSmaller(e, si);
    RoundSmaller(f, si);
    assert Rounded(size, si, 7) == Rounded(a, si, 6) == Rounded(b, si, 5) == Rounded(c, si, 4);
    assert Rounded(c, si, 4) == Rounded(d, si, 3) == Rounded(e, si, 2) == Rounded(f, si, 1);
    assert Rounded(f, si, 1) == Rounded(RoundStep(f, si), si, 0) == RoundStep(f, si);
  }

  /** For sizes in units up to 1024^3 some text is always written. */
  lemma TextAlways(len: nat, size: nat, units: nat, si: bool)
    requires size < UINTMAX_RANGE && units <= 3
    ensures !Outcomes(len, size, units, si).Nothing?
  {
    hide Scaled, Pow10, RoundStep, Rounded;
    var s, n := StartSize(size, units, si), EffectiveLen(len);
    StartSizeFits(size, units, si);
    if units > 0 {
      SevenSteps(s, si);
      RoundedMore(s, si, 7, 3 - units);
      RoundedSmaller(0, si, 3 - units);
      NothingIff(s, si, n, units, units);
    } else {
      var t := RoundStep(s, si);
      RoundSmaller(s, si);
      SevenSteps(t, si);
      RoundedMore(t, si, 7, 2);
      RoundedSmaller(0, si, 2);
      NothingIff(t, si, n, units, 1);
    }
  }

  /** With larger units it can happen that nothing is written: 2^63 units of 1024^4 in one character. */
  lemma NoTextForTera()
    ensures Outcomes(1, 0x8000_0000_0000_0000, 4, false).Nothing?
  {
    hide RoundStep;
    var s: nat := 0x8000_0000_0000_0000;
    NothingIff(s, false, 1, 4, 4);
    PowerSteps();
    assert Rounded(s, false, 6) == Rounded(0x20_0000_0000_0000, false, 5) == Rounded(0x800_0000_0000, false, 4);
    assert Rounded(0x800_0000_0000, false, 4) == Rounded(0x2_0000_0000, false, 3) == Rounded(0x80_0000, false, 2);
    assert Rounded(0x80_0000, false, 2) == Rounded(0x2000, false, 1) == Rounded(8, false, 0);
  }

  lemma PowerSteps()
    ensures RoundStep(0x8000_0000_0000_0000, false) == 0x20_0000_0000_0000
    ensures RoundStep(0x20_0000_0000_0000, false) == 0x800_0000_0000
    ensures RoundStep(0x800_0000_0000, false) == 0x2_0000_0000
    ensures RoundStep(0x2_0000_0000, false) == 0x80_0000
    ensures RoundStep(0x80_0000, false) == 0x2000
    ensures RoundStep(0x2000, false) == 8
  {
  }
}
