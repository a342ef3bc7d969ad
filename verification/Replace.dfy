/**
 mc_search_regex_prepare_replace_str and its helpers (lib/search/regex.c): the scanner that
 interprets a replacement template in its printed form.
 */
module Replace {
  import opened Characters
  import opened Decimal
  import opened Escapes
  import opened ReplaceTemplate
  import opened Sequences

  const NOTHING_SPECIAL := -1
  const REPLACE_FLAG := -2
  const ESCAPE_SEQ := -3
  const NUM_REPLACE_ARGS := 64

  /** replace_transform_type_t, bit by bit. */
  datatype Flags = Flags(uppChar: bool, lowChar: bool, upp: bool, low: bool)

  const NO_TRANSFORM := Flags(false, false, false, false)

  function FlagsOf(m: Mode): Flags
  {
    Flags(false, false, m == Upp, m == Low)
  }

  /** How many characters of one kind follow from a position on. */
  function Span(s: string, from: nat, kind: char -> bool): (n: nat)
    ensures from <= |s| ==> from + n <= |s|
    ensures forall k :: from <= k < from + n && k < |s| ==> kind(s[k])
    ensures from + n < |s| ==> !kind(s[from + n])
    decreases |s| - from
  {
    if from < |s| && kind(s[from]) then 1 + Span(s, from + 1, kind) else 0
  }

  method ScanSpan(s: string, from: nat, kind: char -> bool) returns (n: nat)
    requires from <= |s|
    ensures n == Span(s, from, kind)
  {
    n := 0;
    while from + n < |s| && kind(s[from + n])
      invariant from + n <= |s| && n + Span(s, from + n, kind) == Span(s, from, kind)
    {
      n := n + 1;
    }
  }

  // ---------------------------------------------------------------- recognizing one token

  /** What the scanner finds at a position: the code it returns, the length to skip and the flags. */
  datatype Token = Token(ret: int, skip: nat, flags: Flags)

  /** An escape sequence, or None when the character after the backslash has to be looked at. */
  datatype Escape = Done(ret: int, skip: nat) | Open(skip: nat)

  function EscapeAt(s: string, pos: nat): Escape
    requires pos + 1 < |s|
  {
    var c := s[pos + 1];
    if pos + 2 < |s| && c == '{' then
      var n := Span(s, pos + 2, IsOctal);
      if At(s, pos + 2 + n) == '}' then Done(ESCAPE_SEQ, n + 3) else Open(n + 2)
    else if pos + 2 < |s| && c == 'x' then
      if s[pos + 2] == '{' then
        var n := Span(s, pos + 3, IsHexDigit);
        if At(s, pos + 3 + n) == '}' then Done(ESCAPE_SEQ, n + 4) else Open(n + 3)
      else if !IsHexDigit(s[pos + 2]) then Done(NOTHING_SPECIAL, 2)
      else Done(ESCAPE_SEQ, if IsHexDigit(At(s, pos + 3)) then 4 else 3)
    else if IsCtrl(c) || c == '\0' then Done(ESCAPE_SEQ, 2)
    else Open(0)
  }

  function WithFlag(flags: Flags, c: char): Flags
  {
    match c
    case 'U' => flags.(upp := true, low := false)
    case 'u' => flags.(uppChar := true)
    case 'L' => flags.(low := true, upp := false)
    case 'l' => flags.(lowChar := true)
    case 'E' => NO_TRANSFORM
    case _ => flags
  }

  function TokenAt(s: string, pos: nat, flags: Flags): Token
    requires pos < |s|
  {
    if s[pos] == '$' && pos + 2 < |s| && s[pos + 1] == '{' && IsParam(s[pos + 2]) then
      if EscapedAt(s, pos) then Token(NOTHING_SPECIAL, 1, flags)
      else
        var n := Span(s, pos + 2, IsParam);
        if At(s, pos + 2 + n) != '}' then Token(NOTHING_SPECIAL, n, flags)
        else Token(Atoi(s[pos + 2..pos + 2 + n]), n + 3, flags)
    else if s[pos] == '\\' && pos + 1 < |s| then
      if EscapedAt(s, pos) then Token(NOTHING_SPECIAL, 1, flags)
      else if IsDigit(s[pos + 1]) then Token(HexDigit(s[pos + 1]), 2, flags)
      else
        match EscapeAt(s, pos)
        case Done(ret, skip) => Token(ret, skip, flags)
        case Open(skip) =>
          if s[pos + 1] in "UuLlE" then Token(REPLACE_FLAG, skip + 2, WithFlag(flags, s[pos + 1]))
          else Token(NOTHING_SPECIAL, skip + 2, flags)
    else Token(NOTHING_SPECIAL, 0, flags)
  }

  /** atoi reads the leading digits; what it makes of a number that no int holds is undefined. */
  function Atoi(t: string): nat
  {
    Value(10, t[..Span(t, 0, IsDigit)])
  }

  method HandleEscSeq(s: string, pos: nat) returns (esc: Escape)
    requires pos + 1 < |s|
    ensures esc == EscapeAt(s, pos)
  {
    var c := s[pos + 1];
    if |s| > pos + 2 {
      if c == '{' {
        var n := ScanSpan(s, pos + 2, IsOctal);
        var skipLen := 2 + n;
        if pos + skipLen < |s| && s[pos + skipLen] == '}' {
          return Done(ESCAPE_SEQ, skipLen + 1);
        } else {
          return Open(skipLen);
        }
      }
      if c == 'x' {
        if s[pos + 2] == '{' {
          var n := ScanSpan(s, pos + 3, IsHexDigit);
          var skipLen := 3 + n;
          if pos + skipLen < |s| && s[pos + skipLen] == '}' {
            return Done(ESCAPE_SEQ, skipLen + 1);
          } else {
            return Open(skipLen);
          }
        } else if !IsHexDigit(s[pos + 2]) {
          return Done(NOTHING_SPECIAL, 2);
        } else if !IsHexDigit(At(s, pos + 3)) {
          return Done(ESCAPE_SEQ, 3);
        } else {
          return Done(ESCAPE_SEQ, 4);
        }
      }
    }
    if IsCtrl(c) || c == '\0' {
      return Done(ESCAPE_SEQ, 2);
    }
    return Open(0);
  }

  method ProcessReplaceStr(s: string, pos: nat, flags: Flags) returns (t: Token)
    requires pos < |s|
    ensures t == TokenAt(s, pos, flags)
  {
    if |s| > pos + 2 && s[pos] == '$' && s[pos + 1] == '{' && IsParam(s[pos + 2]) {
      var escaped := IsCharEscaped(s, pos);
      if escaped {
        return Token(NOTHING_SPECIAL, 1, flags);
      }
      var n := ScanSpan(s, pos + 2, IsParam);
      if At(s, pos + 2 + n) != '}' {
        return Token(NOTHING_SPECIAL, n, flags);
      }
      return Token(Atoi(s[pos + 2..pos + 2 + n]), n + 3, flags);
    }
    if s[pos] == '\\' && |s| > pos + 1 {
      var escaped := IsCharEscaped(s, pos);
      if escaped {
        return Token(NOTHING_SPECIAL, 1, flags);
      }
      if IsDigit(s[pos + 1]) {
        return Token(HexDigit(s[pos + 1]), 2, flags);
      }
      var esc := HandleEscSeq(s, pos);
      if esc.Done? {
        return Token(esc.ret, esc.skip, flags);
      }
      if s[pos + 1] in "UuLlE" {
        return Token(REPLACE_FLAG, esc.skip + 2, WithFlag(flags, s[pos + 1]));
      }
      return Token(NOTHING_SPECIAL, esc.skip + 2, flags);
    }
    return Token(NOTHING_SPECIAL, 0, flags);
  }

  /** A one-character flag, anywhere in a template. */
  lemma OneCharToken(s: string, pos: nat, flags: Flags)
    requires pos + 1 < |s| && s[pos] == '\\' && !EscapedAt(s, pos)
    ensures s[pos + 1] == 'u' ==> TokenAt(s, pos, flags) == Token(REPLACE_FLAG, 2, flags.(uppChar := true))
    ensures s[pos + 1] == 'l' ==> TokenAt(s, pos, flags) == Token(REPLACE_FLAG, 2, flags.(lowChar := true))
    ensures s[pos + 1] == 'E' ==> TokenAt(s, pos, flags) == Token(REPLACE_FLAG, 2, Flags(false, false, false, false))
  {
    hide Span, EscapedAt;
  }

  /** Behind a backslash and an x there may be one digit only, or none: then the x stands for itself. */
  lemma ShortCode(s: string, pos: nat, flags: Flags)
    requires pos + 2 < |s| && s[pos] == '\\' && s[pos + 1] == 'x' && s[pos + 2] != '{' && !EscapedAt(s, pos)
    ensures IsHexDigit(s[pos + 2]) && (pos + 3 < |s| ==> !IsHexDigit(s[pos + 3])) ==>
              TokenAt(s, pos, flags) == Token(ESCAPE_SEQ, 3, flags)
    ensures !IsHexDigit(s[pos + 2]) ==> TokenAt(s, pos, flags) == Token(NOTHING_SPECIAL, 2, flags)
  {
    hide Span, EscapedAt, IsHexDigit;
    assert !IsHexDigit('\0') by { NulNoDigit(); }
  }

  lemma NulNoDigit()
    ensures !IsHexDigit('\0')
  {
  }

  /** A code in braces that are not closed is taken as it stands, but with the two characters behind it. */
  lemma OpenBrace(s: string, pos: nat, n: nat, flags: Flags)
    requires pos + 2 < |s| && s[pos] == '\\' && !EscapedAt(s, pos)
    requires s[pos + 1] == '{' && pos + 2 + n <= |s| && forall k :: pos + 2 <= k < pos + 2 + n ==> IsOctal(s[k])
    requires pos + 2 + n < |s| ==> !IsOctal(s[pos + 2 + n]) && s[pos + 2 + n] != '}'
    ensures TokenAt(s, pos, flags) == Token(NOTHING_SPECIAL, n + 2 + 2, flags)
  {
    hide EscapedAt, IsOctal;
    SpanIs(s, pos + 2, IsOctal, n);
  }

  // ---------------------------------------------------------------- writing

  /** One character under the flags: what is written and the flags that remain. Once a
      one-character flag was the only one and is used up, nothing more is written. */
  function AppendChar(c: char, flags: Flags): (string, Flags)
  {
    if flags.uppChar then ([ToUpper(c)], flags.(uppChar := false))
    else if flags.lowChar then ([ToLower(c)], flags.(lowChar := false))
    else if flags.upp then ([ToUpper(c)], flags)
    else if flags.low then ([ToLower(c)], flags)
    else ("", flags)
  }

  function AppendAll(t: string, flags: Flags): (string, Flags)
    decreases |t|
  {
    if t == "" then ("", flags)
    else
      var (w, f) := AppendAll(t[..|t| - 1], flags);
      var (v, g) := AppendChar(t[|t| - 1], f);
      (w + v, g)
  }

  function Append(t: string, flags: Flags): (string, Flags)
  {
    if flags == NO_TRANSFORM then (t, flags) else AppendAll(t, flags)
  }

  method ProcessAppendStr(dest: string, from: string, flags: Flags) returns (r: string, f: Flags)
    ensures r == dest + Append(from, flags).0 && f == Append(from, flags).1
  {
    if flags == NO_TRANSFORM {
      return dest + from, flags;
    }
    r, f := dest, flags;
    var loop := 0;
    assert from[..0] == "";
    while loop < |from|
      invariant loop <= |from|
      invariant r == dest + AppendAll(from[..loop], flags).0 && f == AppendAll(from[..loop], flags).1
    {
      assert from[..loop + 1][..loop] == from[..loop];
      var (v, g) := AppendChar(from[loop], f);
      Assoc(dest, AppendAll(from[..loop], flags).0, v);
      r, f := r + v, g;
      loop := loop + 1;
    }
    assert from[..loop] == from;
  }

  /** With a case mode that lasts, appending is casing. */
  lemma {:induction false} AppendMode(t: string, m: Mode)
    ensures Append(t, FlagsOf(m)) == (Cased(m, t), FlagsOf(m))
    decreases |t|
  {
    if m != AsIs && t != "" {
      var n, c := |t| - 1, t[|t| - 1];
      AppendMode(t[..n], m);
      assert Append(t[..n], FlagsOf(m)) == AppendAll(t[..n], FlagsOf(m));
      assert t == t[..n] + [c];
      CasedConcat(m, t[..n], [c]);
      CasedChar(m, c);
    } else {
      CasedEmpty(m);
    }
  }

  lemma CasedChar(m: Mode, c: char)
    requires m != AsIs
    ensures (Cased(m, [c]), FlagsOf(m)) == AppendChar(c, FlagsOf(m))
  {
    assert Cased(m, [c]) == [if m == Upp then ToUpper(c) else ToLower(c)];
  }

  /** What a text under flags should be: a one-character flag changes one character, a lasting one the rest. */
  function Intended(t: string, flags: Flags): string
  {
    if t == "" then ""
    else if flags.uppChar then [ToUpper(t[0])] + Intended(t[1..], flags.(uppChar := false))
    else if flags.lowChar then [ToLower(t[0])] + Intended(t[1..], flags.(lowChar := false))
    else Cased(if flags.upp then Upp else if flags.low then Low else AsIs, t)
  }

  function OneCharFlags(flags: Flags): nat
  {
    (if flags.uppChar then 1 else 0) + (if flags.lowChar then 1 else 0)
  }

  function AfterChar(flags: Flags): Flags
  {
    if flags.uppChar then flags.(uppChar := false) else flags.(lowChar := false)
  }

  /** The text that is appended is the intended one exactly if there are no flags, or a lasting one, or no more
      characters than one-character flags: when these are used up and were the only ones, the rest is lost. */
  lemma OneCharFlagsLose(t: string, flags: Flags)
    ensures Append(t, flags).0 == Intended(t, flags)
            <==> flags == NO_TRANSFORM || flags.upp || flags.low || |t| <= OneCharFlags(flags)
  {
    hide ToUpper, ToLower, Cased;
    if flags == NO_TRANSFORM {
      IntendedAsIs(t);
    } else {
      AppendAllIntended(t, flags);
    }
  }

  /** A one-character flag alone writes one letter, in the case that its letter stands for. */
  lemma OneCharWritten(i: nat, rest: string)
    requires i < 26
    ensures Append([LOWER[i]] + rest, Flags(true, false, false, false)).0 == [UPPER[i]]
    ensures Append([UPPER[i]] + rest, Flags(false, true, false, false)).0 == [LOWER[i]]
  {
    Cases(i);
    AppendHead(LOWER[i], rest, Flags(true, false, false, false));
    AppendHead(UPPER[i], rest, Flags(false, true, false, false));
    AppendNothing(rest);
  }

  lemma IntendedAsIs(t: string)
    ensures Intended(t, NO_TRANSFORM) == t
  {
    CasedEmpty(AsIs);
  }

  lemma {:induction false} AppendHead(c: char, u: string, flags: Flags)
    ensures AppendAll([c] + u, flags).0 == AppendChar(c, flags).0 + AppendAll(u, AppendChar(c, flags).1).0
    ensures AppendAll([c] + u, flags).1 == AppendAll(u, AppendChar(c, flags).1).1
    decreases |u|
  {
    hide AppendChar;
    var t := [c] + u;
    if u == "" {
      assert t[..0] == "" && t == [c];
    } else {
      var front := u[..|u| - 1];
      AppendHead(c, front, flags);
      assert t[..|t| - 1] == [c] + front;
      Assoc(AppendChar(c, flags).0, AppendAll(front, AppendChar(c, flags).1).0,
            AppendChar(t[|t| - 1], AppendAll([c] + front, flags).1).0);
    }
  }

  lemma {:induction false} AppendNothing(t: string)
    ensures AppendAll(t, NO_TRANSFORM).0 == "" && AppendAll(t, NO_TRANSFORM).1 == NO_TRANSFORM
    decreases |t|
  {
    if t != "" {
      AppendNothing(t[..|t| - 1]);
      var none: string := "";
      assert none + none == none;
    }
  }

  /** How many characters of a text of length n are kept. */
  function KeptOf(flags: Flags, n: nat): nat
  {
    if flags.upp || flags.low || n <= OneCharFlags(flags) then n else OneCharFlags(flags)
  }

  lemma {:induction false} AppendAllIntended(t: string, flags: Flags)
    ensures |Intended(t, flags)| == |t|
    ensures |AppendAll(t, flags).0| == KeptOf(flags, |t|)
    ensures |AppendAll(t, flags).0| == |t| ==> AppendAll(t, flags).0 == Intended(t, flags)
    decreases |t|
  {
    hide ToUpper, ToLower, Cased;
    if t == "" {
      return;
    }
    var c, u := t[0], t[1..];
    assert t == [c] + u;
    AppendHead(c, u, flags);
    if flags == NO_TRANSFORM {
      AppendNothing(t);
      IntendedAsIs(t);
    } else if flags.uppChar || flags.lowChar {
      AppendAllIntended(u, AfterChar(flags));
    } else {
      AppendAllIntended(u, flags);
      IntendedMode(c, u, flags);
    }
  }

  lemma IntendedMode(c: char, u: string, flags: Flags)
    requires !flags.uppChar && !flags.lowChar && (flags.upp || flags.low)
    ensures Intended([c] + u, flags) == AppendChar(c, flags).0 + Intended(u, flags)
  {
    var m := if flags.upp then Upp else Low;
    CasedConcat(m, [c], u);
    CasedEmpty(m);
    CasedChar(m, c);
  }

  /** The code point of an escape sequence, accumulated in an unsigned int. */
  function Accumulate(base: nat, ds: string): nat
    requires forall i :: 0 <= i < |ds| ==> IsHexDigit(ds[i])
    decreases |ds|
  {
    if ds == "" then 0
    else (Accumulate(base, ds[..|ds| - 1]) * base + HexDigit(ds[|ds| - 1])) % UINT_RANGE
  }

  lemma {:induction false} AccumulateValue(base: nat, ds: string)
    requires forall i :: 0 <= i < |ds| ==> IsHexDigit(ds[i])
    ensures Accumulate(base, ds) == Value(base, ds) % UINT_RANGE
    decreases |ds|
  {
    if ds != "" {
      var front := ds[..|ds| - 1];
      AccumulateValue(base, front);
      ModStep(Value(base, front), base, HexDigit(ds[|ds| - 1]));
    }
  }

  lemma ModStep(x: nat, base: nat, d: nat)
    ensures (x % UINT_RANGE * base + d) % UINT_RANGE == (x * base + d) % UINT_RANGE
  {
    var q, r := x / UINT_RANGE, x % UINT_RANGE;
    assert x == UINT_RANGE * q + r;
    assert x * base + d == UINT_RANGE * (q * base) + (r * base + d) by {
      MulDistributes(q, r, base);
    }
    ModAdd(q * base, r * base + d);
  }

  lemma MulDistributes(q: nat, r: nat, base: nat)
    ensures (UINT_RANGE * q + r) * base == UINT_RANGE * (q * base) + r * base
  {
  }

  lemma ModAdd(q: nat, y: nat)
    ensures (UINT_RANGE * q + y) % UINT_RANGE == y % UINT_RANGE
  {
  }

  function EscapeText(from: string, flags: Flags, isUtf8: bool): (string, Flags)
  {
    var i := if At(from, 0) == '{' then 1 else 0;
    if i >= |from| then ("", flags)
    else if from[i] == 'x' then
      var j := if At(from, i + 1) == '{' then i + 2 else i + 1;
      (Encode(Accumulate(16, from[j..j + Span(from, j, IsHexDigit)]), isUtf8), flags)
    else if IsOctal(from[i]) then
      (Encode(Accumulate(8, from[i..i + Span(from, i, IsOctal)]), isUtf8), flags)
    else if IsCtrl(from[i]) then (Encode(CtrlCode(from[i]), isUtf8), flags)
    else Append(from, flags)
  }

  method ProcessEscapeSequence(dest: string, from: string, flags: Flags, isUtf8: bool)
    returns (r: string, f: Flags)
    ensures r == dest + EscapeText(from, flags, isUtf8).0 && f == EscapeText(from, flags, isUtf8).1
  {
    hide Append, Encode, Accumulate, Span;
    var i, c := 0, 0;
    r, f := dest, flags;
    if from == "" {
      return;
    }
    if from[i] == '{' {
      i := i + 1;
    }
    if i >= |from| {
      return;
    }
    if from[i] == 'x' {
      i := i + 1;
      if i < |from| && from[i] == '{' {
        i := i + 1;
      }
      c := AccumulateDigits(from, i, 16, IsHexDigit);
    } else if IsOctal(from[i]) {
      c := AccumulateDigits(from, i, 8, IsOctal);
    } else if IsCtrl(from[i]) {
      c := CtrlCode(from[i]);
    } else {
      r, f := ProcessAppendStr(dest, from, flags);
      return;
    }
    r := dest + Encode(c, isUtf8);
  }

  method AccumulateDigits(from: string, start: nat, base: nat, kind: char -> bool) returns (c: nat)
    requires start <= |from| && forall x :: kind(x) ==> IsHexDigit(x)
    ensures c == Accumulate(base, from[start..start + Span(from, start, kind)])
  {
    hide Accumulate, Span;
    c := 0;
    var i := start;
    assert from[start..start] == "";
    AccumulateEmpty(base);
    SpanStep(from, start, kind);
    while i < |from| && kind(from[i])
      invariant start <= i <= |from| && forall k :: start <= k < i ==> IsHexDigit(from[k])
      invariant c == Accumulate(base, from[start..i])
      invariant i - start + Span(from, i, kind) == Span(from, start, kind)
    {
      assert from[start..i + 1] == from[start..i] + [from[i]];
      AccumulateSnoc(base, from[start..i], from[i]);
      SpanStep(from, i, kind);
      c := (c * base + HexDigit(from[i])) % UINT_RANGE;
      i := i + 1;
    }
    SpanStep(from, i, kind);
  }

  lemma SpanStep(s: string, i: nat, kind: char -> bool)
    ensures Span(s, i, kind) == if i < |s| && kind(s[i]) then 1 + Span(s, i + 1, kind) else 0
  {
  }

  lemma AccumulateEmpty(base: nat)
    ensures Accumulate(base, "") == 0
  {
  }

  lemma AccumulateSnoc(base: nat, ds: string, c: char)
    requires IsHexDigit(c) && forall i :: 0 <= i < |ds| ==> IsHexDigit(ds[i])
    ensures Accumulate(base, ds + [c]) == (Accumulate(base, ds) * base + HexDigit(c)) % UINT_RANGE
  {
    assert (ds + [c])[..|ds|] == ds;
  }

  // ---------------------------------------------------------------- printed templates

  /** Items of a template before position i, and its text from there on. */
  lemma {:induction false} PrintConcat(xs: seq<Item>, ys: seq<Item>)
    ensures Print(xs + ys) == Print(xs) + Print(ys)
    decreases |xs|
  {
    hide PrintItem;
    if xs == [] {
      assert xs + ys == ys;
    } else {
      assert (xs + ys)[1..] == xs[1..] + ys;
      PrintConcat(xs[1..], ys);
      Assoc(PrintItem(xs[0]), Print(xs[1..]), Print(ys));
    }
  }

  /** A printed template cut at an item. */
  lemma PrintAt(items: seq<Item>, i: nat)
    requires i < |items|
    ensures Print(items) == Print(items[..i]) + (PrintItem(items[i]) + Print(items[i + 1..]))
    ensures Print(items[..i + 1]) == Print(items[..i]) + PrintItem(items[i])
  {
    hide PrintItem;
    assert items == items[..i] + items[i..];
    PrintConcat(items[..i], items[i..]);
    assert items[i..][1..] == items[i + 1..];
    assert items[..i + 1] == items[..i] + [items[i]];
    PrintConcat(items[..i], [items[i]]);
    PrintOne(items[i]);
  }

  /** What follows a literal dollar sign is not a brace. */
  lemma AfterDollar(items: seq<Item>, i: nat)
    requires AllWellFormed(items) && i < |items| && items[i] == Lit('$')
    ensures At(Print(items), |Print(items[..i])| + 1) != '{'
  {
    hide PrintItem;
    var before, after := Print(items[..i]), Print(items[i + 1..]);
    PrintAt(items, i);
    DollarText();
    var s := before + ("$" + after);
    assert s == Print(items);
    if i + 1 < |items| {
      FirstChar(items[i + 1]);
      var t := PrintItem(items[i + 1]);
      assert items[i + 1..][0] == items[i + 1];
      assert after[0] == t[0];
      assert s[|before| + 1] == after[0];
    } else {
      assert after == "";
    }
  }

  lemma DollarText()
    ensures PrintItem(Lit('$')) == "$"
  {
  }

  lemma FirstChar(it: Item)
    ensures PrintItem(it)[0] == '{' ==> it == Lit('{')
  {
  }

  lemma PrintOne(it: Item)
    ensures Print([it]) == PrintItem(it)
  {
    assert [it][1..] == [];
    assert PrintItem(it) + "" == PrintItem(it);
  }

  /** No item leaves the text after it escaped. */
  lemma ItemClosed(t: string, it: Item)
    requires Closed(t) && WellFormed(it)
    ensures Closed(t + PrintItem(it))
  {
    hide Trailing;
    match it {
      case Quoted(c) =>
        ClosedPair(t, c);
      case _ =>
        TrailingNone(t, PrintItem(it));
    }
  }

  lemma {:induction false} PrintClosed(items: seq<Item>, i: nat)
    requires AllWellFormed(items) && i <= |items|
    ensures Closed(Print(items[..i]))
  {
    hide Print, PrintItem, WellFormed, EscapedAt;
    if i == 0 {
      PrintNothing();
      assert items[..0] == [];
    } else {
      PrintClosed(items, i - 1);
      PrintAt(items, i - 1);
      ItemClosed(Print(items[..i - 1]), items[i - 1]);
    }
  }

  // ---------------------------------------------------------------- the scanner on an item

  /** The flags as the template sees them: a lasting case mode. */
  ghost function ExpectedToken(it: Item, m: Mode): Token
    requires WellFormed(it)
  {
    match it
    case Lit(c) => Token(NOTHING_SPECIAL, 0, FlagsOf(m))
    case Quoted(c) => Token(NOTHING_SPECIAL, 2, FlagsOf(m))
    case Case(f) => Token(REPLACE_FLAG, 2, FlagsOf(Apply(f)))
    case Group(d) => Token(Ref(it), 2, FlagsOf(m))
    case Brace(ds) => Token(Ref(it), |PrintItem(it)|, FlagsOf(m))
    case _ => Token(ESCAPE_SEQ, |PrintItem(it)|, FlagsOf(m))
  }

  /** A run of characters that ends where another kind of character stands. */
  lemma {:induction false} SpanIs(s: string, from: nat, kind: char -> bool, n: nat)
    requires from + n <= |s| && (forall k :: from <= k < from + n ==> kind(s[k]))
    requires from + n == |s| || !kind(s[from + n])
    ensures Span(s, from, kind) == n
    decreases n
  {
    if n > 0 {
      SpanIs(s, from + 1, kind, n - 1);
    }
  }

  lemma TokenOfBrace(s: string, pos: nat, ds: string, flags: Flags)
    requires WellFormed(Brace(ds)) && pos + |ds| + 3 <= |s| && !EscapedAt(s, pos)
    requires s[pos] == '$' && s[pos + 1] == '{' && s[pos + 2..pos + 2 + |ds|] == ds && s[pos + 2 + |ds|] == '}'
    ensures TokenAt(s, pos, flags) == Token(Value(10, ds), |ds| + 3, flags)
  {
    hide Value, EscapedAt, Span;
    BraceSpan(s, pos, ds);
    AtoiDigits(ds);
    hide Atoi;
  }

  lemma BraceSpan(s: string, pos: nat, ds: string)
    requires WellFormed(Brace(ds)) && pos + |ds| + 3 <= |s|
    requires s[pos + 2..pos + 2 + |ds|] == ds && s[pos + 2 + |ds|] == '}'
    ensures Span(s, pos + 2, IsParam) == |ds| && IsParam(s[pos + 2])
  {
    forall k | pos + 2 <= k < pos + 2 + |ds| ensures IsDigit(s[k]) {
      assert s[k] == s[pos + 2..pos + 2 + |ds|][k - pos - 2];
    }
    assert s[pos + 2] == ds[0];
    SpanIs(s, pos + 2, IsParam, |ds|);
  }

  lemma AtoiDigits(ds: string)
    requires forall i :: 0 <= i < |ds| ==> IsDigit(ds[i])
    ensures Atoi(ds) == Value(10, ds)
  {
    hide Value, Span;
    SpanIs(ds, 0, IsDigit, |ds|);
    assert ds[..|ds|] == ds;
  }

  lemma EscapeOfOct(s: string, pos: nat, ds: string)
    requires WellFormed(Oct(ds)) && pos + |ds| + 3 <= |s|
    requires s[pos + 1] == '{' && s[pos + 2..pos + 2 + |ds|] == ds && s[pos + 2 + |ds|] == '}'
    ensures EscapeAt(s, pos) == Done(ESCAPE_SEQ, |ds| + 3)
  {
    forall k | pos + 2 <= k < pos + 2 + |ds| ensures IsOctal(s[k]) {
      assert s[k] == s[pos + 2..pos + 2 + |ds|][k - pos - 2];
    }
    SpanIs(s, pos + 2, IsOctal, |ds|);
  }

  lemma EscapeOfHex(s: string, pos: nat, ds: string)
    requires WellFormed(HexBrace(ds)) && pos + |ds| + 4 <= |s|
    requires s[pos + 1] == 'x' && s[pos + 2] == '{'
    requires s[pos + 3..pos + 3 + |ds|] == ds && s[pos + 3 + |ds|] == '}'
    ensures EscapeAt(s, pos) == Done(ESCAPE_SEQ, |ds| + 4)
  {
    forall k | pos + 3 <= k < pos + 3 + |ds| ensures IsHexDigit(s[k]) {
      assert s[k] == s[pos + 3..pos + 3 + |ds|][k - pos - 3];
    }
    SpanIs(s, pos + 3, IsHexDigit, |ds|);
  }

  lemma ItemChars(s: string, pos: nat, t: string)
    requires t != "" && pos + |t| <= |s| && s[pos..pos + |t|] == t
    ensures s[pos] == t[0] && (|t| > 1 ==> s[pos + 1] == t[1])
    ensures |t| > 2 ==> s[pos + 2] == t[2]
    ensures |t| > 3 ==> s[pos + 3] == t[3]
  {
    var u := s[pos..pos + |t|];
    assert forall k :: 0 <= k < |u| ==> u[k] == s[pos + k];
  }

  lemma SubSlice(s: string, pos: nat, t: string, a: nat, b: nat)
    requires pos + |t| <= |s| && s[pos..pos + |t|] == t && a <= b <= |t|
    ensures s[pos + a..pos + b] == t[a..b]
  {
    forall k | a <= k < b ensures s[pos + k] == t[k] {
      assert s[pos..pos + |t|][k] == s[pos + k];
    }
  }

  /** The items that the escape scanner looks at. */
  lemma EscapeOfItem(s: string, pos: nat, it: Item)
    requires WellFormed(it) && !it.Lit? && !it.Group? && !it.Brace?
    requires pos + |PrintItem(it)| <= |s| && s[pos..pos + |PrintItem(it)|] == PrintItem(it)
    ensures EscapeAt(s, pos) ==
            if it.Quoted? || it.Case? then Open(0) else Done(ESCAPE_SEQ, |PrintItem(it)|)
  {
    var t := PrintItem(it);
    if it.Oct? || it.HexBrace? {
      EscapeOfBraces(s, pos, it);
    } else {
      hide Span;
      ItemChars(s, pos, t);
    }
  }

  lemma EscapeOfBraces(s: string, pos: nat, it: Item)
    requires WellFormed(it) && (it.Oct? || it.HexBrace?)
    requires pos + |PrintItem(it)| <= |s| && s[pos..pos + |PrintItem(it)|] == PrintItem(it)
    ensures EscapeAt(s, pos) == Done(ESCAPE_SEQ, |PrintItem(it)|)
  {
    hide EscapeAt;
    var t := PrintItem(it);
    ItemChars(s, pos, t);
    match it {
      case Oct(ds) =>
        SubSlice(s, pos, t, 2, 2 + |ds|);
        assert t[2..2 + |ds|] == ds && t[2 + |ds|] == '}';
        assert s[pos..pos + |t|][2 + |ds|] == s[pos + 2 + |ds|];
        EscapeOfOct(s, pos, ds);
      case HexBrace(ds) =>
        SubSlice(s, pos, t, 3, 3 + |ds|);
        assert t[3..3 + |ds|] == ds && t[3 + |ds|] == '}';
        assert s[pos..pos + |t|][3 + |ds|] == s[pos + 3 + |ds|];
        EscapeOfHex(s, pos, ds);
    }
  }

  lemma TokenOfItem(s: string, pos: nat, it: Item, m: Mode)
    requires WellFormed(it) && pos + |PrintItem(it)| <= |s| && s[pos..pos + |PrintItem(it)|] == PrintItem(it)
    requires !EscapedAt(s, pos) && (it == Lit('$') ==> At(s, pos + 1) != '{')
    ensures TokenAt(s, pos, FlagsOf(m)) == ExpectedToken(it, m)
  {
    hide Span, Value, EscapedAt, Atoi, EscapeAt;
    var t := PrintItem(it);
    ItemChars(s, pos, t);
    match it {
      case Lit(c) =>
      case Group(d) =>
      case Brace(ds) =>
        SubSlice(s, pos, t, 2, 2 + |ds|);
        assert t[2..2 + |ds|] == ds;
        TokenOfBrace(s, pos, ds, FlagsOf(m));
      case _ =>
        EscapeOfItem(s, pos, it);
    }
  }

  // ---------------------------------------------------------------- the arity check

  /** The capture the text at a position refers to; 0 when there is none. */
  function RefAt(s: string, pos: nat): nat
    requires pos < |s|
  {
    if pos + 1 >= |s| || EscapedAt(s, pos) then 0
    else if s[pos] == '\\' && IsDigit(s[pos + 1]) then HexDigit(s[pos + 1])
    else if s[pos] == '$' && s[pos + 1] == '{' then
      var n := Span(s, pos + 2, IsParam);
      if At(s, pos + 2 + n) == '}' then Atoi(s[pos + 2..pos + 2 + n]) else 0
    else 0
  }

  function Max(x: nat, y: nat): nat
  {
    if x < y then y else x
  }

  function MaxRefUpTo(s: string, n: nat): nat
    requires n <= |s|
  {
    if n == 0 then 0 else Max(MaxRefUpTo(s, n - 1), RefAt(s, n - 1))
  }

  /** The caller never passes an empty template (lib/search/search.c:330). */
  method GetMaxNumOfReplaceTokens(s: string) returns (maxToken: nat)
    requires s != ""
    ensures maxToken == MaxRefUpTo(s, |s|)
  {
    hide Span, Value, EscapedAt, Atoi;
    maxToken := 0;
    var loop := 0;
    while loop < |s| - 1
      invariant 0 <= loop <= |s| - 1 && maxToken == MaxRefUpTo(s, loop)
    {
      if s[loop] == '\\' && IsDigit(s[loop + 1]) {
        var escaped := IsCharEscaped(s, loop);
        if !escaped && maxToken < HexDigit(s[loop + 1]) {
          maxToken := HexDigit(s[loop + 1]);
        }
      } else if s[loop] == '$' && s[loop + 1] == '{' {
        var escaped := IsCharEscaped(s, loop);
        if !escaped {
          var tmpLen := ScanSpan(s, loop + 2, IsParam);
          if At(s, loop + 2 + tmpLen) == '}' {
            var tmpToken := Atoi(s[loop + 2..loop + 2 + tmpLen]);
            if maxToken < tmpToken {
              maxToken := tmpToken;
            }
          }
        }
      }
      loop := loop + 1;
    }
  }

  lemma {:induction false} MaxExtend(s: string, p: nat, n: nat)
    requires 0 < n && p + n <= |s| && forall k :: p < k < p + n ==> RefAt(s, k) == 0
    ensures MaxRefUpTo(s, p + n) == Max(MaxRefUpTo(s, p), RefAt(s, p))
  {
    if n > 1 {
      MaxExtend(s, p, n - 1);
    }
  }

  lemma {:induction false} MaxBound(s: string, n: nat, p: nat)
    requires p < n <= |s|
    ensures RefAt(s, p) <= MaxRefUpTo(s, n)
  {
    hide RefAt;
    if p < n - 1 {
      MaxBound(s, n - 1, p);
    }
  }

  /** Every capture the scanner finds in a template was found by the arity check before. */
  lemma TokenChecked(s: string, pos: nat, flags: Flags)
    requires pos < |s|
    ensures TokenAt(s, pos, flags).ret <= MaxRefUpTo(s, |s|)
  {
    hide MaxRefUpTo;
    TokenRef(s, pos, flags);
    MaxBound(s, |s|, pos);
  }

  lemma TokenRef(s: string, pos: nat, flags: Flags)
    requires pos < |s|
    ensures TokenAt(s, pos, flags).ret >= 0 ==> TokenAt(s, pos, flags).ret == RefAt(s, pos)
  {
    hide Span, Atoi, EscapedAt, WithFlag, HexDigit;
  }

  /** Inside an item nothing looks like another reference. */
  lemma RefInside(before: string, it: Item, after: string, k: nat)
    requires WellFormed(it) && Closed(before) && 0 < k < |PrintItem(it)|
    ensures RefAt(before + PrintItem(it) + after, |before| + k) == 0
  {
    hide Trailing, Span, Value;
    var t := PrintItem(it);
    var s := before + t + after;
    assert s[|before| + k] == t[k];
    if it.Quoted? {
      ClosedPair(before, it.c);
      assert s[..|before| + 1] == before + ['\\'];
    } else if it.Brace? {
      assert k <= |it.digits| + 1 ==> k == 1 || t[k] == it.digits[k - 2];
    } else if it.Oct? {
      assert k <= |it.digits| + 1 ==> k == 1 || t[k] == it.digits[k - 2];
    } else if it.HexBrace? {
      assert k <= |it.digits| + 2 ==> k <= 2 || t[k] == it.digits[k - 3];
    }
  }

  lemma RefOfItem(s: string, pos: nat, it: Item)
    requires WellFormed(it) && pos + |PrintItem(it)| <= |s| && s[pos..pos + |PrintItem(it)|] == PrintItem(it)
    requires !EscapedAt(s, pos) && (it == Lit('$') ==> At(s, pos + 1) != '{')
    ensures RefAt(s, pos) == Ref(it)
  {
    hide Span, Value, EscapedAt;
    var t := PrintItem(it);
    ItemChars(s, pos, t);
    if it.Brace? {
      SubSlice(s, pos, t, 2, 2 + |it.digits|);
      assert t[2..2 + |it.digits|] == it.digits;
      TokenOfBrace(s, pos, it.digits, NO_TRANSFORM);
    }
  }

  lemma {:induction false} MaxOfItems(items: seq<Item>, i: nat)
    requires AllWellFormed(items) && i <= |items|
    ensures |Print(items[..i])| <= |Print(items)|
    ensures MaxRefUpTo(Print(items), |Print(items[..i])|) == MaxRef(items[..i])
  {
    hide Print, PrintItem, RefAt, Ref, Trailing;
    assert items[..|items|] == items;
    PrintNothing();
    if i == 0 {
      assert items[..0] == [];
    } else {
      var it := items[i - 1];
      var before, t, after := Print(items[..i - 1]), PrintItem(it), Print(items[i..]);
      var s := Print(items);
      MaxOfItems(items, i - 1);
      PrintAt(items, i - 1);
      PrintClosed(items, i - 1);
      Assoc(before, t, after);
      assert s == before + t + after;
      assert s[..|before|] == before && s[|before|..|before| + |t|] == t;
      if it == Lit('$') {
        AfterDollar(items, i - 1);
      }
      RefOfItem(s, |before|, it);
      forall k | |before| < k < |before| + |t| ensures RefAt(s, k) == 0 {
        RefInside(before, it, after, k - |before|);
      }
      MaxExtend(s, |before|, |t|);
      assert items[..i][..i - 1] == items[..i - 1];
    }
  }

  lemma PrintNothing()
    ensures Print([]) == ""
  {
  }

  /** The arity check sees exactly the captures the template refers to. */
  lemma MaxRefOfTemplate(items: seq<Item>)
    requires AllWellFormed(items)
    ensures MaxRefUpTo(Print(items), |Print(items)|) == MaxRef(items)
  {
    MaxOfItems(items, |items|);
    assert items[..|items|] == items;
  }

  lemma {:induction false} RefBelowMax(items: seq<Item>, i: nat)
    requires AllWellFormed(items) && i < |items|
    ensures Ref(items[i]) <= MaxRef(items)
    decreases |items|
  {
    var n := |items| - 1;
    if i < n {
      RefBelowMax(items[..n], i);
    }
  }

  // ---------------------------------------------------------------- the whole function

  datatype Outcome =
    | Replaced(text: string)
    | NotEqualToFound
    | InvalidToken(index: int)

  /** Where the scan stands: i items read, the literal characters from item j on still waiting. */
  ghost predicate Scanned(items: seq<Item>, mt: Match, i: nat, j: nat, loop: nat, prev: nat, ret: string, m: Mode)
    requires AllWellFormed(items)
  {
    && j <= i <= |items|
    && loop == |Print(items[..i])| && prev == |Print(items[..j])|
    && prev <= loop <= |Print(items)|
    && ret + ExpandLate(items[i..], Print(items)[prev..loop], m, mt) == ExpandLate(items, "", AsIs, mt)
  }

  lemma ScannedStart(items: seq<Item>, mt: Match)
    requires AllWellFormed(items)
    ensures Scanned(items, mt, 0, 0, 0, 0, "", AsIs)
  {
    assert items[0..] == items && items[..0] == [];
    assert Print(items)[0..0] == "";
  }

  /** The scan is at an item, and at no other place. */
  lemma ScannedItem(items: seq<Item>, mt: Match, i: nat, j: nat, loop: nat, prev: nat, ret: string, m: Mode)
    requires AllWellFormed(items) && Scanned(items, mt, i, j, loop, prev, ret, m) && i < |items|
    ensures var s, t := Print(items), PrintItem(items[i]);
            loop + |t| <= |s| && s[loop..loop + |t|] == t && !EscapedAt(s, loop)
            && |Print(items[..i + 1])| == loop + |t|
            && (items[i] == Lit('$') ==> At(s, loop + 1) != '{')
  {
    hide Print, PrintItem, Trailing, ExpandLate;
    PrintAt(items, i);
    PrintClosed(items, i);
    if items[i] == Lit('$') {
      AfterDollar(items, i);
    }
    var before, t, after := Print(items[..i]), PrintItem(items[i]), Print(items[i + 1..]);
    assert Print(items) == before + (t + after);
    assert Print(items)[..loop] == before;
    assert Print(items)[loop..] == t + after;
    assert Print(items)[loop..loop + |t|] == (t + after)[..|t|] == t;
  }

  /** A literal character joins those that wait. */
  lemma ScannedLit(items: seq<Item>, mt: Match, i: nat, j: nat, loop: nat, prev: nat, ret: string, m: Mode)
    requires AllWellFormed(items) && Scanned(items, mt, i, j, loop, prev, ret, m) && i < |items| && items[i].Lit?
    ensures loop < |Print(items)| && Scanned(items, mt, i + 1, j, loop + 1, prev, ret, m)
  {
    hide Print, PrintItem, Trailing, Cased;
    ScannedItem(items, mt, i, j, loop, prev, ret, m);
    LitText(items[i]);
    var s := Print(items);
    assert s[loop..loop + 1] == [items[i].c];
    assert s[prev..loop + 1] == s[prev..loop] + [items[i].c];
    assert items[i..][1..] == items[i + 1..];
  }

  lemma LitText(it: Item)
    requires it.Lit?
    ensures PrintItem(it) == [it.c]
  {
  }

  /** Any other item writes what waited and then itself. */
  lemma ScannedOther(items: seq<Item>, mt: Match, i: nat, j: nat, loop: nat, prev: nat, ret: string, m: Mode)
    requires AllWellFormed(items) && Scanned(items, mt, i, j, loop, prev, ret, m) && i < |items| && !items[i].Lit?
    ensures var it, waiting := items[i], Print(items)[prev..loop];
            var next := loop + |PrintItem(it)|;
            if it.Case? then
              Scanned(items, mt, i + 1, i + 1, next, next, ret + Cased(Apply(it.f), waiting), Apply(it.f))
            else Scanned(items, mt, i + 1, i + 1, next, next, ret + Cased(m, waiting) + Written(it, m, mt), m)
  {
    hide Print, PrintItem, Trailing, Cased, Written;
    ScannedItem(items, mt, i, j, loop, prev, ret, m);
    var it, waiting := items[i], Print(items)[prev..loop];
    var next := loop + |PrintItem(it)|;
    assert Print(items)[next..next] == "";
    assert items[i..][1..] == items[i + 1..];
    if it.Case? {
      Assoc(ret, Cased(Apply(it.f), waiting), ExpandLate(items[i + 1..], "", Apply(it.f), mt));
    } else {
      var w, rest := Written(it, m, mt), ExpandLate(items[i + 1..], "", m, mt);
      Assoc(ret, Cased(m, waiting) + w, rest);
      Assoc(ret, Cased(m, waiting), w);
    }
  }

  /** The scan stops before the last character: what is left is at most one literal. */
  lemma ScannedEnd(items: seq<Item>, mt: Match, i: nat, j: nat, loop: nat, prev: nat, ret: string, m: Mode)
    requires AllWellFormed(items) && Scanned(items, mt, i, j, loop, prev, ret, m)
    requires loop + 1 >= |Print(items)|
    ensures ret + Cased(m, Print(items)[prev..]) == ExpandLate(items, "", AsIs, mt)
  {
    hide Print, PrintItem, Trailing, Cased;
    var s := Print(items);
    if i < |items| {
      ScannedItem(items, mt, i, j, loop, prev, ret, m);
      OneCharItem(items[i]);
      assert items[i].Lit?;
      ScannedLit(items, mt, i, j, loop, prev, ret, m);
      if i + 1 < |items| {
        NonemptyItem(items[i + 1]);
        ScannedItem(items, mt, i + 1, j, loop + 1, prev, ret, m);
      }
      assert items[i + 1..] == [];
      assert s[prev..loop + 1] == s[prev..];
    } else {
      assert items[..i] == items;
      assert s[prev..loop] == s[prev..];
    }
  }

  lemma OneCharItem(it: Item)
    ensures |PrintItem(it)| >= 1 && (|PrintItem(it)| == 1 <==> it.Lit?)
  {
  }

  lemma NonemptyItem(it: Item)
    ensures PrintItem(it) != ""
  {
  }

  lemma TokenSkips(s: string, pos: nat, flags: Flags)
    requires pos < |s|
    ensures var t := TokenAt(s, pos, flags); t.ret != NOTHING_SPECIAL ==> t.skip >= 2 && t.ret >= ESCAPE_SEQ
  {
    hide Span, Value, EscapedAt;
  }

  /** What is written for the text that waits and a token found in a lasting mode. */
  ghost predicate WrittenBy(s: string, loop: nat, prev: nat, dest: string, t: Token, mt: Match, m: Mode,
                            ret: string, flags: Flags)
    requires prev <= loop <= |s| && t.skip != 0
  {
    var waiting := dest + Cased(m, s[prev..loop]);
    if t.ret == NOTHING_SPECIAL then
      (ret, flags) == (waiting + Cased(m, Slice(s, loop + 1, t.skip - 1)), t.flags)
    else if t.ret == REPLACE_FLAG then (ret, flags) == (waiting, t.flags)
    else if t.ret == ESCAPE_SEQ then
      var e := EscapeText(Slice(s, loop + 1, t.skip - 1), t.flags, mt.isUtf8);
      (ret, flags) == (waiting + e.0, e.1)
    else t.ret >= 0 && (ret, flags) == (waiting + Cased(m, mt.capture(t.ret)), t.flags)
  }

  /** The text that waits is written, then the token. */
  method WriteToken(s: string, loop: nat, prev: nat, dest: string, t: Token, mt: Match, ghost m: Mode)
    returns (ret: string, flags: Flags)
    requires prev <= loop < |s| && t.skip != 0 && t.ret >= ESCAPE_SEQ
    ensures t.flags == FlagsOf(m) ==> WrittenBy(s, loop, prev, dest, t, mt, m, ret, flags)
  {
    hide Cased, Append, EscapeText, Slice;
    forall x ensures Append(x, FlagsOf(m)) == (Cased(m, x), FlagsOf(m)) {
      AppendMode(x, m);
    }
    ret, flags := dest, t.flags;
    if t.ret == NOTHING_SPECIAL {
      ret, flags := ProcessAppendStr(ret, s[prev..loop], flags);
      ret, flags := ProcessAppendStr(ret, Slice(s, loop + 1, t.skip - 1), flags);
    } else if t.ret == ESCAPE_SEQ {
      ret, flags := ProcessAppendStr(ret, s[prev..loop], flags);
      // without the starting backslash
      ret, flags := ProcessEscapeSequence(ret, Slice(s, loop + 1, t.skip - 1), flags, mt.isUtf8);
    } else {
      if loop != 0 {
        ret, flags := ProcessAppendStr(ret, s[prev..loop], flags);
      } else {
        assert s[prev..loop] == "";
        CasedEmpty(m);
        assert dest + "" == dest;
      }
      if t.ret >= 0 {
        ret, flags := ProcessAppendStr(ret, mt.capture(t.ret), flags);
      }
    }
  }

  /** An item that is not a literal is written as the reader of templates writes it. */
  lemma WrittenByToken(s: string, loop: nat, it: Item, m: Mode, mt: Match)
    requires WellFormed(it) && !it.Lit? && !it.Case?
    requires loop + |PrintItem(it)| <= |s| && s[loop..loop + |PrintItem(it)|] == PrintItem(it)
    ensures var t := ExpectedToken(it, m);
            t.skip == |PrintItem(it)| && t.flags == FlagsOf(m) &&
            if t.ret == NOTHING_SPECIAL then Cased(m, Slice(s, loop + 1, t.skip - 1)) == Written(it, m, mt)
            else if t.ret == ESCAPE_SEQ then
              EscapeText(Slice(s, loop + 1, t.skip - 1), t.flags, mt.isUtf8) == (Written(it, m, mt), FlagsOf(m))
            else t.ret >= 0 && Cased(m, mt.capture(t.ret)) == Written(it, m, mt)
  {
    hide Cased, Encode, EscapeText, Value, Slice, FlagsOf;
    SliceOfItem(s, loop, PrintItem(it));
    ItemTail(it);
    match it {
      case Oct(ds) => EscapeTextOct(ds, FlagsOf(m), mt.isUtf8);
      case Hex2(h1, h2) => EscapeTextHex2(h1, h2, FlagsOf(m), mt.isUtf8);
      case HexBrace(ds) => EscapeTextHex(ds, FlagsOf(m), mt.isUtf8);
      case Ctrl(c) => EscapeTextCtrl(c, FlagsOf(m), mt.isUtf8);
      case _ =>
    }
  }

  /** What is behind the backslash of an item. */
  lemma ItemTail(it: Item)
    ensures PrintItem(it) != ""
    ensures match it
            case Quoted(c) => PrintItem(it)[1..] == [c]
            case Oct(ds) => PrintItem(it)[1..] == "{" + ds + "}"
            case Hex2(h1, h2) => PrintItem(it)[1..] == ['x', h1, h2]
            case HexBrace(ds) => PrintItem(it)[1..] == "x{" + ds + "}"
            case Ctrl(c) => PrintItem(it)[1..] == [c]
            case _ => true
  {
  }

  lemma SliceOfItem(s: string, loop: nat, t: string)
    requires t != "" && loop + |t| <= |s| && s[loop..loop + |t|] == t
    ensures Slice(s, loop + 1, |t| - 1) == t[1..]
  {
    SubSlice(s, loop, t, 1, |t|);
    assert s[loop + 1..] == s[loop + 1..|s|];
  }

  lemma EscapeTextOct(ds: string, flags: Flags, isUtf8: bool)
    requires WellFormed(Oct(ds))
    ensures EscapeText("{" + ds + "}", flags, isUtf8) == (Encode(Value(8, ds) % UINT_RANGE, isUtf8), flags)
  {
    hide Encode, Value;
    var from := "{" + ds + "}";
    SpanIs(from, 1, IsOctal, |ds|);
    assert from[1..1 + |ds|] == ds;
    assert from[1] == ds[0];
    AccumulateValue(8, ds);
  }

  lemma EscapeTextHex(ds: string, flags: Flags, isUtf8: bool)
    requires WellFormed(HexBrace(ds))
    ensures EscapeText("x{" + ds + "}", flags, isUtf8) == (Encode(Value(16, ds) % UINT_RANGE, isUtf8), flags)
  {
    hide Encode, Value;
    var from := "x{" + ds + "}";
    SpanIs(from, 2, IsHexDigit, |ds|);
    assert from[2..2 + |ds|] == ds;
    AccumulateValue(16, ds);
  }

  lemma EscapeTextHex2(h1: char, h2: char, flags: Flags, isUtf8: bool)
    requires IsHexDigit(h1) && IsHexDigit(h2)
    ensures EscapeText(['x', h1, h2], flags, isUtf8) == (Encode(Value(16, [h1, h2]) % UINT_RANGE, isUtf8), flags)
  {
    hide Encode, Value;
    var from := ['x', h1, h2];
    SpanIs(from, 1, IsHexDigit, 2);
    assert from[1..3] == [h1, h2];
    AccumulateValue(16, [h1, h2]);
  }

  lemma EscapeTextCtrl(c: char, flags: Flags, isUtf8: bool)
    requires IsCtrl(c)
    ensures EscapeText([c], flags, isUtf8) == (Encode(CtrlCode(c), isUtf8), flags)
  {
    hide Encode;
  }

  /** mc_search_regex_prepare_replace_str. The number of results is negative when there is no
      match information; otherwise it counts the whole match and the captures. The ghost
      parameter is a reading of the template as a list of items, if it has one. */
  method PrepareReplaceStr(s: string, mt: Match, numResults: int, ghost items: seq<Item>) returns (r: Outcome)
    requires s != ""
    ensures numResults < 0 ==> r == Replaced(s)
    ensures !r.InvalidToken?
    ensures r == NotEqualToFound <==>
            numResults >= 0 && (MaxRefUpTo(s, |s|) > numResults - 1 || MaxRefUpTo(s, |s|) > 64)
    ensures numResults >= 0 && AllWellFormed(items) && s == Print(items) ==>
              r == if MaxRef(items) > numResults - 1 || MaxRef(items) > 64 then NotEqualToFound
                   else Replaced(ExpandLate(items, "", AsIs, mt))
  {
    hide TokenAt, MaxRefUpTo, Slice, EscapeText, Cased, Written, Append, Scanned;
    var numReplaceTokens := GetMaxNumOfReplaceTokens(s);
    if numResults < 0 {
      return Replaced(s);
    }
    ghost var good := AllWellFormed(items) && s == Print(items);
    if good {
      MaxRefOfTemplate(items);
      ScannedStart(items, mt);
    }
    if numReplaceTokens > numResults - 1 || numReplaceTokens > NUM_REPLACE_ARGS {
      return NotEqualToFound;
    }
    var ret, prev: nat, loop: nat, flags := "", 0, 0, NO_TRANSFORM;
    ghost var i: nat, j: nat, m := 0, 0, AsIs;
    while loop < |s| - 1
      invariant prev <= loop
      invariant good ==> Scanned(items, mt, i, j, loop, prev, ret, m) && flags == FlagsOf(m)
      decreases |s| - loop
    {
      var invalid;
      invalid, loop, prev, ret, flags, i, j, m :=
        ScanStep(s, mt, numResults, loop, prev, ret, flags, items, i, j, m);
      if invalid >= 0 {
        assert false;
        return InvalidToken(invalid);
      }
    }
    ghost var was := ret;
    ret, flags := ProcessAppendStr(ret, Slice(s, prev, |s|), flags);
    if good {
      ScannedRest(items, mt, i, j, loop, prev, was, m);
      AppendMode(Slice(s, prev, |s|), m);
      ScannedEnd(items, mt, i, j, loop, prev, was, m);
    }
    r := Replaced(ret);
  }

  /** One round of the loop; invalid is the number of a capture that does not exist, or -1. */
  method ScanStep(s: string, mt: Match, numResults: nat, loop: nat, prev: nat, ret: string, flags: Flags,
                  ghost items: seq<Item>, ghost i: nat, ghost j: nat, ghost m: Mode)
    returns (invalid: int, loop': nat, prev': nat, ret': string, flags': Flags,
             ghost i': nat, ghost j': nat, ghost m': Mode)
    requires prev <= loop < |s|
    ensures loop' > loop || invalid >= 0
    ensures prev' <= loop'
    ensures invalid >= 0 ==> numResults < invalid <= MaxRefUpTo(s, |s|)
    ensures AllWellFormed(items) && s == Print(items) && Scanned(items, mt, i, j, loop, prev, ret, m)
            && flags == FlagsOf(m) && MaxRef(items) < numResults ==>
              invalid < 0 && Scanned(items, mt, i', j', loop', prev', ret', m') && flags' == FlagsOf(m')
  {
    hide TokenAt, MaxRefUpTo, Slice, EscapeText, Cased, Written, Append, Scanned, WrittenBy;
    hide Print, PrintItem, MaxRef, Ref, ExpectedToken, EscapedAt, Trailing;
    invalid, loop', prev', ret', flags', i', j', m' := -1, loop, prev, ret, flags, i, j, m;
    ghost var good := AllWellFormed(items) && s == Print(items) && Scanned(items, mt, i, j, loop, prev, ret, m)
                      && flags == FlagsOf(m) && MaxRef(items) < numResults;
    var t := ProcessReplaceStr(s, loop, flags);
    TokenSkips(s, loop, flags);
    if good {
      ScannedMore(items, mt, i, j, loop, prev, ret, m);
      ScannedItem(items, mt, i, j, loop, prev, ret, m);
      TokenOfItem(s, loop, items[i], m);
      TokenKind(items[i], m);
    }
    if t.ret == NOTHING_SPECIAL && t.skip == 0 {
      loop' := loop + 1;
      if good {
        ScannedLit(items, mt, i, j, loop, prev, ret, m);
        i' := i + 1;
      }
      return;
    }
    if t.ret >= 0 && t.ret > numResults {
      invalid := t.ret;
      TokenChecked(s, loop, flags);
      if good {
        RefBelowMax(items, i);
      }
      return;
    }
    if good {
      i', j', m' := i + 1, i + 1, ModeAfter(items[i], m);
    }
    ret', flags' := WriteToken(s, loop, prev, ret, t, mt, m');
    prev' := loop + t.skip;
    loop' := prev';
    if good {
      ScannedToken(items, mt, i, j, loop, prev, ret, m, t, ret', flags');
    }
  }

  ghost function ModeAfter(it: Item, m: Mode): Mode
  {
    if it.Case? then Apply(it.f) else m
  }

  lemma ScannedToken(items: seq<Item>, mt: Match, i: nat, j: nat, loop: nat, prev: nat, ret: string, m: Mode,
                     t: Token, ret': string, flags': Flags)
    requires AllWellFormed(items) && Scanned(items, mt, i, j, loop, prev, ret, m) && i < |items| && !items[i].Lit?
    requires t == ExpectedToken(items[i], m) && t.skip != 0
    requires WrittenBy(Print(items), loop, prev, ret, t, mt, ModeAfter(items[i], m), ret', flags')
    ensures Scanned(items, mt, i + 1, i + 1, loop + t.skip, loop + t.skip, ret', ModeAfter(items[i], m))
    ensures flags' == FlagsOf(ModeAfter(items[i], m))
  {
    hide Scanned, Cased, Written, Slice, EscapeText, Print, PrintItem, ExpectedToken, Ref, EscapedAt, WellFormed, At,
      Apply, ExpandLate, FlagsOf;
    var it := items[i];
    TokenKind(it, m);
    ScannedItem(items, mt, i, j, loop, prev, ret, m);
    ScannedOther(items, mt, i, j, loop, prev, ret, m);
    if !it.Case? {
      WrittenByToken(Print(items), loop, it, m, mt);
    }
  }

  lemma ScannedMore(items: seq<Item>, mt: Match, i: nat, j: nat, loop: nat, prev: nat, ret: string, m: Mode)
    requires AllWellFormed(items) && Scanned(items, mt, i, j, loop, prev, ret, m) && loop < |Print(items)|
    ensures i < |items|
  {
    hide ExpandLate;
    assert items[..|items|] == items;
  }

  lemma ScannedRest(items: seq<Item>, mt: Match, i: nat, j: nat, loop: nat, prev: nat, ret: string, m: Mode)
    requires AllWellFormed(items) && Scanned(items, mt, i, j, loop, prev, ret, m)
    ensures prev <= |Print(items)| && Slice(Print(items), prev, |Print(items)|) == Print(items)[prev..]
  {
    hide ExpandLate, Print;
    var s := Print(items);
    assert prev == |s| ==> s[prev..] == "";
  }

  /** Only literals are passed over one by one, and only references yield a number. */
  lemma TokenKind(it: Item, m: Mode)
    requires WellFormed(it)
    ensures var t := ExpectedToken(it, m);
            (t.ret == NOTHING_SPECIAL && t.skip == 0 <==> it.Lit?)
            && (it.Case? ==> t == Token(REPLACE_FLAG, |PrintItem(it)|, FlagsOf(Apply(it.f))))
            && (t.ret >= 0 ==> t.ret == Ref(it))
            && t.flags == FlagsOf(ModeAfter(it, m))
            && (!it.Lit? && !it.Case? ==> t.ret != REPLACE_FLAG && t.skip == |PrintItem(it)|)
  {
  }

  /** The replacement is the left-to-right expansion exactly when no case flag meets literal
      text that it changes. */
  lemma ReplacementIsExpansion(items: seq<Item>, mt: Match)
    requires AllWellFormed(items)
    ensures ExpandLate(items, "", AsIs, mt) == Expand(items, AsIs, mt) <==> FlagsMeetStableText(items, "", AsIs)
  {
    ReadersAgree(items, "", AsIs, mt);
    CasedEmpty(AsIs);
  }

  /** The text before a flag is changed by it: "a\U" comes out as "A". */
  lemma FlagReachesBack(mt: Match)
    ensures ExpandLate([Lit('a'), Case(UpperOn)], "", AsIs, mt) == "A"
    ensures Expand([Lit('a'), Case(UpperOn)], AsIs, mt) == "a"
  {
    var items := [Lit('a'), Case(UpperOn)];
    assert items[1..] == [Case(UpperOn)] && items[1..][1..] == [];
    assert Cased(Upp, "a") == "A";
    assert Cased(AsIs, [items[0].c]) == "a";
    assert Expand(items, AsIs, mt) == "a" + Expand(items[1..], AsIs, mt);
  }
}
