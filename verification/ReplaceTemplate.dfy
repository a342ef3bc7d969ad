/**
 Replacement templates: their syntax, and what a left-to-right reader makes of them.
 Characters stand for bytes.
 */
module ReplaceTemplate {
  import opened Characters
  import opened Decimal
  import opened Sequences

  datatype Flag = UpperOn | LowerOn | CaseOff

  datatype Item =
    | Lit(c: char)
    | Group(d: char)              // \d
    | Brace(digits: string)       // ${digits}
    | Oct(digits: string)         // \{digits}
    | Hex2(h1: char, h2: char)    // \xHH
    | HexBrace(digits: string)    // \x{digits}
    | Ctrl(c: char)               // \n and its kin
    | Quoted(c: char)             // \ before a character without a meaning of its own
    | Case(f: Flag)               // \U \L \E

  // ---------------------------------------------------------------- characters

  predicate IsOctal(c: char) { '0' <= c <= '7' }

  /** The characters with the code 0x30 to 0x3F: what the code accepts between "${" and "}". */
  predicate IsParam(c: char) { '0' <= c <= '?' }

  predicate IsCtrl(c: char) { c in "ntvbrfa" }

  /** The value of a digit string, most significant digit first. */
  function Value(base: nat, ds: string): nat
    requires forall i :: 0 <= i < |ds| ==> IsHexDigit(ds[i])
    decreases |ds|
  {
    if ds == "" then 0 else Value(base, ds[..|ds| - 1]) * base + HexDigit(ds[|ds| - 1])
  }

  // ---------------------------------------------------------------- syntax

  predicate IsLit(c: char) { c != '\\' && c != '\0' }

  /** A character that a backslash only quotes. */
  predicate IsQuotable(c: char)
  {
    !IsDigit(c) && c !in "{x" && !IsCtrl(c) && c !in "UuLlE" && c != '\0'
  }

  /** A number that an int holds, as atoi is defined on. */
  const INT_MAX := 0x7FFF_FFFF

  predicate WellFormed(it: Item)
  {
    match it
    case Lit(c) => IsLit(c)
    case Group(d) => IsDigit(d)
    case Brace(ds) => ds != "" && (forall i :: 0 <= i < |ds| ==> IsDigit(ds[i])) && Value(10, ds) <= INT_MAX
    case Oct(ds) => ds != "" && forall i :: 0 <= i < |ds| ==> IsOctal(ds[i])
    case Hex2(h1, h2) => IsHexDigit(h1) && IsHexDigit(h2)
    case HexBrace(ds) => forall i :: 0 <= i < |ds| ==> IsHexDigit(ds[i])
    case Ctrl(c) => IsCtrl(c)
    case Quoted(c) => IsQuotable(c)
    case Case(f) => true
  }

  /** A literal dollar sign is not followed by a literal brace: together they could be read as
      the start of a reference. */
  predicate AllWellFormed(items: seq<Item>)
  {
    && (forall i :: 0 <= i < |items| ==> WellFormed(items[i]))
    && (forall i :: 0 < i < |items| && items[i] == Lit('{') ==> items[i - 1] != Lit('$'))
  }

  function FlagChar(f: Flag): char
  {
    match f
    case UpperOn => 'U'
    case LowerOn => 'L'
    case CaseOff => 'E'
  }

  function PrintItem(it: Item): (s: string)
    ensures s != ""
  {
    match it
    case Lit(c) => [c]
    case Group(d) => ['\\', d]
    case Brace(ds) => "${" + ds + "}"
    case Oct(ds) => "\\{" + ds + "}"
    case Hex2(h1, h2) => ['\\', 'x', h1, h2]
    case HexBrace(ds) => "\\x{" + ds + "}"
    case Ctrl(c) => ['\\', c]
    case Quoted(c) => ['\\', c]
    case Case(f) => ['\\', FlagChar(f)]
  }

  function Print(items: seq<Item>): string
  {
    if items == [] then "" else PrintItem(items[0]) + Print(items[1..])
  }

  // ---------------------------------------------------------------- meaning

  datatype Mode = AsIs | Upp | Low

  function Apply(f: Flag): Mode
  {
    match f
    case UpperOn => Upp
    case LowerOn => Low
    case CaseOff => AsIs
  }

  function Cased(m: Mode, t: string): (r: string)
    ensures |r| == |t|
  {
    match m
    case AsIs => t
    case Upp => seq(|t|, i requires 0 <= i < |t| => ToUpper(t[i]))
    case Low => seq(|t|, i requires 0 <= i < |t| => ToLower(t[i]))
  }

  /** What one match offers: its captures (capture 0 is the whole match) and the encoding. */
  datatype Match = Match(capture: nat -> string, isUtf8: bool)

  /** The bytes a code point is written as. From 0x10000 on the lead byte is not the one of
      section 3 of RFC 3629, and 0x10FFFF itself is dropped: this is what the code does. */
  function Encode(c: nat, isUtf8: bool): string
  {
    if c < 0x80 || !isUtf8 then [(c % 256) as char]
    else if c < 0x800 then [(0xC0 + c / 64) as char, (0x80 + c % 64) as char]
    else if c < 0x10000 then
      [(0xE0 + c / 4096) as char, (0x80 + c / 64 % 64) as char, (0x80 + c % 64) as char]
    else if c < 0x10FFFF then
      // 0xF0 | (c >> 16): bit 4 is set already, so 16 adds nothing
      [(0xF0 + c / 65536 % 16) as char, (0x80 + c / 4096 % 64) as char,
       (0x80 + c / 64 % 64) as char, (0x80 + c % 64) as char]
    else []
  }

  function CtrlCode(c: char): nat
    requires IsCtrl(c)
  {
    match c
    case 'n' => 10
    case 't' => 9
    case 'v' => 11
    case 'b' => 8
    case 'r' => 13
    case 'f' => 12
    case _ => 7
  }

  /** The control characters have the codes from 7 to 13. */
  lemma CtrlCodes(i: nat)
    requires i < 7
    ensures IsCtrl("abtnvfr"[i]) && CtrlCode("abtnvfr"[i]) == 7 + i
  {
  }

  lemma ParamColumn(c: char)
    ensures IsParam(c) <==> c as int / 16 == 3
  {
  }

  /** An unsigned int holds the code point. */
  const UINT_RANGE := 0x1_0000_0000

  /** What an item other than a case flag writes when it is read in mode m. */
  function Written(it: Item, m: Mode, mt: Match): string
    requires WellFormed(it) && !it.Case?
  {
    match it
    case Lit(c) => Cased(m, [c])
    case Quoted(c) => Cased(m, [c])
    case Group(d) => Cased(m, mt.capture(HexDigit(d)))
    case Brace(ds) => Cased(m, mt.capture(Value(10, ds)))
    case Oct(ds) => Encode(Value(8, ds) % UINT_RANGE, mt.isUtf8)
    case Hex2(h1, h2) => Encode(Value(16, [h1, h2]) % UINT_RANGE, mt.isUtf8)
    case HexBrace(ds) => Encode(Value(16, ds) % UINT_RANGE, mt.isUtf8)
    case Ctrl(c) => Encode(CtrlCode(c), mt.isUtf8)
  }

  /** The left-to-right reader: a case flag takes effect on what follows it. */
  function Expand(items: seq<Item>, m: Mode, mt: Match): string
    requires AllWellFormed(items)
    decreases |items|
  {
    if items == [] then ""
    else
      match items[0]
      case Case(f) => Expand(items[1..], Apply(f), mt)
      case _ => Written(items[0], m, mt) + Expand(items[1..], m, mt)
  }

  /** The reader the code implements: literal characters wait until the next item that is not
      one, and a case flag already applies to the characters that waited for it. */
  function ExpandLate(items: seq<Item>, waiting: string, m: Mode, mt: Match): string
    requires AllWellFormed(items)
    decreases |items|
  {
    if items == [] then Cased(m, waiting)
    else
      match items[0]
      case Lit(c) => ExpandLate(items[1..], waiting + [c], m, mt)
      case Case(f) => Cased(Apply(f), waiting) + ExpandLate(items[1..], "", Apply(f), mt)
      case _ => Cased(m, waiting) + Written(items[0], m, mt) + ExpandLate(items[1..], "", m, mt)
  }

  /** The capture an item refers to; 0 for the others, whose value never matters. */
  function Ref(it: Item): nat
    requires WellFormed(it)
  {
    match it
    case Group(d) => HexDigit(d)
    case Brace(ds) => Value(10, ds)
    case _ => 0
  }

  function MaxRef(items: seq<Item>): (n: nat)
    requires AllWellFormed(items)
    decreases |items|
  {
    if items == [] then 0
    else
      var n, k := MaxRef(items[..|items| - 1]), Ref(items[|items| - 1]);
      if n < k then k else n
  }

  // ---------------------------------------------------------------- templates of one item

  /** A control escape gives its character, in any mode and encoding. */
  lemma CtrlWritten(i: nat, m: Mode, mt: Match)
    requires i < 7
    ensures AllWellFormed([Ctrl("abtnvfr"[i])]) && Print([Ctrl("abtnvfr"[i])]) == ['\\', "abtnvfr"[i]]
    ensures ExpandLate([Ctrl("abtnvfr"[i])], "", m, mt) == [(7 + i) as char]
  {
    CtrlCodes(i);
    CasedEmpty(m);
    assert [Ctrl("abtnvfr"[i])][1..] == [];
  }

  function HexName(n: nat): char
    requires n < 16
  {
    "0123456789abcdef"[n]
  }

  /** A character has an escape of two hexadecimal digits, and one in braces. */
  lemma HexWritten(v: nat, m: Mode, mt: Match)
    requires v < 256 && (mt.isUtf8 ==> v < 128)
    ensures var h1, h2 := HexName(v / 16), HexName(v % 16);
            IsHexDigit(h1) && IsHexDigit(h2)
            && Written(Hex2(h1, h2), m, mt) == Written(HexBrace([h1, h2]), m, mt) == [v as char]
  {
    hide Value, HexDigit;
    HexDigits(v / 16);
    HexDigits(v % 16);
    TwoDigits(16, HexName(v / 16), HexName(v % 16));
    assert Value(16, [HexName(v / 16), HexName(v % 16)]) == v;
    CodeOfByte(v, mt.isUtf8);
  }

  /** And an octal one. */
  lemma OctWritten(v: nat, m: Mode, mt: Match)
    requires v < 256 && (mt.isUtf8 ==> v < 128)
    ensures var ds := [HexName(v / 64), HexName(v / 8 % 8), HexName(v % 8)];
            WellFormed(Oct(ds)) && Written(Oct(ds), m, mt) == [v as char]
  {
    hide Value, HexDigit;
    var a, b, c := v / 64, v / 8 % 8, v % 8;
    OctalParts(v);
    OctalNames(a);
    OctalNames(b);
    OctalNames(c);
    ThreeDigits(8, HexName(a), HexName(b), HexName(c));
    OctalParts(v);
    CodeOfByte(v, mt.isUtf8);
    hide Encode, HexName, IsOctal;
    var ds := [HexName(a), HexName(b), HexName(c)];
    assert Value(8, ds) == v;
  }

  lemma OctalParts(v: nat)
    requires v < 256
    ensures v / 64 < 8 && v / 8 % 8 < 8 && v == (v / 64 * 8 + v / 8 % 8) * 8 + v % 8
  {
    assert v / 8 == v / 64 * 8 + v / 8 % 8;
  }

  lemma CodeOfByte(v: nat, isUtf8: bool)
    requires v < 256 && (isUtf8 ==> v < 128)
    ensures Encode(v % UINT_RANGE, isUtf8) == [v as char]
  {
  }

  lemma OctalNames(n: nat)
    requires n < 8
    ensures IsOctal(HexName(n)) && IsHexDigit(HexName(n)) && HexDigit(HexName(n)) == n
  {
    HexDigits(n);
  }

  lemma TwoDigits(base: nat, x: char, y: char)
    requires IsHexDigit(x) && IsHexDigit(y)
    ensures Value(base, [x, y]) == HexDigit(x) * base + HexDigit(y)
  {
    assert [x, y][..1] == [x] && [x][..0] == "";
    assert Value(base, [x]) == HexDigit(x);
  }

  lemma ThreeDigits(base: nat, x: char, y: char, z: char)
    requires IsHexDigit(x) && IsHexDigit(y) && IsHexDigit(z)
    ensures Value(base, [x, y, z]) == (HexDigit(x) * base + HexDigit(y)) * base + HexDigit(z)
  {
    hide HexDigit;
    assert [x, y, z][..2] == [x, y];
    TwoDigits(base, x, y);
  }

  /** A code is written as it is below 2^32, and above that without its upper bits. */
  lemma LongCode(ds: string, m: Mode, mt: Match)
    requires forall i :: 0 <= i < |ds| ==> IsHexDigit(ds[i])
    ensures Value(16, ds) < 0x1_0000_0000 ==> Written(HexBrace(ds), m, mt) == Encode(Value(16, ds), mt.isUtf8)
    ensures 0x1_0000_0000 <= Value(16, ds) < 0x2_0000_0000 ==>
              Written(HexBrace(ds), m, mt) == Encode(Value(16, ds) - 0x1_0000_0000, mt.isUtf8)
  {
    hide Value, Encode;
    UnsignedRange(Value(16, ds));
  }

  lemma UnsignedRange(v: nat)
    ensures v < 0x1_0000_0000 ==> v % UINT_RANGE == v
    ensures 0x1_0000_0000 <= v < 0x2_0000_0000 ==> v % UINT_RANGE == v - 0x1_0000_0000
  {
  }

  /** A letter behind a case flag is written in the case that the letter of the flag stands for. */
  lemma FlagWritten(i: nat, m: Mode, mt: Match)
    requires i < 26
    ensures Print([Case(UpperOn)]) == "\\U" && Print([Case(LowerOn)]) == "\\L" && Print([Case(CaseOff)]) == "\\E"
    ensures Expand([Case(UpperOn), Lit(LOWER[i])], m, mt) == [UPPER[i]]
    ensures Expand([Case(LowerOn), Lit(UPPER[i])], m, mt) == [LOWER[i]]
    ensures Expand([Case(CaseOff), Lit(LOWER[i])], m, mt) == [LOWER[i]]
    ensures Expand([Case(CaseOff), Lit(UPPER[i])], m, mt) == [UPPER[i]]
  {
    Cases(i);
    FlagThenLit(UpperOn, LOWER[i], m, mt);
    FlagThenLit(LowerOn, UPPER[i], m, mt);
    FlagThenLit(CaseOff, LOWER[i], m, mt);
    FlagThenLit(CaseOff, UPPER[i], m, mt);
  }

  lemma FlagThenLit(f: Flag, c: char, m: Mode, mt: Match)
    requires IsLit(c)
    ensures AllWellFormed([Case(f), Lit(c)])
    ensures Expand([Case(f), Lit(c)], m, mt) == Cased(Apply(f), [c])
  {
    var items := [Case(f), Lit(c)];
    assert items[1..] == [Lit(c)] && [Lit(c)][1..] == [];
    assert Expand([Lit(c)], Apply(f), mt) == Written(Lit(c), Apply(f), mt) + "";
  }

  // ---------------------------------------------------------------- when the two readers agree

  lemma CasedConcat(m: Mode, t: string, u: string)
    ensures Cased(m, t + u) == Cased(m, t) + Cased(m, u)
  {
  }

  /** No literal text that waits for a case flag is changed by it. */
  predicate FlagsMeetStableText(items: seq<Item>, waiting: string, m: Mode)
    decreases |items|
  {
    if items == [] then true
    else
      match items[0]
      case Lit(c) => FlagsMeetStableText(items[1..], waiting + [c], m)
      case Case(f) => Cased(Apply(f), waiting) == Cased(m, waiting) && FlagsMeetStableText(items[1..], "", Apply(f))
      case _ => FlagsMeetStableText(items[1..], "", m)
  }

  lemma {:induction false} ReadersAgree(items: seq<Item>, waiting: string, m: Mode, mt: Match)
    requires AllWellFormed(items)
    ensures |ExpandLate(items, waiting, m, mt)| == |waiting| + |Expand(items, m, mt)|
    ensures ExpandLate(items, waiting, m, mt) == Cased(m, waiting) + Expand(items, m, mt)
            <==> FlagsMeetStableText(items, waiting, m)
    decreases |items|
  {
    hide Cased, Written;
    if items == [] {
      CasedEmpty(m);
      assert Cased(m, waiting) + "" == Cased(m, waiting);
    } else {
      var rest := items[1..];
      CasedEmpty(m);
      match items[0] {
        case Lit(c) =>
          ReadersAgree(rest, waiting + [c], m, mt);
          CasedConcat(m, waiting, [c]);
          WrittenLit(c, m, mt);
          Assoc(Cased(m, waiting), Cased(m, [c]), Expand(rest, m, mt));
        case Case(f) =>
          CasedEmpty(Apply(f));
          ReadersAgree(rest, "", Apply(f), mt);
          SplitEqual(Cased(Apply(f), waiting), ExpandLate(rest, "", Apply(f), mt),
                     Cased(m, waiting), Expand(rest, Apply(f), mt));
        case _ =>
          ReadersAgree(rest, "", m, mt);
          var w := Written(items[0], m, mt);
          var head := Cased(m, waiting) + w;
          SplitEqual(head, ExpandLate(rest, "", m, mt), head, Expand(rest, m, mt));
          Assoc(Cased(m, waiting), w, Expand(rest, m, mt));
      }
    }
  }

  lemma CasedEmpty(m: Mode)
    ensures Cased(m, "") == "" && forall t: string :: "" + t == t
  {
  }

  lemma WrittenLit(c: char, m: Mode, mt: Match)
    requires IsLit(c)
    ensures Written(Lit(c), m, mt) == Cased(m, [c])
  {
  }

  lemma SplitEqual(a: string, b: string, c: string, d: string)
    requires |a| == |c|
    ensures a + b == c + d <==> a == c && b == d
  {
    if a + b == c + d {
      assert (a + b)[..|a|] == a && (c + d)[..|c|] == c;
      assert (a + b)[|a|..] == b && (c + d)[|c|..] == d;
    }
  }

  // ---------------------------------------------------------------- the encoder

  /** The code point that one to four bytes stand for, the bits of the bytes put together
      (section 3 of RFC 3629). */
  function Decode(b: string): nat
  {
    if |b| == 1 then b[0] as int
    else if |b| == 2 then b[0] as int % 32 * 64 + b[1] as int % 64
    else if |b| == 3 then b[0] as int % 16 * 4096 + b[1] as int % 64 * 64 + b[2] as int % 64
    else if |b| == 4 then
      b[0] as int % 8 * 262144 + b[1] as int % 64 * 4096 + b[2] as int % 64 * 64 + b[3] as int % 64
    else 0
  }

  /** The lead byte announces the number of bytes, the others continue (section 3 of RFC 3629). */
  predicate IsUtf8(b: string)
  {
    && 1 <= |b| <= 4
    && (forall i :: 1 <= i < |b| ==> 0x80 <= b[i] as int < 0xC0)
    && var lead := b[0] as int;
       if |b| == 1 then lead < 0x80
       else if |b| == 2 then 0xC0 <= lead < 0xE0
       else if |b| == 3 then 0xE0 <= lead < 0xF0
       else 0xF0 <= lead < 0xF8
  }

  /** What is written for a code point is UTF-8 for it exactly below 0x10000. */
  lemma EncodeIsUtf8(c: nat)
    requires c <= 0x10FFFF
    ensures c < 0x10000 <==> IsUtf8(Encode(c, true)) && Decode(Encode(c, true)) == c
  {
    if c < 0x10000 {
      EncodeBelow(c);
    } else if c < 0x10FFFF {
      EncodeAbove(c);
    } else {
      assert Encode(c, true) == "";
    }
  }

  lemma TwoBytes(h: nat, l: nat)
    requires h < 32 && l < 64
    ensures var b := [(0xC0 + h) as char, (0x80 + l) as char]; IsUtf8(b) && Decode(b) == h * 64 + l
  {
    assert (0xC0 + h) % 32 == h && (0x80 + l) % 64 == l;
  }

  lemma ThreeBytes(h: nat, m: nat, l: nat)
    requires h < 16 && m < 64 && l < 64
    ensures var b := [(0xE0 + h) as char, (0x80 + m) as char, (0x80 + l) as char];
            IsUtf8(b) && Decode(b) == h * 4096 + m * 64 + l
  {
    assert (0xE0 + h) % 16 == h && (0x80 + m) % 64 == m && (0x80 + l) % 64 == l;
  }

  lemma FourBytes(h: nat, k: nat, m: nat, l: nat)
    requires h < 16 && k < 64 && m < 64 && l < 64
    ensures var b := [(0xF0 + h) as char, (0x80 + k) as char, (0x80 + m) as char, (0x80 + l) as char];
            IsUtf8(b) ==> h < 8 && Decode(b) == h * 262144 + k * 4096 + m * 64 + l
  {
    var b := [(0xF0 + h) as char, (0x80 + k) as char, (0x80 + m) as char, (0x80 + l) as char];
    assert b[0] as int == 0xF0 + h;
    assert (0xF0 + h) % 8 == h % 8;
    assert (0x80 + k) % 64 == k && (0x80 + m) % 64 == m && (0x80 + l) % 64 == l;
  }

  lemma EncodeBelow(c: nat)
    requires c < 0x10000
    ensures IsUtf8(Encode(c, true)) && Decode(Encode(c, true)) == c
  {
    hide Decode, IsUtf8;
    if c < 0x80 {
      OneByte(c);
    } else if c < 0x800 {
      TwoBytes(c / 64, c % 64);
    } else {
      LowBits(c);
      assert c / 4096 < 16;
      ThreeBytes(c / 4096, c / 64 % 64, c % 64);
    }
  }

  lemma OneByte(c: nat)
    requires c < 0x80
    ensures IsUtf8([c as char]) && Decode([c as char]) == c
  {
  }

  /** From 0x10000 on the lead byte holds the bits from 16 on instead of those from 18 on. */
  lemma EncodeAbove(c: nat)
    requires 0x10000 <= c < 0x10FFFF
    ensures !(IsUtf8(Encode(c, true)) && Decode(Encode(c, true)) == c)
  {
    hide Decode, IsUtf8;
    var x := c / 65536;
    FourBytes(x % 16, c / 4096 % 64, c / 64 % 64, c % 64);
    Quarter(c, x);
    LowBits(c);
    assert 1 <= x <= 16;
    assert x % 16 < 8 ==> x % 16 != x / 4;
  }

  lemma Quarter(c: nat, x: nat)
    requires x == c / 65536
    ensures c == x / 4 * 262144 + c % 262144
  {
    assert c / 262144 == x / 4;
  }

  lemma LowBits(c: nat)
    ensures c / 4096 % 64 * 4096 + c / 64 % 64 * 64 + c % 64 == c % 262144
  {
    var h, m, l := c / 4096, c / 64, c % 64;
    assert c == m * 64 + l && m == h * 64 + m % 64;
    assert h == h / 64 * 64 + h % 64;
    assert c == h / 64 * 262144 + (h % 64 * 4096 + m % 64 * 64 + l);
  }
}
