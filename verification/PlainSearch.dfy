/**
 Plain text search: the text is escaped (lib/search/normal.c) and the result is rewritten to
 a case-insensitive regular expression (lib/search/regex.c). Text is ASCII.
 */
module PlainSearch {
  import opened Options
  import opened Characters
  import opened Escapes
  import opened Regex
  import opened Sequences

  /** The characters that get a backslash. */
  predicate IsSpecial(c: char)
  {
    c in "*?,{}[]\\+.$()^-|"
  }

  function EscapeChar(c: char): string
  {
    if IsSpecial(c) then ['\\', c] else [c]
  }

  function Escaped(s: string): string
    decreases |s|
  {
    if s == "" then "" else Escaped(s[..|s| - 1]) + EscapeChar(s[|s| - 1])
  }

  lemma EscapedSnoc(t: string, c: char)
    ensures Escaped(t + [c]) == Escaped(t) + EscapeChar(c)
  {
    assert (t + [c])[..|t|] == t;
  }

  /** The translated front of the text, and the rest of it not yet translated. */
  lemma TranslateStep(front: string, c: char, rest: string)
    ensures var str := front + ([c] + rest);
            str[|front|] == c
            && str[..|front|] + ['\\'] + str[|front|..] == (front + ['\\', c]) + rest
            && str == (front + [c]) + rest
  {
    var str := front + ([c] + rest);
    assert str[..|front|] == front && str[|front|..] == [c] + rest;
  }

  /** mc_search__normal_translate_to_regex: backslashes are inserted in place. */
  method NormalTranslateToRegex(s: string) returns (str: string)
    ensures str == Escaped(s)
  {
    hide Escaped;
    str := s;
    var loop := 0;
    ghost var k := 0;  // the characters of s that have been passed
    EmptyEscaped();
    assert s[..0] == "" && s[0..] == s && "" + s == s;
    while loop < |str|
      invariant 0 <= k <= |s| && loop == |Escaped(s[..k])|
      invariant str == Escaped(s[..k]) + s[k..]
      decreases |s| - k
    {
      ghost var front := Escaped(s[..k]);
      CutAt(s, k);
      EscapedSnoc(s[..k], s[k]);
      TranslateStep(front, s[k], s[k + 1..]);
      if IsSpecial(str[loop]) {
        str := str[..loop] + ['\\'] + str[loop..];
        loop := loop + 1;
      }
      loop := loop + 1;
      k := k + 1;
    }
    assert s[..k] == s;
    assert Escaped(s) + "" == Escaped(s);
  }

  lemma EmptyEscaped()
    ensures Escaped("") == ""
  {
  }

  // ---------------------------------------------------------------- the case-insensitive rewriter

  function HexChar(n: nat): char
    requires n < 16
  {
    if n < 10 then ('0' as int + n) as char else ('A' as int + n - 10) as char
  }

  /** "\\x%02X" */
  function HexCode(c: char): string
    requires c as int < 256
  {
    ['\\', 'x', HexChar(c as int / 16), HexChar(c as int % 16)]
  }

  /** Both forms of a character, in one class if they differ. */
  function HexPair(c: char): string
    requires c as int < 256
  {
    var upp, low := ToUpper(c), ToLower(c);
    if upp == low then HexCode(upp) else "[" + HexCode(upp) + HexCode(low) + "]"
  }

  /** Letters are rewritten; a NUL is dropped. */
  function Rewrite(c: char): string
  {
    if IsLetter(c) then HexPair(c) else if c == '\0' then "" else [c]
  }

  function RewriteAll(s: string): string
    decreases |s|
  {
    if s == "" then "" else RewriteAll(s[..|s| - 1]) + Rewrite(s[|s| - 1])
  }

  /** mc_search__cond_struct_new_regex_hex_add */
  method HexAdd(strTo: string, oneChar: char) returns (r: string)
    requires oneChar as int < 256
    ensures r == strTo + HexPair(oneChar)
  {
    var upp, low := ToUpper(oneChar), ToLower(oneChar);
    if upp == low {
      r := strTo + HexCode(upp);
    } else {
      r := strTo + ("[" + HexCode(upp) + HexCode(low) + "]");
    }
  }

  lemma RewriteIs(c: char)
    ensures Rewrite(c) == if IsLetter(c) then HexPair(c) else if c == '\0' then "" else [c]
  {
  }

  /** mc_search__cond_struct_new_regex_accum_append */
  method AccumAppend(strTo: string, strFrom: string) returns (r: string)
    ensures r == strTo + RewriteAll(strFrom)
  {
    hide Rewrite;
    var recoded, loop := "", 0;
    assert strFrom[..0] == "";
    while loop < |strFrom|
      invariant loop <= |strFrom| && recoded == RewriteAll(strFrom[..loop])
    {
      var oneChar := strFrom[loop];
      CutAt(strFrom, loop);
      AccumulateOne(strFrom[..loop], oneChar);
      RewriteIs(oneChar);
      if oneChar != '\0' {
        if IsLetter(oneChar) {
          recoded := HexAdd(recoded, oneChar);
        } else {
          recoded := recoded + [oneChar];
        }
      }
      loop := loop + 1;
    }
    assert strFrom[..loop] == strFrom;
    r := strTo + recoded;
  }

  /** The letters that form a special sequence with a backslash. */
  predicate IsSpecialLetter(c: char)
  {
    c in "abBcCdDeEflLnQrsStuUwWxX"
  }

  /** The first closing brace from a position on, or the end. */
  function BraceFrom(s: string, i: nat): (j: nat)
    requires i <= |s|
    ensures i <= j <= |s|
    decreases |s| - i
  {
    if i == |s| || s[i] == '}' then i else BraceFrom(s, i + 1)
  }

  /** The length of the special sequence at a position; 0 if there is none. */
  function SpecialLen(s: string, pos: nat): nat
    requires pos < |s|
  {
    if s[pos] != '\\' || pos + 1 == |s| || !IsSpecialLetter(s[pos + 1]) || EscapedAt(s, pos) then 0
    else if s[pos + 1] != 'x' then 2
    else if At(s, pos + 2) != '{' then 4
    else
      var j := BraceFrom(s, pos + 2);
      if j < |s| then j + 1 - pos else j - pos
  }

  /** Where a bracket expression ends: the next unescaped closing bracket, or the end. */
  function BracketFrom(s: string, i: nat): (j: nat)
    requires i <= |s|
    ensures i <= j <= |s|
    decreases |s| - i
  {
    if i == |s| || (s[i] == ']' && !EscapedAt(s, i)) then i else BracketFrom(s, i + 1)
  }

  /** The rewritten rest of a pattern: special sequences and bracket expressions are copied,
      every other character is rewritten on its own. */
  function CaseFree(s: string, pos: nat): string
    decreases |s| - pos
  {
    if pos >= |s| then ""
    else
      var n := SpecialLen(s, pos);
      if n > 0 then Slice(s, pos, n) + CaseFree(s, pos + n)
      else if s[pos] == '[' && !EscapedAt(s, pos) then
        var j := BracketFrom(s, pos);
        s[pos..j] + [At(s, j)] + CaseFree(s, j + 1)
      else Rewrite(s[pos]) + CaseFree(s, pos + 1)
  }

  /** A character that is no letter stays, but a NUL is dropped. */
  lemma OthersStay(s: string, pos: nat)
    requires pos < |s| && s[pos] != '\\' && s[pos] != '[' && !IsLetter(s[pos])
    ensures CaseFree(s, pos) == (if s[pos] == '\0' then "" else [s[pos]]) + CaseFree(s, pos + 1)
  {
  }

  /** Of the letters behind a backslash only these are left alone, and 'x' with its code. Every other one is
      rewritten like a letter without it, and the backslash then quotes the bracket that is put before it. */
  lemma EscapeKeptIff(s: string, pos: nat)
    requires pos + 1 < |s| && s[pos] == '\\' && !EscapedAt(s, pos) && IsLetter(s[pos + 1]) && s[pos + 1] != 'x'
    ensures var c := s[pos + 1];
            && ToUpper(c) as int < 256 && ToLower(c) as int < 256
            && CaseFree(s, pos) ==
               (if c in "abBcCdDeEflLnQrsStuUwWX" then ['\\', c]
                else "\\[" + HexCode(ToUpper(c)) + HexCode(ToLower(c)) + "]") + CaseFree(s, pos + 2)
  {
    hide EscapedAt, CaseFree, HexCode, ToUpper, ToLower, IsLetter, SpecialLen, Rewrite, BracketFrom, HexPair;
    var c, rest := s[pos + 1], CaseFree(s, pos + 2);
    SpecialLenOf(s, pos);
    LetterText(c);
    CaseFreeStep(s, pos);
    if c in "abBcCdDeEflLnQrsStuUwWX" {
      assert Slice(s, pos, 2) == ['\\', c];
    } else {
      CaseFreeStep(s, pos + 1);
      Requote(HexCode(ToUpper(c)), HexCode(ToLower(c)), rest);
    }
  }

  lemma Requote(x: string, y: string, rest: string)
    ensures "\\" + (("[" + x + y + "]") + rest) == ("\\[" + x + y + "]") + rest
  {
    assert "\\" + ("[" + x + y + "]") == "\\[" + x + y + "]";
  }

  lemma SpecialLenOf(s: string, pos: nat)
    requires pos + 1 < |s| && s[pos] == '\\' && !EscapedAt(s, pos) && s[pos + 1] != 'x' && IsLetter(s[pos + 1])
    ensures SpecialLen(s, pos) == if s[pos + 1] in "abBcCdDeEflLnQrsStuUwWX" then 2 else 0
    ensures SpecialLen(s, pos + 1) == 0 && Rewrite('\\') == "\\" && s[pos + 1] != '['
    ensures Rewrite(s[pos + 1]) == HexPair(s[pos + 1])
  {
  }

  /** A code in braces is left alone up to its closing brace; without one it is the whole rest. */
  lemma BraceCodeKept(s: string, pos: nat, j: nat)
    requires pos + 2 < j <= |s| && s[pos] == '\\' && s[pos + 1] == 'x' && s[pos + 2] == '{' && !EscapedAt(s, pos)
    requires (forall k :: pos + 2 <= k < j ==> s[k] != '}') && (j < |s| ==> s[j] == '}')
    ensures CaseFree(s, pos) == if j < |s| then s[pos..j + 1] + CaseFree(s, j + 1) else s[pos..]
  {
    hide EscapedAt, Rewrite, SpecialLen, CaseFree, BracketFrom;
    BraceCodeLen(s, pos, j);
    CaseFreeStep(s, pos);
    CaseFreeEnd(s, |s|);
  }

  lemma BraceCodeLen(s: string, pos: nat, j: nat)
    requires pos + 2 < j <= |s| && s[pos] == '\\' && s[pos + 1] == 'x' && s[pos + 2] == '{' && !EscapedAt(s, pos)
    requires (forall k :: pos + 2 <= k < j ==> s[k] != '}') && (j < |s| ==> s[j] == '}')
    ensures SpecialLen(s, pos) == if j < |s| then j + 1 - pos else j - pos
  {
    hide EscapedAt, BraceFrom;
    BraceFromIs(s, pos + 2, j);
  }

  lemma {:induction false} BraceFromIs(s: string, i: nat, j: nat)
    requires i <= j <= |s| && (forall k :: i <= k < j ==> s[k] != '}') && (j < |s| ==> s[j] == '}')
    ensures BraceFrom(s, i) == j
    decreases j - i
  {
    if i < j {
      BraceFromIs(s, i + 1, j);
    }
  }

  /** A code of two digits is left alone. */
  lemma CodeKept(s: string, pos: nat)
    requires pos + 4 <= |s| && s[pos] == '\\' && s[pos + 1] == 'x' && s[pos + 2] != '{' && !EscapedAt(s, pos)
    ensures CaseFree(s, pos) == s[pos..pos + 4] + CaseFree(s, pos + 4)
  {
  }

  /** A bracket expression is left alone up to the first closing bracket that is not escaped. */
  lemma BracketKept(s: string, pos: nat, j: nat)
    requires pos < j < |s| && s[pos] == '[' && !EscapedAt(s, pos) && s[j] == ']' && !EscapedAt(s, j)
    requires forall k :: pos <= k < j && s[k] == ']' ==> EscapedAt(s, k)
    ensures CaseFree(s, pos) == s[pos..j + 1] + CaseFree(s, j + 1)
  {
    hide EscapedAt, Rewrite, BracketFrom, CaseFree, Slice, SpecialLen;
    BracketFromIs(s, pos, j);
    NoSpecialBracket(s, pos);
    CaseFreeStep(s, pos);
    assert s[pos..j] + [s[j]] == s[pos..j + 1];
  }

  lemma NoSpecialBracket(s: string, pos: nat)
    requires pos < |s| && s[pos] == '['
    ensures SpecialLen(s, pos) == 0
  {
  }

  lemma {:induction false} BracketFromIs(s: string, i: nat, j: nat)
    requires i <= j < |s| && s[j] == ']' && !EscapedAt(s, j)
    requires forall k :: i <= k < j && s[k] == ']' ==> EscapedAt(s, k)
    ensures BracketFrom(s, i) == j
    decreases j - i
  {
    hide EscapedAt;
    if i < j {
      BracketFromIs(s, i + 1, j);
    }
  }

  /** mc_search__regex_str_append_if_special: n is 0 when there is no special sequence. */
  method AppendIfSpecial(s: string, offset: nat) returns (n: nat, special: string)
    requires offset < |s|
    ensures n == SpecialLen(s, offset) && special == if n == 0 then "" else Slice(s, offset, n)
  {
    n, special := 0, "";
    if s[offset] != '\\' || offset + 1 == |s| || !IsSpecialLetter(s[offset + 1]) {
      return;
    }
    var escaped := IsCharEscaped(s, offset);
    if escaped {
      return;
    }
    n := 2;
    if s[offset + 1] == 'x' {
      if At(s, offset + 2) != '{' {
        n := n + 2;
      } else {
        while n < |s| - offset && s[offset + n] != '}'
          invariant 2 <= n && offset + n <= |s|
          invariant BraceFrom(s, offset + n) == BraceFrom(s, offset + 2)
        {
          n := n + 1;
        }
        if At(s, offset + n) == '}' {
          n := n + 1;
        }
      }
    }
    special := Slice(s, offset, n);
  }

  /** mc_search__cond_struct_new_regex_ci_str: the accumulator holds the characters that have
      not been rewritten yet. */
  method CaseInsensitive(s: string) returns (ret: string)
    ensures ret == CaseFree(s, 0)
  {
    hide Rewrite, SpecialLen, EscapedAt, Slice, CaseFree, RewriteAll, BracketFrom, At;
    var accumulator, loop: nat := "", 0;
    Unit("");
    ret := "";
    while loop < |s|
      invariant ret + RewriteAll(accumulator) + CaseFree(s, loop) == CaseFree(s, 0)
      decreases |s| - loop
    {
      CaseFreeStep(s, loop);
      var n, special := AppendIfSpecial(s, loop);
      if n > 0 {
        ret := AccumAppend(ret, accumulator);
        accumulator := "";
        Assoc(ret, special, CaseFree(s, loop + n));
        ret := ret + special;
        loop := loop + n;
        Unit(ret);
        continue;
      }
      var escaped := IsCharEscaped(s, loop);
      if s[loop] == '[' && !escaped {
        ret := AccumAppend(ret, accumulator);
        accumulator := "";
        ghost var was := ret;
        var j, copied := CopyBracket(s, loop);
        Assoc(was, copied, CaseFree(s, j + 1));
        ret := ret + copied;
        loop := j + 1;
        Unit(ret);
        continue;
      }
      ghost var front := RewriteAll(accumulator);
      AccumulateOne(accumulator, s[loop]);
      Assoc(ret, front + Rewrite(s[loop]), CaseFree(s, loop + 1));
      Assoc(front, Rewrite(s[loop]), CaseFree(s, loop + 1));
      Assoc(ret, front, Rewrite(s[loop]) + CaseFree(s, loop + 1));
      accumulator := accumulator + [s[loop]];
      loop := loop + 1;
    }
    CaseFreeEnd(s, loop);
    assert ret + RewriteAll(accumulator) + "" == ret + RewriteAll(accumulator);
    ret := AccumAppend(ret, accumulator);
  }

  lemma CaseFreeStep(s: string, pos: nat)
    requires pos < |s|
    ensures CaseFree(s, pos) ==
            var n := SpecialLen(s, pos);
            if n > 0 then Slice(s, pos, n) + CaseFree(s, pos + n)
            else if s[pos] == '[' && !EscapedAt(s, pos) then
              var j := BracketFrom(s, pos);
              s[pos..j] + [At(s, j)] + CaseFree(s, j + 1)
            else Rewrite(s[pos]) + CaseFree(s, pos + 1)
  {
    hide Rewrite, SpecialLen, EscapedAt, Slice, BracketFrom, At;
  }

  lemma CaseFreeEnd(s: string, pos: nat)
    requires pos >= |s|
    ensures CaseFree(s, pos) == ""
  {
  }

  /** A bracket expression is copied up to its closing bracket; without one, the terminator of
      the string is copied too. */
  method CopyBracket(s: string, start: nat) returns (j: nat, copied: string)
    requires start < |s|
    ensures j == BracketFrom(s, start) && copied == s[start..j] + [At(s, j)]
  {
    j, copied := start, "";
    while true
      invariant start <= j <= |s| && copied == s[start..j] && BracketFrom(s, j) == BracketFrom(s, start)
      decreases |s| - j
    {
      if j == |s| {
        break;
      }
      var escaped := IsCharEscaped(s, j);
      if s[j] == ']' && !escaped {
        break;
      }
      assert s[start..j + 1] == s[start..j] + [s[j]];
      copied := copied + [s[j]];
      j := j + 1;
    }
    copied := copied + [At(s, j)];
  }

  lemma Unit(x: string)
    ensures x + RewriteAll("") == x
  {
  }

  lemma AccumulateOne(t: string, c: char)
    ensures RewriteAll(t + [c]) == RewriteAll(t) + Rewrite(c)
  {
    assert (t + [c])[..|t|] == t;
  }

  // ---------------------------------------------------------------- what the result accepts

  predicate IsAscii(s: string)
  {
    forall i :: 0 <= i < |s| ==> 0 < s[i] as int < 128
  }

  function PieceText(c: char): string
  {
    if IsSpecial(c) then ['\\', c] else Rewrite(c)
  }

  ghost function PieceRe(c: char): Re
  {
    if IsLetter(c) then Set({ToUpper(c), ToLower(c)}) else Chr(c)
  }

  function Texts(s: string): seq<string>
  {
    seq(|s|, i requires 0 <= i < |s| => PieceText(s[i]))
  }

  ghost function Res(s: string): seq<Re>
  {
    seq(|s|, i requires 0 <= i < |s| => PieceRe(s[i]))
  }

  lemma {:induction false} EscapedClosed(s: string)
    ensures Closed(Escaped(s))
    decreases |s|
  {
    hide Trailing;
    if s == "" {
      EmptyClosed();
    } else {
      var front, c := Escaped(s[..|s| - 1]), s[|s| - 1];
      EscapedClosed(s[..|s| - 1]);
      if IsSpecial(c) {
        ClosedPair(front, c);
      } else {
        TrailingNone(front, [c]);
      }
    }
  }

  lemma EmptyClosed()
    ensures Closed("")
  {
  }

  lemma {:induction false} EscapedConcat(s: string, t: string)
    ensures Escaped(s + t) == Escaped(s) + Escaped(t)
    decreases |t|
  {
    if t == "" {
      assert s + t == s;
    } else {
      var n := |t| - 1;
      assert (s + t)[..|s| + n] == s + t[..n];
      EscapedConcat(s, t[..n]);
      Assoc(Escaped(s), Escaped(t[..n]), EscapeChar(t[n]));
    }
  }

  lemma EscapedOne(c: char)
    ensures Escaped([c]) == EscapeChar(c)
  {
    assert [c][..0] == "";
    assert "" + EscapeChar(c) == EscapeChar(c);
  }

  /** The escaped text cut at a character of the original. */
  lemma EscapedAtChar(s: string, k: nat)
    requires k < |s|
    ensures Escaped(s) == Escaped(s[..k]) + (EscapeChar(s[k]) + Escaped(s[k + 1..]))
    ensures Escaped(s[..k + 1]) == Escaped(s[..k]) + EscapeChar(s[k])
  {
    hide EscapeChar, Escaped;
    CutAt(s, k);
    EscapedConcat(s[..k], [s[k]] + s[k + 1..]);
    EscapedConcat([s[k]], s[k + 1..]);
    EscapedOne(s[k]);
    EscapedSnoc(s[..k], s[k]);
  }

  /** An escaped pair is never taken for a special sequence, nor its second character for the
      start of anything. */
  lemma PairIsPlain(before: string, c: char, after: string)
    requires Closed(before) && IsSpecial(c)
    ensures var t := before + (['\\', c] + after);
            CaseFree(t, |before|) == ['\\', c] + CaseFree(t, |before| + 2)
  {
    hide CaseFree, SpecialLen, EscapedAt, Closed, Rewrite;
    var t := before + (['\\', c] + after);
    var pos := |before|;
    PairIsUnmarked(before, c, after);
    CaseFreePlain(t, pos);
    CaseFreePlain(t, pos + 1);
    Assoc("\\", [c], CaseFree(t, pos + 2));
  }

  lemma CaseFreePlain(t: string, pos: nat)
    requires pos < |t| && SpecialLen(t, pos) == 0 && !(t[pos] == '[' && !EscapedAt(t, pos))
    ensures CaseFree(t, pos) == Rewrite(t[pos]) + CaseFree(t, pos + 1)
  {
  }

  lemma PairIsUnmarked(before: string, c: char, after: string)
    requires Closed(before) && IsSpecial(c)
    ensures var t, pos := before + (['\\', c] + after), |before|;
            t[pos] == '\\' && t[pos + 1] == c && SpecialLen(t, pos) == 0
            && SpecialLen(t, pos + 1) == 0 && EscapedAt(t, pos + 1)
    ensures Rewrite('\\') == "\\" && Rewrite(c) == [c]
  {
    SpecialIsPunctuation(c);
    hide Trailing, SpecialLen, IsSpecial, IsSpecialLetter;
    var t, pos := before + (['\\', c] + after), |before|;
    assert t[pos] == '\\' && t[pos + 1] == c;
    ClosedPair(before, c);
    assert t[..pos + 1] == before + ['\\'];
    NotSpecial(t, pos);
    NotSpecial(t, pos + 1);
  }

  lemma SpecialIsPunctuation(c: char)
    requires IsSpecial(c)
    ensures !IsSpecialLetter(c) && !IsLetter(c) && c != '\0'
  {
  }

  lemma NotSpecial(t: string, pos: nat)
    requires pos < |t|
    requires EscapedAt(t, pos) || (pos + 1 < |t| && !IsSpecialLetter(t[pos + 1]))
    ensures SpecialLen(t, pos) == 0
  {
    hide EscapedAt;
  }

  lemma PlainIsRewritten(before: string, c: char, after: string)
    requires !IsSpecial(c)
    ensures var t := before + ([c] + after); CaseFree(t, |before|) == Rewrite(c) + CaseFree(t, |before| + 1)
  {
    hide EscapedAt, Rewrite, SpecialLen;
    var t := before + ([c] + after);
    PlainIsUnmarked(c);
    hide IsSpecial;
    assert t[|before|] == c;
    NotBackslash(t, |before|);
  }

  lemma PlainIsUnmarked(c: char)
    requires !IsSpecial(c)
    ensures c != '\\' && c != '['
  {
  }

  lemma NotBackslash(t: string, pos: nat)
    requires pos < |t| && t[pos] != '\\'
    ensures SpecialLen(t, pos) == 0
  {
    hide EscapedAt;
  }

  lemma {:induction false} CaseFreeEscaped(s: string, k: nat)
    requires k <= |s|
    ensures CaseFree(Escaped(s), |Escaped(s[..k])|) == Concat(Texts(s[k..]))
    decreases |s| - k
  {
    hide CaseFree, Escaped, Rewrite, Trailing;
    if k == |s| {
      assert s[..k] == s && s[k..] == "";
      AtEnd(Escaped(s));
    } else {
      var c, before, after := s[k], Escaped(s[..k]), Escaped(s[k + 1..]);
      CaseFreeEscaped(s, k + 1);
      EscapedAtChar(s, k);
      EscapedClosed(s[..k]);
      if IsSpecial(c) {
        PairIsPlain(before, c, after);
      } else {
        PlainIsRewritten(before, c, after);
      }
      assert Texts(s[k..])[0] == PieceText(c);
      assert Texts(s[k..])[1..] == Texts(s[k + 1..]);
    }
  }

  lemma AtEnd(t: string)
    ensures CaseFree(t, |t|) == ""
  {
  }

  lemma HexRoundTrip(c: char)
    requires c as int < 256
    ensures HexCode(c) == ['\\', 'x', HexCode(c)[2], HexCode(c)[3]]
    ensures IsHexDigit(HexCode(c)[2]) && IsHexDigit(HexCode(c)[3])
    ensures HexDigit(HexCode(c)[2]) * 16 + HexDigit(HexCode(c)[3]) == c as int
  {
  }

  lemma ParseHexCode(c: char, rest: string)
    requires c as int < 256
    ensures var t := HexCode(c) + rest; t[0] == '\\' && ParseEscape(t[1..]) == Some((c, rest))
  {
    HexRoundTrip(c);
    hide HexCode;
    var t := HexCode(c) + rest;
    assert t[1..] == ['x', HexCode(c)[2], HexCode(c)[3]] + rest;
    assert t[1..][3..] == rest;
  }

  lemma ParsePair(x: char, y: char, rest: string)
    requires x as int < 256 && y as int < 256
    ensures ParseSet(HexCode(x) + (HexCode(y) + ("]" + rest))) == Some(({x, y}, rest))
  {
    hide HexCode, ParseEscape;
    var u := "]" + rest;
    var v := HexCode(y) + u;
    ParseHexCode(x, v);
    ParseHexCode(y, u);
    assert u[0] == ']' && u[1..] == rest;
    assert ParseSet(u) == Some(({}, rest));
    assert ParseSet(v) == Some(({y} + {}, rest));
    assert ParseSet(HexCode(x) + v) == Some(({x} + ({y} + {}), rest));
    assert {x} + ({y} + {}) == {x, y};
  }

  lemma LetterText(c: char)
    requires IsLetter(c)
    ensures var x, y := ToUpper(c), ToLower(c);
            x as int < 256 && y as int < 256 && Rewrite(c) == "[" + HexCode(x) + HexCode(y) + "]"
  {
  }

  lemma LetterPiece(c: char)
    requires IsLetter(c)
    ensures IsPiece(Rewrite(c), Set({ToUpper(c), ToLower(c)}))
  {
    var x, y := ToUpper(c), ToLower(c);
    LetterText(c);
    hide HexCode, ParseSet, Rewrite, ToUpper, ToLower;
    var t := HexCode(x) + (HexCode(y) + "]");
    forall rest: string ensures ParseSet(t + rest) == Some(({x, y}, rest)) {
      ParsePair(x, y, rest);
      assert t + rest == HexCode(x) + (HexCode(y) + ("]" + rest));
    }
    SetPiece(t, {x, y});
    assert Rewrite(c) == "[" + t;
  }

  lemma PieceOf(c: char)
    requires 0 < c as int < 128
    ensures IsPiece(PieceText(c), PieceRe(c))
  {
    hide IsPiece;
    if IsSpecial(c) {
      EscapedPiece(c);
    } else if IsLetter(c) {
      LetterPiece(c);
    } else {
      PlainPiece(c);
    }
  }

  /** Two texts that differ at most in the case of their letters. */
  predicate SameIgnoringCase(s: string, w: string)
  {
    |s| == |w| && forall i :: 0 <= i < |s| ==> ToLower(s[i]) == ToLower(w[i])
  }

  lemma PieceMeaning(c: char, w: string)
    ensures Matches(PieceRe(c), w) <==> |w| == 1 && ToLower(w[0]) == ToLower(c)
  {
  }

  lemma {:induction false} PiecesMeaning(s: string, w: string)
    ensures MatchesAll(Res(s), w) <==> SameIgnoringCase(s, w)
    decreases |s|
  {
    hide Matches, PieceRe, ToLower;
    if s == "" {
    } else {
      var rest := Res(s)[1..];
      assert rest == Res(s[1..]);
      forall k | 0 <= k <= |w|
        ensures Matches(Res(s)[0], w[..k]) && MatchesAll(rest, w[k..])
                <==> k == 1 && ToLower(w[0]) == ToLower(s[0]) && SameIgnoringCase(s[1..], w[1..])
      {
        PieceMeaning(s[0], w[..k]);
        PiecesMeaning(s[1..], w[k..]);
      }
      SameSplit(s, w);
      if |w| >= 1 && ToLower(w[0]) == ToLower(s[0]) && SameIgnoringCase(s[1..], w[1..]) {
        assert 0 <= 1 <= |w| && Matches(Res(s)[0], w[..1]) && MatchesAll(rest, w[1..]);
      }
    }
  }

  lemma SameSplit(s: string, w: string)
    requires s != ""
    ensures SameIgnoringCase(s, w)
            <==> |w| >= 1 && ToLower(w[0]) == ToLower(s[0]) && SameIgnoringCase(s[1..], w[1..])
  {
    hide ToLower;
    if |w| >= 1 && ToLower(w[0]) == ToLower(s[0]) && SameIgnoringCase(s[1..], w[1..]) {
      forall i | 0 <= i < |s| ensures ToLower(s[i]) == ToLower(w[i]) {
        if i > 0 {
          assert s[i] == s[1..][i - 1] && w[i] == w[1..][i - 1];
        }
      }
    }
  }

  /** The regular expression made for a text accepts exactly the texts equal to it up to case. */
  lemma PlainSearchIsExact(s: string, w: string)
    requires IsAscii(s)
    ensures Accepts(CaseFree(Escaped(s), 0), w) <==> SameIgnoringCase(s, w)
  {
    hide CaseFree, Escaped, ParseCat, Matches, PieceText, PieceRe;
    var t := Concat(Texts(s));
    EmptyEscaped();
    assert s[..0] == "" && s[0..] == s;
    CaseFreeEscaped(s, 0);
    forall i | 0 <= i < |s| ensures IsPiece(Texts(s)[i], Res(s)[i]) {
      PieceOf(s[i]);
    }
    ParsePieces(Texts(s), Res(s), "");
    assert t + "" == t;
    assert Denotes(t, CatAll(Res(s)));
    CatAllMatches(Res(s), w);
    PiecesMeaning(s, w);
  }
}
