/** Classes of characters, with their ASCII meaning. */
module Characters {
  import opened Decimal

  predicate IsLetter(c: char)
  {
    'A' <= c <= 'Z' || 'a' <= c <= 'z'
  }

  predicate IsAlnum(c: char)
  {
    IsDigit(c) || IsLetter(c)
  }

  predicate IsHexDigit(c: char)
  {
    IsDigit(c) || 'a' <= c <= 'f' || 'A' <= c <= 'F'
  }

  function HexDigit(c: char): nat
    requires IsHexDigit(c)
  {
    if IsDigit(c) then c as int - '0' as int
    else if 'a' <= c <= 'f' then c as int - 'a' as int + 10
    else c as int - 'A' as int + 10
  }

  /** The values of the hexadecimal digits, in order. */
  lemma HexDigits(i: nat)
    requires i < 16
    ensures IsHexDigit("0123456789abcdef"[i]) && HexDigit("0123456789abcdef"[i]) == i
    ensures IsHexDigit("0123456789ABCDEF"[i]) && HexDigit("0123456789ABCDEF"[i]) == i
  {
  }

  lemma OnlyHexDigits(c: char)
    ensures IsHexDigit(c) ==> c == "0123456789abcdef"[HexDigit(c)] || c == "0123456789ABCDEF"[HexDigit(c)]
  {
  }

  function ToUpper(c: char): char
  {
    if 'a' <= c <= 'z' then (c as int - 32) as char else c
  }

  function ToLower(c: char): char
  {
    if 'A' <= c <= 'Z' then (c as int + 32) as char else c
  }

  const LOWER := "abcdefghijklmnopqrstuvwxyz"
  const UPPER := "ABCDEFGHIJKLMNOPQRSTUVWXYZ"

  /** The letters in both cases. */
  lemma Cases(i: nat)
    requires i < 26
    ensures ToUpper(LOWER[i]) == UPPER[i] == ToUpper(UPPER[i])
    ensures ToLower(UPPER[i]) == LOWER[i] == ToLower(LOWER[i])
  {
  }

  /** No other character has two cases. */
  lemma OnlyLetters(c: char)
    ensures IsLetter(c) <==> c in LOWER || c in UPPER
    ensures !IsLetter(c) ==> ToUpper(c) == c == ToLower(c)
  {
    if 'a' <= c <= 'z' {
      assert c == LOWER[c as int - 97];
    } else if 'A' <= c <= 'Z' {
      assert c == UPPER[c as int - 65];
    } else {
      assert forall i :: 0 <= i < 26 ==> LOWER[i] != c && UPPER[i] != c;
    }
  }
}
