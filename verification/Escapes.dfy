/**
 str_is_char_escaped: a character is escaped when an odd number of backslashes directly
 precede it. The pattern and replacement code asks this at every position it looks at.
 */
module Escapes {

  const BACKSLASH: char := '\\'

  /** The number of backslashes a text ends with. */
  function Trailing(t: string): (n: nat)
    ensures n <= |t|
    decreases |t|
  {
    if t != "" && t[|t| - 1] == BACKSLASH then 1 + Trailing(t[..|t| - 1]) else 0
  }

  predicate EscapedAt(s: string, pos: nat)
    requires pos <= |s|
  {
    Trailing(s[..pos]) % 2 == 1
  }

  /** A text that escapes nothing that follows it. */
  predicate Closed(t: string)
  {
    Trailing(t) % 2 == 0
  }

  method IsCharEscaped(s: string, pos: nat) returns (b: bool)
    requires pos <= |s|
    ensures b == EscapedAt(s, pos)
  {
    var n, p := 0, pos;
    assert s[..pos][..p] == s[..p];
    while p > 0 && s[p - 1] == BACKSLASH
      invariant p <= pos && n + Trailing(s[..p]) == Trailing(s[..pos])
    {
      assert s[..p][..p - 1] == s[..p - 1];
      n := n + 1;
      p := p - 1;
    }
    b := n % 2 == 1;
  }

  lemma TrailingNone(t: string, u: string)
    requires u != "" && u[|u| - 1] != BACKSLASH
    ensures Trailing(t + u) == 0
  {
    assert (t + u)[|t + u| - 1] == u[|u| - 1];
  }

  lemma TrailingOne(t: string)
    ensures Trailing(t + [BACKSLASH]) == Trailing(t) + 1
  {
    assert (t + [BACKSLASH])[..|t|] == t;
  }

  lemma ClosedPair(t: string, c: char)
    requires Closed(t)
    ensures Closed(t + [BACKSLASH, c])
    ensures Trailing(t + [BACKSLASH]) % 2 == 1
  {
    hide Trailing;
    TrailingOne(t);
    if c == BACKSLASH {
      TrailingOne(t + [BACKSLASH]);
      assert t + [BACKSLASH, c] == t + [BACKSLASH] + [BACKSLASH];
    } else {
      TrailingNone(t, [BACKSLASH, c]);
    }
  }

  // ---------------------------------------------------------------- looking ahead in a C string

  /** A character of a C string: the terminator at its end. */
  function At(s: string, i: nat): char
  {
    if i < |s| then s[i] else '\0'
  }

  /** What memory holds from a position on, as far as the string goes. */
  function Slice(s: string, from: nat, len: nat): string
  {
    if from >= |s| then "" else if from + len >= |s| then s[from..] else s[from..from + len]
  }
}
