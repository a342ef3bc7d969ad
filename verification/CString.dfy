/**
 NUL-terminated strings in a character buffer, and the in-place edits made on them.
 A pointer into the string is an offset from its first character, and the string
 itself starts at a fixed base in the buffer.
 */
module CString {

  const NUL: char := '\0'

  /** The string stored at base in the buffer is t. */
  ghost predicate Holds(a: array<char>, base: nat, t: string)
    reads a
    ensures Holds(a, base, t) ==> base + |t| < a.Length && NUL !in t
  {
    && base + |t| < a.Length
    && a[base..base + |t|] == t
    && a[base + |t|] == NUL
    && NUL !in t
  }

  /** The text up to the first NUL. */
  function Text(b: seq<char>): (t: string)
    ensures |t| <= |b| && t == b[..|t|] && NUL !in t
    ensures |t| < |b| ==> b[|t|] == NUL
    ensures NUL in b ==> |t| < |b|
  {
    if b == [] || b[0] == NUL then []
    else
      [b[0]] + Text(b[1..])
  }

  lemma {:induction false} TextIs(b: seq<char>, t: string)
    requires |t| < |b| && b[..|t|] == t && b[|t|] == NUL && NUL !in t
    ensures Text(b) == t
  {
    if t != [] {
      assert b[0] == t[0] && t[0] in t;
      assert b[1..][..|t| - 1] == t[1..];
      TextIs(b[1..], t[1..]);
    }
  }

  lemma HoldsText(a: array<char>, base: nat, t: string)
    requires Holds(a, base, t)
    ensures Text(a[base..]) == t
  {
    assert a[base..][..|t|] == t;
    TextIs(a[base..], t);
  }

  /** Every character before the terminator is readable, and only the terminator is NUL. */
  lemma HoldsAt(a: array<char>, base: nat, t: string, i: nat)
    requires Holds(a, base, t) && i <= |t|
    ensures a[base + i] == if i < |t| then t[i] else NUL
    ensures a[base + i] == NUL <==> i == |t|
  {
    if i < |t| {
      assert a[base..base + |t|][i] == t[i];
      assert t[i] in t;
    }
  }

  lemma HoldsAll(a: array<char>, base: nat, t: string)
    requires Holds(a, base, t)
    ensures forall i :: base <= i <= base + |t| ==> a[i] == if i < base + |t| then t[i - base] else NUL
    ensures forall i :: 0 <= i < |t| ==> t[i] != NUL
  {
    forall i | base <= i <= base + |t| ensures a[i] == if i < base + |t| then t[i - base] else NUL {
      HoldsAt(a, base, t, i - base);
    }
    forall i | 0 <= i < |t| ensures t[i] != NUL {
      assert t[i] in t;
    }
  }

  /** The character a pointer at offset i reads: the terminator at the end. */
  function Peek(a: array<char>, base: nat, i: nat, ghost t: string): (c: char)
    requires Holds(a, base, t) && i <= |t|
    reads a
    ensures i < |t| ==> c == t[i]
    ensures c == NUL <==> i == |t|
  {
    HoldsAt(a, base, t, i);
    a[base + i]
  }

  method StrLen(a: array<char>, from: nat, ghost base: nat, ghost t: string) returns (n: nat)
    requires Holds(a, base, t) && base <= from <= base + |t|
    ensures n == base + |t| - from
  {
    HoldsAll(a, base, t);
    n := 0;
    while a[from + n] != NUL
      invariant from + n <= base + |t|
      decreases base + |t| - n
    {
      n := n + 1;
    }
  }

  lemma HoldsFrom(a: array<char>, base: nat, t: string)
    requires base + |t| < a.Length && a[base + |t|] == NUL && NUL !in t
    requires forall k :: base <= k < base + |t| ==> a[k] == t[k - base]
    ensures Holds(a, base, t)
  {
    assert a[base..base + |t|] == t;
  }

  /** The string keeps its head up to dest and its tail from src on. */
  method StrMove(a: array<char>, base: nat, dest: nat, src: nat, ghost t: string)
    requires Holds(a, base, t) && dest <= src <= |t|
    modifies a
    ensures Holds(a, base, t[..dest] + t[src..])
    ensures a[..base] == old(a[..base])
    ensures forall i :: base + |t| < i < a.Length ==> a[i] == old(a[i])
  {
    hide Holds;
    HoldsAll(a, base, t);
    var n := StrLen(a, base + src, base, t);
    ghost var was := t + [NUL];
    ghost var goal := t[..dest] + was[src..];
    for i := 0 to n + 1
      invariant a[..base] == old(a[..base])
      invariant forall k :: base <= k < base + dest + i ==> a[k] == goal[k - base]
      invariant forall k :: base + src + i <= k <= base + |t| ==> a[k] == was[k - base]
      invariant forall k :: base + |t| < k < a.Length ==> a[k] == old(a[k])
    {
      a[base + dest + i] := a[base + src + i];
    }
    ghost var u := t[..dest] + t[src..];
    assert goal == u + [NUL];
    assert forall c :: c in u ==> c in t;
    HoldsFrom(a, base, u);
  }

  /** Writing a terminator cuts the string. */
  method Cut(a: array<char>, base: nat, at: nat, ghost t: string)
    requires Holds(a, base, t) && at <= |t|
    modifies a
    ensures Holds(a, base, t[..at])
    ensures a[..base] == old(a[..base])
    ensures forall i :: base + |t| < i < a.Length ==> a[i] == old(a[i])
  {
    HoldsAll(a, base, t);
    a[base + at] := NUL;
    assert a[base..base + at] == t[..at];
    assert forall c :: c in t[..at] ==> c in t;
  }

  /** Overwriting one character by another. */
  method Put(a: array<char>, base: nat, at: nat, c: char, ghost t: string)
    requires Holds(a, base, t) && at < |t| && c != NUL
    modifies a
    ensures Holds(a, base, t[at := c])
    ensures a[..base] == old(a[..base])
    ensures forall i :: base + |t| < i < a.Length ==> a[i] == old(a[i])
  {
    HoldsAll(a, base, t);
    a[base + at] := c;
    assert a[base..base + |t|] == t[at := c];
    assert forall d :: d in t[at := c] ==> d in t || d == c;
  }
}
