/**
 canonicalize_pathname_custom (lib/utilunix.c): the passes, in place on the buffer.
 Pointers into the local part of the path are offsets from lpath, which sits at base.
 The ghost parameter t is the string the buffer holds there.
 */
module Canonicalize {
  import opened PathAlgebra
  import opened CString
  import opened CanonicalPath

  /** strncmp of the string at offset at with a literal. */
  method Matches(a: array<char>, base: nat, at: nat, lit: string, ghost t: string) returns (b: bool)
    requires Holds(a, base, t) && at <= |t| && NUL !in lit
    ensures b <==> HasAt(t, at, lit)
  {
    hide Holds, Peek, Comps;
    var i := 0;
    while i < |lit|
      invariant i <= |lit| && at + i <= |t|
      invariant forall k :: at <= k < at + i ==> t[k] == lit[k - at]
    {
      assert lit[i] in lit;
      if Peek(a, base, at + i, t) != lit[i] {
        NotAt(t, at, lit, i);
        return false;
      }
      i := i + 1;
    }
    assert t[at..at + |lit|] == lit;
    return true;
  }

  lemma NotAt(t: string, at: nat, lit: string, i: nat)
    requires at + i <= |t| && i < |lit| && (at + i < |t| ==> t[at + i] != lit[i])
    ensures !HasAt(t, at, lit)
  {
    if at + |lit| <= |t| {
      assert t[at..at + |lit|][i] == t[at + i];
    }
  }

  /** A doubled slash that does not follow a colon. */
  predicate StrayDoubleAt(t: string, i: int)
  {
    DoubleAt(t, i) && (i == 0 || t[i - 1] != ':')
  }

  ghost predicate NoStrayDouble(t: string)
  {
    forall i :: !StrayDoubleAt(t, i)
  }

  /** The number of URL delimiters. */
  ghost function Urls(t: string): nat
  {
    if t == "" then 0 else (if UrlAt(t, 0) then 1 else 0) + Urls(t[1..])
  }

  /** The ends of a text, by which texts with the same components differ. */
  ghost predicate SameEnds(t: string, u: string)
  {
    && (StartsDotSlash(t) <==> StartsDotSlash(u))
    && (EndsSlash(t) <==> EndsSlash(u))
    && (EndsSlashDot(t) <==> EndsSlashDot(u))
  }

  predicate EndsSlash(t: string)
  {
    t != "" && t[|t| - 1] == '/'
  }

  predicate EndsSlashDot(t: string)
  {
    |t| >= 2 && t[|t| - 1] == '.' && t[|t| - 2] == '/'
  }

  lemma {:induction false} UrlsJoin(t: string, p: nat, s: nat)
    requires p + 1 < s <= |t| && (forall i :: p <= i < s ==> t[i] == '/') && (p == 0 || t[p - 1] != ':')
    ensures Urls(t[..p + 1] + t[s..]) == Urls(t)
    decreases |t|
  {
    var u, w := t[..p + 1] + t[s..], t[1..];
    if p > 0 {
      UrlsJoin(w, p - 1, s - 1);
      assert u[1..] == w[..p] + w[s - 1..];
      assert UrlAt(u, 0) <==> UrlAt(t, 0);
    } else if s > 2 {
      UrlsJoin(w, 0, s - 1);
      assert u == w[..1] + w[s - 1..];
    } else {
      assert u == w;
    }
  }

  lemma {:induction false} UrlsDot(t: string, p: nat)
    requires DotMidAt(t, p) && !DoubleAt(t, p + 2)
    ensures Urls(t[..p] + t[p + 2..]) == Urls(t)
    decreases |t|
  {
    var u, w := t[..p] + t[p + 2..], t[1..];
    if p > 0 {
      UrlsDot(w, p - 1);
      assert u[1..] == w[..p - 1] + w[p + 1..];
      assert UrlAt(u, 0) <==> UrlAt(t, 0);
    } else {
      assert u == w[1..];
    }
  }

  lemma {:induction false} UrlsCut(t: string)
    requires t != ""
    ensures Urls(t) == Urls(t[..|t| - 1]) + if UrlAt(t, |t| - 3) then 1 else 0
    decreases |t|
  {
    if |t| > 1 {
      UrlsCut(t[1..]);
      assert t[1..][..|t| - 2] == t[..|t| - 1][1..];
    }
  }

  /** What joining slashes keeps of every text. */
  ghost predicate SameJoined(t: string, u: string)
  {
    Comps(u) == Comps(t) && IsAbs(u) == IsAbs(t) && Urls(u) == Urls(t) && SameEnds(u, t)
  }

  lemma EndsSame(t: string)
    ensures SameEnds(t, t)
  {
  }

  lemma EndsTrans(t: string, u: string, w: string)
    requires SameEnds(t, u) && SameEnds(u, w)
    ensures SameEnds(t, w)
  {
  }

  lemma JoinEnds(t: string, p: nat, s: nat)
    requires p + 1 < s <= |t| && forall i :: p <= i < s ==> t[i] == '/'
    ensures var u := t[..p + 1] + t[s..]; SameEnds(u, t) && IsAbs(u) == IsAbs(t)
  {
  }

  lemma DotEnds(t: string, p: nat)
    requires DotMidAt(t, p)
    ensures var u := t[..p] + t[p + 2..]; SameEnds(u, t) && IsAbs(u) == IsAbs(t)
  {
  }

  /** Where the pass stands: t[..p] is joined, t[p..] is what is left of t0 from k on. */
  ghost predicate Joining(t0: string, t: string, p: nat, k: nat)
  {
    && p <= |t| <= |t0| && k <= |t0| && t[p..] == t0[k..] && (t0 != "" ==> t != "")
    && (p > 0 ==> k > 0 && (t[p - 1] == ':' ==> t0[k - 1] == ':'))
    && SameJoined(t0, t)
    && (forall i :: i < p ==> !StrayDoubleAt(t, i))
    && (NoUrl(t0) ==> forall i :: i < p ==> !DoubleAt(t, i))
  }

  lemma JoiningStart(t0: string)
    ensures Joining(t0, t0, 0, 0)
  {
    hide Comps, Urls, SameEnds;
    EndsSame(t0);
  }

  lemma JoiningCollapse(t0: string, t: string, p: nat, k: nat, s: nat)
    requires Joining(t0, t, p, k)
    requires p + 1 < s <= |t| && (forall i :: p <= i < s ==> t[i] == '/') && (s < |t| ==> t[s] != '/')
    requires p == 0 || t[p - 1] != ':'
    ensures Joining(t0, t[..p + 1] + t[s..], p + 1, k + (s - p))
  {
    hide Comps, Urls, SameEnds;
    var u := t[..p + 1] + t[s..];
    JoinKeeps(t, p, s);
    JoinEnds(t, p, s);
    UrlsJoin(t, p, s);
    EndsTrans(u, t, t0);
    SuffixSkip(t, p, t0, k, s - p);
    assert u[p + 1..] == t[s..];
    DoubleAfterJoin(t, p, s);
  }

  lemma JoiningSkip(t0: string, t: string, p: nat, k: nat)
    requires Joining(t0, t, p, k) && p < |t|
    requires DoubleAt(t, p) ==> p > 0 && t[p - 1] == ':'
    ensures Joining(t0, t, p + 1, k + 1)
  {
    SuffixChars(t, p, t0, k);
    SuffixSkip(t, p, t0, k, 1);
    if NoUrl(t0) {
      assert !UrlAt(t0, k - 1);
      assert !DoubleAt(t, p);
    }
  }

  /** Repeated slashes become one, except after a colon. */
  method CollapseSlashes(a: array<char>, base: nat, ghost t0: string) returns (ghost t: string)
    requires Holds(a, base, t0)
    modifies a
    ensures Holds(a, base, t) && |t| <= |t0| && a[..base] == old(a[..base])
    ensures forall i :: base + |t0| < i < a.Length ==> a[i] == old(a[i])
    ensures t0 != "" ==> t != ""
    ensures SameJoined(t0, t) && NoStrayDouble(t)
    ensures NoUrl(t0) ==> NoDouble(t)
  {
    hide Holds, Peek, Comps, SameJoined;
    JoiningStart(t0);
    t := t0;
    ghost var k: nat := 0;
    var p := 0;
    while Peek(a, base, p, t) != NUL
      invariant Holds(a, base, t) && a[..base] == old(a[..base])
      invariant Joining(t0, t, p, k)
      invariant forall i :: base + |t0| < i < a.Length ==> a[i] == old(a[i])
      decreases |t| - p
    {
      if Peek(a, base, p, t) == '/' && Peek(a, base, p + 1, t) == '/'
         && (p == 0 || Peek(a, base, p - 1, t) != ':')
      {
        var s := SkipSlashes(a, base, p, t);
        StrMove(a, base, p + 1, s, t);
        JoiningCollapse(t0, t, p, k, s);
        t := t[..p + 1] + t[s..];
        k := k + (s - p);
      } else {
        JoiningSkip(t0, t, p, k);
        k := k + 1;
      }
      p := p + 1;
    }
    forall i ensures !StrayDoubleAt(t, i) && (NoUrl(t0) ==> !DoubleAt(t, i)) {}
  }

  /** The slashes that follow the one at p. */
  method SkipSlashes(a: array<char>, base: nat, p: nat, ghost t: string) returns (s: nat)
    requires Holds(a, base, t) && p + 1 < |t| && t[p] == '/' && t[p + 1] == '/'
    ensures p + 2 <= s <= |t| && (s < |t| ==> t[s] != '/')
    ensures forall i :: p <= i < s ==> t[i] == '/'
  {
    hide Holds, Peek, Comps;
    s := p + 1;
    s := s + 1;
    while Peek(a, base, s, t) == '/'
      invariant p + 2 <= s <= |t|
      invariant forall i :: p <= i < s ==> t[i] == '/'
      decreases |t| - s
    {
      s := s + 1;
    }
  }

  lemma SuffixSkip(t: string, p: nat, u: string, k: nat, d: nat)
    requires p + d <= |t| && k <= |u| && t[p..] == u[k..]
    ensures k + d <= |u| && t[p + d..] == u[k + d..]
  {
    assert |t[p..]| == |u[k..]|;
    assert t[p..][d..] == t[p + d..] && u[k..][d..] == u[k + d..];
  }

  lemma SuffixChars(t: string, p: nat, u: string, k: nat)
    requires p < |t| && k <= |u| && t[p..] == u[k..]
    ensures k < |u| && u[k] == t[p]
    ensures p + 1 < |t| ==> k + 1 < |u| && u[k + 1] == t[p + 1]
  {
    assert t[p..][0] == u[k..][0];
    assert |t[p..]| == |u[k..]|;
    assert p + 1 < |t| ==> t[p..][1] == u[k..][1];
  }

  lemma DoubleAfterJoin(t: string, p: nat, s: nat)
    requires p + 1 < s <= |t| && t[p] == '/' && (s < |t| ==> t[s] != '/')
    ensures var u := t[..p + 1] + t[s..];
            && ((forall i :: i < p ==> !DoubleAt(t, i)) ==> forall i :: i < p + 1 ==> !DoubleAt(u, i))
            && ((forall i :: i < p ==> !StrayDoubleAt(t, i)) ==> forall i :: i < p + 1 ==> !StrayDoubleAt(u, i))
  {
    var u := t[..p + 1] + t[s..];
    forall i | i < p + 1
      ensures DoubleAt(u, i) ==> i < p && DoubleAt(t, i)
      ensures StrayDoubleAt(u, i) ==> i < p && StrayDoubleAt(t, i)
    {
    }
  }

  /** "/./" becomes "/". */
  method CollapseDots(a: array<char>, base: nat, ghost t0: string) returns (ghost t: string)
    requires Holds(a, base, t0)
    modifies a
    ensures Holds(a, base, t) && |t| <= |t0| && a[..base] == old(a[..base])
    ensures forall i :: base + |t0| < i < a.Length ==> a[i] == old(a[i])
    ensures t0 != "" ==> t != ""
    ensures Comps(t) == Comps(t0) && IsAbs(t) == IsAbs(t0) && SameEnds(t, t0)
    ensures (NoDouble(t0) ==> NoDouble(t)) && (NoStrayDouble(t0) ==> NoStrayDouble(t) && Urls(t) == Urls(t0))
    ensures NoDotMid(t)
  {
    hide Holds, Peek, Comps, Urls, SameEnds;
    assert SameEnds(t0, t0) by { EndsSame(t0); }
    t := t0;
    var p := 0;
    while Peek(a, base, p, t) != NUL
      invariant Holds(a, base, t) && p <= |t| <= |t0| && a[..base] == old(a[..base])
      invariant forall i :: base + |t0| < i < a.Length ==> a[i] == old(a[i])
      invariant t0 != "" ==> t != ""
      invariant Comps(t) == Comps(t0) && IsAbs(t) == IsAbs(t0) && SameEnds(t, t0)
      invariant (NoDouble(t0) ==> NoDouble(t)) && (NoStrayDouble(t0) ==> NoStrayDouble(t) && Urls(t) == Urls(t0))
      invariant forall i :: i < p ==> !DotMidAt(t, i)
      decreases |t| - p
    {
      if Peek(a, base, p, t) == '/' && Peek(a, base, p + 1, t) == '.' && Peek(a, base, p + 2, t) == '/' {
        DotKeeps(t, p);
        DotEnds(t, p);
        EndsTrans(t[..p] + t[p + 2..], t, t0);
        if NoStrayDouble(t) {
          assert !StrayDoubleAt(t, p + 2);
          UrlsDot(t, p);
        }
        StrMove(a, base, p, p + 2, t);
        DotMidAfterMove(t, p);
        t := t[..p] + t[p + 2..];
      } else {
        p := p + 1;
      }
    }
    forall i ensures !DotMidAt(t, i) {}
  }

  lemma DotMidAfterMove(t: string, p: nat)
    requires DotMidAt(t, p) && forall i :: i < p ==> !DotMidAt(t, i)
    ensures var u := t[..p] + t[p + 2..];
            (forall i :: i < p ==> !DotMidAt(u, i)) && IsAbs(u) == IsAbs(t)
            && (NoDouble(t) ==> NoDouble(u)) && (NoStrayDouble(t) ==> NoStrayDouble(u))
  {
    var u := t[..p] + t[p + 2..];
    forall i | i < p ensures !DotMidAt(u, i) {
      assert !DotMidAt(t, i);
    }
    if NoDouble(t) {
      forall i ensures !DoubleAt(u, i) {
        assert !DoubleAt(t, i) && !DoubleAt(t, i + 2);
      }
    }
    if NoStrayDouble(t) {
      forall i ensures !StrayDoubleAt(u, i) {
        assert !StrayDoubleAt(t, i) && !StrayDoubleAt(t, i + 2) && !StrayDoubleAt(t, p + 2);
      }
    }
  }

  /** CANON_PATH_JOINSLASHES. */
  method JoinSlashes(a: array<char>, base: nat, ghost t0: string) returns (ghost t: string)
    requires Holds(a, base, t0)
    modifies a
    ensures Holds(a, base, t) && |t| <= |t0| && a[..base] == old(a[..base])
    ensures forall i :: base + |t0| < i < a.Length ==> a[i] == old(a[i])
    ensures t0 != "" ==> t != ""
    ensures IsJoined(t0, t)
  {
    hide Holds, Peek, Comps, NoStrayDouble, NoDouble, NoDotMid, Urls, SameEnds;
    t := CollapseSlashes(a, base, t0);
    ghost var u := t;
    t := CollapseDots(a, base, t);
    EndsTrans(t, u, t0);
  }

  /** A "." with two slashes: what is left behind "./" is absolute. */
  predicate DotSlashes(t: string)
  {
    |t| >= 3 && t[0] == '.' && t[1] == '/' && t[2] == '/'
  }

  predicate StartsDotSlash(t: string)
  {
    |t| >= 2 && t[0] == '.' && t[1] == '/'
  }

  /** What CANON_PATH_JOINSLASHES makes of t. */
  ghost predicate IsJoined(t: string, u: string)
  {
    SameJoined(t, u) && NoStrayDouble(u) && NoDotMid(u) && (NoUrl(t) ==> NoDouble(u)) && |u| <= |t|
  }

  /** In a joined text no dot stands between slashes, and no slash behind another but for URLs. */
  lemma JoinedNot(t: string, u: string, x: string, y: string)
    requires IsJoined(t, u)
    ensures u != x + "/./" + y
    ensures NoUrl(t) || x == "" || x[|x| - 1] != ':' ==> u != x + "//" + y
  {
    hide SameJoined;
    var v, w := x + "/./" + y, x + "//" + y;
    assert v[|x|] == '/' && v[|x| + 1] == '.' && v[|x| + 2] == '/';
    assert DotMidAt(v, |x|);
    assert w[|x|] == '/' && w[|x| + 1] == '/';
    assert DoubleAt(w, |x|);
    if x == "" || x[|x| - 1] != ':' {
      assert StrayDoubleAt(w, |x|);
    }
  }

  ghost predicate EndsUrl(t: string)
  {
    HasAt(t, |t| - 3, URL_DELIMITER)
  }

  /** Without trailing slashes, except for a lone one and for those of a URL delimiter. */
  ghost function NoTrailingSlashes(t: string): (r: string)
    requires t != ""
    ensures r != "" && r <= t
    decreases |t|
  {
    if |t| > 1 && EndsSlash(t) && !EndsUrl(t) then NoTrailingSlashes(t[..|t| - 1]) else t
  }

  ghost function NoLeadingDot(t: string): (r: string)
    requires t != ""
    ensures r != ""
  {
    if t == "./" then "." else if StartsDotSlash(t) then t[2..] else t
  }

  /** Without a trailing "/" or "/.". */
  ghost function NoTrailingDot(t: string): (r: string)
    requires t != ""
    ensures r != "" && r <= t
  {
    if |t| < 2 then t
    else if EndsSlash(t) then (if EndsUrl(t) then t else t[..|t| - 1])
    else if EndsSlashDot(t) then (if |t| == 2 then t[..1] else t[..|t| - 2])
    else t
  }

  ghost function NoSlashDots(t: string): (r: string)
    requires t != ""
    ensures r != ""
  {
    var u := NoTrailingSlashes(t);
    if u == "./" then "." else NoTrailingDot(NoLeadingDot(u))
  }

  /** Without its trailing slashes the text ends with "://.". */
  ghost predicate LosesUrl(t: string)
    requires t != ""
  {
    var u := NoTrailingSlashes(t);
    EndsSlashDot(u) && UrlAt(u, |u| - 4)
  }

  /** URL delimiters stay, except for one with nothing but a dot behind it. */
  lemma NoSlashDotsUrls(t: string)
    requires t != ""
    ensures Urls(t) == Urls(NoSlashDots(t)) + if LosesUrl(t) then 1 else 0
  {
    hide NoTrailingSlashes, NoTrailingDot, Urls;
    NoTrailingSlashesUrls(t);
    var u := NoTrailingSlashes(t);
    NoLeadingDotUrls(u);
    if u != "./" {
      NoTrailingDotUrls(NoLeadingDot(u));
    }
  }

  lemma {:induction false} NoTrailingSlashesUrls(t: string)
    requires t != ""
    ensures Urls(NoTrailingSlashes(t)) == Urls(t)
    decreases |t|
  {
    hide Urls;
    if |t| > 1 && EndsSlash(t) && !EndsUrl(t) {
      UrlsCut(t);
      UrlEnd(t);
      NoTrailingSlashesUrls(t[..|t| - 1]);
    }
  }

  lemma UrlEnd(t: string)
    ensures EndsUrl(t) <==> UrlAt(t, |t| - 3)
  {
    var i := |t| - 3;
    if i >= 0 {
      assert t[i..i + 3] == [t[i], t[i + 1], t[i + 2]];
    }
  }

  lemma NoLeadingDotUrls(t: string)
    requires t != ""
    ensures Urls(NoLeadingDot(t)) == Urls(t)
    ensures EndsSlashDot(NoLeadingDot(t)) && UrlAt(NoLeadingDot(t), |NoLeadingDot(t)| - 4)
            <==> EndsSlashDot(t) && UrlAt(t, |t| - 4)
  {
    if StartsDotSlash(t) {
      assert t[1..][1..] == t[2..];
    }
  }

  lemma NoTrailingDotUrls(t: string)
    requires t != ""
    ensures Urls(t) == Urls(NoTrailingDot(t)) + if EndsSlashDot(t) && UrlAt(t, |t| - 4) then 1 else 0
  {
    hide Urls, EndsUrl, UrlAt;
    UrlEnd(t);
    if EndsSlash(t) {
      UrlsCut(t);
    } else if EndsSlashDot(t) {
      SlashDotUrls(t);
    }
  }

  lemma SlashDotUrls(t: string)
    requires EndsSlashDot(t)
    ensures Urls(t) == Urls(t[..|t| - 2]) + if UrlAt(t, |t| - 4) then 1 else 0
    ensures |t| == 2 ==> Urls(t) == Urls(t[..1]) && !UrlAt(t, |t| - 4)
  {
    hide Urls;
    var u := t[..|t| - 1];
    UrlsCut(t);
    UrlsCut(u);
    assert u[..|u| - 1] == t[..|t| - 2];
  }

  /** "a://." becomes "a:/", which is no URL any more. */
  lemma DotAfterUrl()
    ensures LosesUrl("a://.") && NoSlashDots("a://.") == "a:/"
  {
  }

  /** CANON_PATH_REMSLASHDOTS; done says that the whole function returns here. */
  method RemSlashDots(a: array<char>, base: nat, ghost t0: string) returns (done: bool, ghost t: string)
    requires Holds(a, base, t0) && t0 != ""
    modifies a
    ensures Holds(a, base, t) && |t| <= |t0| && a[..base] == old(a[..base])
    ensures forall i :: base + |t0| < i < a.Length ==> a[i] == old(a[i])
    ensures t != "" && (done ==> |t| == 1)
    ensures Comps(t) == Comps(t0) && (!DotSlashes(t0) ==> IsAbs(t) == IsAbs(t0))
    ensures NoDouble(t0) && NoDotMid(t0) ==> Tidy(t)
    ensures t == NoSlashDots(t0)
  {
    hide Holds, Peek, Comps, NoTrailingSlashes, NoTrailingDot;
    t := RemTrailingSlashes(a, base, t0);
    done, t := RemLeadingDot(a, base, t);
    if !done {
      done, t := RemTrailingDot(a, base, t);
    }
  }

  /** Remove leading "./". */
  method RemLeadingDot(a: array<char>, base: nat, ghost t0: string) returns (done: bool, ghost t: string)
    requires Holds(a, base, t0) && t0 != ""
    modifies a
    ensures Holds(a, base, t) && |t| <= |t0| && a[..base] == old(a[..base])
    ensures forall i :: base + |t0| < i < a.Length ==> a[i] == old(a[i])
    ensures t != ""
    ensures done <==> t0 == "./"
    ensures t == NoLeadingDot(t0)
    ensures Comps(t) == Comps(t0) && (IsAbs(t) == IsAbs(t0) <==> !DotSlashes(t0))
    ensures NoDouble(t0) && NoDotMid(t0) ==> NoDouble(t) && NoDotMid(t) && !DotSlashes(t0) && !StartsDotSlash(t)
  {
    hide Holds, Peek, Comps;
    t := t0;
    done := false;
    if Peek(a, base, 0, t) == '.' && Peek(a, base, 1, t) == '/' {
      LeadingDotKeeps(t);
      assert !DoubleAt(t, 1) || !NoDouble(t);
      assert !DotMidAt(t, 1) || !NoDotMid(t);
      SuffixShapes(t, 2);
      if Peek(a, base, 2, t) == NUL {
        done := true;
        assert t == "./";
        CompsOne("");
        CompsOne(".");
        PrefixShapes(t, 1);
        Cut(a, base, 1, t);
        t := t[..1];
      } else {
        StrMove(a, base, 0, 2, t);
        assert t[..0] + t[2..] == t[2..];
        t := t[2..];
      }
    }
  }

  /** Remove trailing "/" or "/.". */
  method RemTrailingDot(a: array<char>, base: nat, ghost t0: string) returns (done: bool, ghost t: string)
    requires Holds(a, base, t0) && t0 != ""
    modifies a
    ensures Holds(a, base, t) && |t| <= |t0| && a[..base] == old(a[..base])
    ensures forall i :: base + |t0| < i < a.Length ==> a[i] == old(a[i])
    ensures t != "" && (done ==> |t| == 1)
    ensures t == NoTrailingDot(t0) && Comps(t) == Comps(t0) && IsAbs(t) == IsAbs(t0)
    ensures NoDouble(t0) && NoDotMid(t0) && (t0[|t0| - 1] == '/' ==> t0 == "/") && !StartsDotSlash(t0) ==> Tidy(t)
  {
    hide Holds, Peek, Comps;
    t := t0;
    done := false;
    var len := StrLen(a, base, base, t);
    if len < 2 {
      return true, t;
    }
    if Peek(a, base, len - 1, t) == '/' {
      var isUrl := false;
      if len >= |URL_DELIMITER| {
        isUrl := Matches(a, base, len - |URL_DELIMITER|, URL_DELIMITER, t);
      }
      if isUrl {
        return;
      }
      TrailingSlashKeeps(t);
      Cut(a, base, len - 1, t);
      t := t[..len - 1];
    } else if Peek(a, base, len - 1, t) == '.' && Peek(a, base, len - 2, t) == '/' {
      if len == 2 {
        CompsOfRootDot(t);
        Cut(a, base, 1, t);
        t := t[..1];
        return true, t;
      }
      TrailingDotKeeps(t);
      PrefixShapes(t, len - 2);
      assert NoDouble(t) ==> !DoubleAt(t, len - 3);
      assert NoDotMid(t) && len >= 4 ==> !DotMidAt(t, len - 4);
      Cut(a, base, len - 2, t);
      t := t[..len - 2];
    }
  }

  /** Trailing slashes go, except the only character and those of a URL delimiter. */
  method RemTrailingSlashes(a: array<char>, base: nat, ghost t0: string) returns (ghost t: string)
    requires Holds(a, base, t0) && t0 != ""
    modifies a
    ensures Holds(a, base, t) && |t| <= |t0| && a[..base] == old(a[..base])
    ensures forall i :: base + |t0| < i < a.Length ==> a[i] == old(a[i])
    ensures t != "" && t == NoTrailingSlashes(t0) && Comps(t) == Comps(t0) && IsAbs(t) == IsAbs(t0)
    ensures NoDouble(t0) && NoDotMid(t0) ==> NoDouble(t) && NoDotMid(t)
    ensures NoDouble(t0) ==> (t[|t| - 1] == '/' ==> t == "/")
  {
    hide Holds, Peek, Comps;
    t := t0;
    var len := StrLen(a, base, base, t);
    var p := len - 1;
    while p > 0 && Peek(a, base, p, t) == '/'
      invariant Holds(a, base, t) && |t| <= |t0| && a[..base] == old(a[..base])
      invariant forall i :: base + |t0| < i < a.Length ==> a[i] == old(a[i])
      invariant p == |t| - 1
      invariant t != "" && t <= t0 && Comps(t) == Comps(t0) && IsAbs(t) == IsAbs(t0)
      invariant NoTrailingSlashes(t) == NoTrailingSlashes(t0)
      invariant NoDouble(t0) && NoDotMid(t0) ==> NoDouble(t) && NoDotMid(t)
      invariant NoDouble(t0) ==> NoDouble(t)
    {
      if p >= |URL_DELIMITER| - 1 {
        var isUrl := Matches(a, base, p - |URL_DELIMITER| + 1, URL_DELIMITER, t);
        if isUrl {
          assert t[p - 2..p + 1] == URL_DELIMITER;
          assert t[p - 1] == t[p - 2..p + 1][1];
          assert DoubleAt(t, p - 1);
          break;
        }
      }
      TrailingSlashKeeps(t);
      PrefixShapes(t, p);
      Cut(a, base, p, t);
      t := t[..p];
      p := p - 1;
    }
  }

  lemma PrefixShapes(t: string, n: nat)
    requires n <= |t|
    ensures NoDouble(t) ==> NoDouble(t[..n])
    ensures NoDotMid(t) ==> NoDotMid(t[..n])
  {
    forall i | NoDouble(t) ensures !DoubleAt(t[..n], i) {
      assert !DoubleAt(t, i);
    }
    forall i | NoDotMid(t) ensures !DotMidAt(t[..n], i) {
      assert !DotMidAt(t, i);
    }
  }

  lemma SuffixShapes(t: string, n: nat)
    requires n <= |t|
    ensures NoDouble(t) ==> NoDouble(t[n..])
    ensures NoDotMid(t) ==> NoDotMid(t[n..])
  {
    forall i | NoDouble(t) ensures !DoubleAt(t[n..], i) {
      assert !DoubleAt(t, i + n);
    }
    forall i | NoDotMid(t) ensures !DotMidAt(t[n..], i) {
      assert !DotMidAt(t, i + n);
    }
  }

  lemma CompsOfRootDot(t: string)
    requires |t| == 2 && t[0] == '/' && t[1] == '.'
    ensures Comps(t) == Comps("/") && t[..1] == "/" && Tidy("/")
  {
    TrailingDotKeeps(t);
    assert t[..0] == "";
    CompsOne("");
    CompsAt("/", 0);
    assert "/"[..0] == "" && "/"[1..] == "";
  }

  // ---------------------------------------------------------------- "/.."

  /** Two characters before p there is a colon, so the slash at p ends a URL delimiter:
      step back over the URL prefix to the slash before it. */
  method SkipUrlPrefix(a: array<char>, base: nat, p: nat, ghost t: string) returns (s: int)
    requires Holds(a, base, t) && p < |t| && HasAt(t, p - 2, URL_DELIMITER)
    ensures -1 <= s <= p - 2
  {
    hide Holds, Peek, Comps;
    s := p - 2;
    while s >= 0
      invariant -1 <= s <= p - 2
      decreases s
    {
      var c := Peek(a, base, s, t);
      s := s - 1;
      if c == '/' {
        break;
      }
    }
  }

  /** Where the class name before a URL delimiter starts. */
  method VfsPrefix(a: array<char>, base: nat, delim: nat, ghost t: string) returns (v: nat)
    requires Holds(a, base, t) && 0 < delim < |t|
    ensures v <= delim
  {
    hide Holds, Peek, Comps;
    v := delim;
    while v > 0
      invariant v <= delim
    {
      v := v - 1;
      if Peek(a, base, v, t) == '/' {
        break;
      }
    }
    if Peek(a, base, v, t) == '/' {
      v := v + 1;
    }
  }

  /** The class lookup cuts the string at the delimiter and puts the colon back. */
  method LookupClass(a: array<char>, base: nat, v: nat, delim: nat, remote: RemoteClass, ghost t: string)
    returns (b: bool)
    requires Holds(a, base, t) && v <= delim < |t| && t[delim] == URL_DELIMITER[0]
    modifies a
    ensures Holds(a, base, t) && a[..base] == old(a[..base])
    ensures forall i :: base + |t| < i < a.Length ==> a[i] == old(a[i])
    ensures b == remote(t[v..delim])
  {
    HoldsAll(a, base, t);
    assert a[base + v..base + delim] == t[v..delim];
    a[base + delim] := NUL;
    b := remote(a[base + v..base + delim]);
    a[base + delim] := URL_DELIMITER[0];
    assert a[base..base + |t|] == t;
  }

  /** A URL delimiter before s, behind the name of a remote class: where that name starts. */
  method RemoteBefore(a: array<char>, base: nat, s: nat, remote: RemoteClass, ghost t: string)
    returns (isRemote: bool, vfsPrefix: nat)
    requires Holds(a, base, t) && |URL_DELIMITER| < s < |t|
    modifies a
    ensures Holds(a, base, t) && a[..base] == old(a[..base])
    ensures forall i :: base + |t| < i < a.Length ==> a[i] == old(a[i])
    ensures isRemote ==> vfsPrefix < s && HasAt(t, s - 3, URL_DELIMITER)
  {
    hide Holds, Peek, Comps;
    isRemote, vfsPrefix := false, 0;
    var isUrl := Matches(a, base, s - |URL_DELIMITER|, URL_DELIMITER, t);
    if isUrl {
      UrlIsDouble(t, s - 3);
      vfsPrefix := VfsPrefix(a, base, s - |URL_DELIMITER|, t);
      isRemote := LookupClass(a, base, vfsPrefix, s - |URL_DELIMITER|, remote, t);
    }
  }

  /** The start of the token that ends at p; a remote URL prefix counts as part of it. */
  method PrevToken(a: array<char>, base: nat, p: nat, remote: RemoteClass, ghost t: string) returns (start: nat)
    requires Holds(a, base, t) && p < |t| && t[p] == '/'
    modifies a
    ensures Holds(a, base, t) && a[..base] == old(a[..base])
    ensures forall i :: base + |t| < i < a.Length ==> a[i] == old(a[i])
    ensures start <= p && (start == 0 || t[start - 1] == '/')
    ensures NoDouble(t) ==> TokenStart(t, start, p)
  {
    hide Holds, Peek, Comps, NoDouble;
    var s: int := p - 1;
    if s >= |URL_DELIMITER| - 2 {
      var isUrl := Matches(a, base, s - |URL_DELIMITER| + 2, URL_DELIMITER, t);
      if isUrl {
        UrlIsDouble(t, p - 2);
        s := SkipUrlPrefix(a, base, p, t);
      }
    }
    while s >= 0
      invariant -1 <= s < p
      invariant Holds(a, base, t) && a[..base] == old(a[..base])
      invariant forall i :: base + |t| < i < a.Length ==> a[i] == old(a[i])
      invariant NoDouble(t) ==> '/' !in t[s + 1..p]
      decreases s
    {
      if s - |URL_DELIMITER| > 0 {
        var isRemote, vfsPrefix := RemoteBefore(a, base, s, remote, t);
        if isRemote {
          UrlIsDouble(t, s - 3);
          s := vfsPrefix;
          continue;
        }
      }
      if Peek(a, base, s, t) == '/' {
        break;
      }
      assert NoDouble(t) ==> t[s..p] == [t[s]] + t[s + 1..p];
      s := s - 1;
    }
    start := s + 1;
  }

  lemma UrlIsDouble(t: string, i: int)
    requires HasAt(t, i, URL_DELIMITER)
    ensures t[i] == ':' && !NoDouble(t)
  {
    assert t[i] == t[i..i + 3][0];
    assert t[i + 1] == t[i..i + 3][1] && t[i + 2] == t[i..i + 3][2];
    assert DoubleAt(t, i + 1);
  }

  /** What one round of the ".." loop keeps, and how far the path is reduced. */
  ghost predicate Collapsing(t0: string, t: string, p: nat)
  {
    Tidy(t) && EncFree(Comps(t)) && IsAbs(t) == IsAbs(t0) && Meaning(t) == Meaning(t0) && Reduced(t, p)
  }

  lemma CollapsingPast(t0: string, t: string, p: nat, q: nat)
    requires Collapsing(t0, t, p) && p < q <= p + 3
    requires DotDotAt(t, p) ==> DotDotBefore(t, p)
    requires q > p + 1 ==> q == p + 3 && DotDotAt(t, p)
    ensures Collapsing(t0, t, q)
  {
    hide Tidy, EncFree, Comps, Meaning, IsAbs, DotDotBefore;
    assert q > p + 1 ==> !DotDotAt(t, p + 1) && !DotDotAt(t, p + 2);
  }

  lemma CollapsingStart(t0: string)
    requires Tidy(t0) && EncFree(Comps(t0))
    ensures Collapsing(t0, t0, 0)
  {
    hide Tidy, EncFree, Comps, Meaning, IsAbs;
  }

  /** When the cursor has come to the end, the path is in normal form. */
  lemma CollapsingEnd(t0: string, t: string, p: nat)
    requires Collapsing(t0, t, p) && p + 3 > |t|
    ensures t == Normal(t0)
  {
    hide EncFree, Comps, Meaning, Tidy;
    forall q | 0 <= q < |t| && DotDotAt(t, q) ensures DotDotBefore(t, q) {}
    ReducedNormal(t);
  }

  lemma FinishedNormal(t0: string, t: string, s: nat, p: nat)
    requires CanCollapse(t0, t, s, p)
    ensures Normal(t) == Normal(t0)
  {
    hide EncFree, Comps, Meaning, Tidy, Reduced;
  }

  lemma CanCollapseIs(t0: string, t: string, s: nat, p: nat)
    requires Collapsing(t0, t, p) && s <= p < |t| && DotDotAt(t, p) && TokenStart(t, s, p)
    requires !(t[s] == '.' && (s + 1 < |t| ==> t[s + 1] == '.') && s + 2 == p)
    ensures CanCollapse(t0, t, s, p)
  {
    hide EncFree, Comps, Meaning, Reduced, Collapsing;
    assert Tidy(t) by { CollapsingTidy(t0, t, p); }
    TokenIsName(t, s, p);
    NotDotDotToken(t, s, p);
  }

  lemma CollapsingTidy(t0: string, t: string, p: nat)
    requires Collapsing(t0, t, p)
    ensures Tidy(t) && NoDouble(t)
  {
    hide EncFree, Comps, Meaning, Reduced;
  }

  lemma TokenNotEncoding(t0: string, t: string, s: nat, p: nat)
    requires Collapsing(t0, t, p) && DotDotAt(t, p) && TokenStart(t, s, p)
    ensures !HasAt(t, s, ENCODING_PREFIX)
  {
    TokenIsName(t, s, p);
    var tok := t[s..p];
    if tok != "" {
      TokenComps(t, s, p);
      assert [tok, ".."][0] in Comps(t);
    }
    PrefixInToken(t, s, p);
  }

  lemma PrefixInToken(t: string, s: nat, p: nat)
    requires s <= p < |t| && t[p] == '/'
    ensures HasAt(t, s, ENCODING_PREFIX) ==> ENCODING_PREFIX <= t[s..p]
  {
    if HasAt(t, s, ENCODING_PREFIX) {
      forall i | s <= i < s + 5 ensures t[i] == ENCODING_PREFIX[i - s] {
        assert t[i] == t[s..s + 5][i - s];
      }
      assert s + 5 <= p;
    }
  }

  /** The round has found a token to collapse in a path that is in good shape. */
  ghost predicate CanCollapse(t0: string, t: string, s: nat, p: nat)
  {
    Collapsing(t0, t, p) && TokenStart(t, s, p) && DotDotAt(t, p) && !DotDotBefore(t, p)
  }

  lemma CollapseInsideGood(t0: string, t: string, s: nat, p: nat)
    requires CanCollapse(t0, t, s, p) && p + 3 < |t|
    ensures !HasAt(t, s, ENCODING_PREFIX)
    ensures s == 0 && t[s] == '/' ==> Collapsing(t0, t[..s + 1] + t[p + 4..], 0)
    ensures !(s == 0 && t[s] == '/') ==> Collapsing(t0, t[..s] + t[p + 4..], if s > 0 then s - 1 else 0)
  {
    TokenNotEncoding(t0, t, s, p);
    TokenIsName(t, s, p);
    if s < p {
      assert t[s] == t[s..p][0];
      CollapseStep(t, s, p);
    } else {
      RootStep(t);
    }
  }

  /** "token/../" in the middle: the string and the cursor to go on with. */
  method CollapseInside(a: array<char>, base: nat, s: nat, p: nat, supported: Supported, ghost t0: string,
                        ghost t: string)
    returns (next: nat, ghost u: string)
    requires Holds(a, base, t) && DotDotAt(t, p) && p + 3 < |t| && s <= p
    modifies a
    ensures Holds(a, base, u) && |u| < |t| && a[..base] == old(a[..base]) && next <= |u|
    ensures forall i :: base + |t| < i < a.Length ==> a[i] == old(a[i])
    ensures CanCollapse(t0, t, s, p) ==> Collapsing(t0, u, next)
  {
    hide Holds, Peek, Comps;
    if CanCollapse(t0, t, s, p) {
      CollapseInsideGood(t0, t, s, p);
    }
    next := if s > 0 then s - 1 else s;
    if s == 0 && Peek(a, base, s, t) == '/' {
      // "/../foo" -> "/foo"
      StrMove(a, base, s + 1, p + 4, t);
      u := t[..s + 1] + t[p + 4..];
      return;
    }
    var enc := Matches(a, base, s, ENCODING_PREFIX, t);
    var ok := false;
    if enc {
      ok := SupportedAt(a, base, s, supported, t);
    }
    // "token/../foo" -> "foo", but an encoding is removed together with its slash only
    var from := if ok then p + 1 else p + 4;
    StrMove(a, base, s, from, t);
    u := t[..s] + t[from..];
  }

  /** is_supported_encoding (vfs_get_encoding (s)). */
  method SupportedAt(a: array<char>, base: nat, s: nat, supported: Supported, ghost t: string) returns (b: bool)
    requires Holds(a, base, t) && s <= |t|
    ensures b == supported(t[s..])
  {
    var n := StrLen(a, base + s, base, t);
    assert a[base + s..base + s + n] == a[base..base + |t|][s..];
    b := supported(a[base + s..base + s + n]);
  }

  /** ".." takes the place of all that starts at s. */
  method WriteDots(a: array<char>, base: nat, s: nat, ghost t: string) returns (ghost u: string)
    requires Holds(a, base, t) && s + 2 < |t|
    modifies a
    ensures Holds(a, base, u) && u == t[..s] + ".." && a[..base] == old(a[..base])
    ensures forall i :: base + |t| < i < a.Length ==> a[i] == old(a[i])
  {
    hide Holds;
    u := t;
    Put(a, base, s, '.', u);
    u := u[s := '.'];
    Put(a, base, s + 1, '.', u);
    u := u[s + 1 := '.'];
    Cut(a, base, s + 2, u);
    u := u[..s + 2];
    assert u == t[..s] + "..";
  }

  /** Special case: the encoding at s is removed, ".." takes its place, and the loop goes on at the
      slash before it. */
  method RemoveEncoding(a: array<char>, base: nat, s: nat, ghost t: string)
    returns (finished: bool, next: nat, ghost u: string)
    requires Holds(a, base, t) && 0 < s && s + 2 < |t|
    modifies a
    ensures Holds(a, base, u) && u == t[..s] + ".." && a[..base] == old(a[..base])
    ensures forall i :: base + |t| < i < a.Length ==> a[i] == old(a[i])
    ensures finished <==> forall k :: 0 <= k < s ==> t[k] != '/'
    ensures next < s && (!finished ==> t[next] == '/' && forall k :: next < k < s ==> t[k] != '/')
  {
    hide Holds, Peek, Comps;
    u := WriteDots(a, base, s, t);
    // search for the previous token
    var q := s - 1;
    while q >= 0 && Peek(a, base, q, u) != '/'
      invariant -1 <= q < s && forall k :: q < k < s ==> t[k] != '/'
    {
      q := q - 1;
    }
    finished, next := q < 0, if q < 0 then 0 else q;
  }

  /** A trailing "/..": either the path is finished, or the loop goes on at next. */
  method CollapseTail(a: array<char>, base: nat, s: nat, p: nat, supported: Supported, ghost t0: string,
                      ghost t: string)
    returns (finished: bool, next: nat, ghost u: string)
    requires Holds(a, base, t) && DotDotAt(t, p) && p + 3 == |t| && s <= p
    requires s == 0 || t[s - 1] == '/'
    modifies a
    ensures Holds(a, base, u) && |u| <= |t| && a[..base] == old(a[..base]) && next <= |u|
    ensures forall i :: base + |t| < i < a.Length ==> a[i] == old(a[i])
    ensures u != "" && (!finished ==> |u| < |t|)
    ensures CanCollapse(t0, t, s, p) ==> finished && u == Normal(t)
  {
    hide Holds, Peek, Comps;
    if CanCollapse(t0, t, s, p) {
      TokenNotEncoding(t0, t, s, p);
      TrailingStep(t, s, p);
    }
    u, next, finished := t, 0, true;
    if s == 0 {
      // "token/.." -> "."
      if Peek(a, base, 0, u) != '/' {
        Put(a, base, 0, '.', u);
        u := u[0 := '.'];
      }
      Cut(a, base, 1, u);
      u := u[..1];
      assert u == if t[0] == '/' then "/" else ".";
      return;
    }
    // "foo/token/.." -> "foo"
    if s == 1 {
      Cut(a, base, s, u);
      u := u[..s];
      assert u == "/";
      return;
    }
    var enc := Matches(a, base, s, ENCODING_PREFIX, u);
    var ok := false;
    if enc {
      ok := SupportedAt(a, base, s, supported, u);
    }
    if ok {
      finished, next, u := RemoveEncoding(a, base, s, u);
      return;
    }
    var isUrl := false;
    if s >= |URL_DELIMITER| {
      isUrl := Matches(a, base, s - |URL_DELIMITER|, URL_DELIMITER, u);
    }
    if isUrl {
      UrlIsDouble(t, s - 3);
      Cut(a, base, s, u);
      u := u[..s];
    } else {
      Cut(a, base, s - 1, u);
      u := u[..s - 1];
    }
  }

  /** CANON_PATH_REMDOUBLEDOTS: collapse "/.." with the previous part of the path. Every round
      shortens the string or moves the cursor forward, whatever the file system answers. */
  method RemDoubleDots(a: array<char>, base: nat, remote: RemoteClass, supported: Supported, ghost t0: string)
    returns (ghost t: string)
    requires Holds(a, base, t0)
    modifies a
    ensures Holds(a, base, t) && |t| <= |t0| && a[..base] == old(a[..base])
    ensures forall i :: base + |t0| < i < a.Length ==> a[i] == old(a[i])
    ensures Tidy(t0) && EncFree(Comps(t0)) ==> t == Normal(t0)
  {
    hide Holds, Peek, Comps, Tidy, NoDouble, EncFree, Collapsing, CanCollapse, Normal;
    t := t0;
    var p: nat := 0;
    ghost var domain := Tidy(t0) && EncFree(Comps(t0));
    if domain {
      CollapsingStart(t0);
    }
    while Peek(a, base, p, t) != NUL && Peek(a, base, p + 1, t) != NUL && Peek(a, base, p + 2, t) != NUL
      invariant Holds(a, base, t) && p <= |t| <= |t0| && a[..base] == old(a[..base])
      invariant forall i :: base + |t0| < i < a.Length ==> a[i] == old(a[i])
      invariant domain ==> Collapsing(t0, t, p)
      decreases |t|, |t| - p
    {
      if Peek(a, base, p, t) != '/' || Peek(a, base, p + 1, t) != '.' || Peek(a, base, p + 2, t) != '.'
         || (Peek(a, base, p + 3, t) != '/' && Peek(a, base, p + 3, t) != NUL)
      {
        if domain {
          CollapsingPast(t0, t, p, p + 1);
        }
        p := p + 1;
        continue;
      }
      if domain {
        CollapsingTidy(t0, t, p);
      }
      var s := PrevToken(a, base, p, remote, t);
      // if the previous token is "..", we cannot collapse it
      if Peek(a, base, s, t) == '.' && Peek(a, base, s + 1, t) == '.' && s + 2 == p {
        if domain {
          CollapsingPast(t0, t, p, p + 3);
        }
        p := p + 3;
        continue;
      }
      if domain {
        CanCollapseIs(t0, t, s, p);
        FinishedNormal(t0, t, s, p);
      }
      if Peek(a, base, p + 3, t) != NUL {
        p, t := CollapseInside(a, base, s, p, supported, t0, t);
        continue;
      }
      var finished;
      finished, p, t := CollapseTail(a, base, s, p, supported, t0, t);
      if finished {
        return;
      }
    }
    if domain {
      CollapsingEnd(t0, t, p);
    }
  }

  lemma NotDotDotToken(t: string, s: nat, p: nat)
    requires s <= p <= |t| && !(p == s + 2 && t[s] == '.' && t[s + 1] == '.')
    ensures t[s..p] != ".."
  {
    assert p == s + 2 ==> t[s..p] == [t[s], t[s + 1]];
  }

  // ---------------------------------------------------------------- the whole function

  /** The length of the "//server" part that CANON_PATH_GUARDUNC protects. */
  method GuardUnc(path: array<char>, guardUnc: bool, ghost t: string) returns (lpath: nat)
    requires Holds(path, 0, t)
    ensures lpath == if guardUnc then UncLen(t) else 0
  {
    hide Holds, Peek, Comps;
    lpath := 0;
    if guardUnc && Peek(path, 0, 0, t) == '/' && Peek(path, 0, 1, t) == '/' {
      var p: nat := 2;
      while Peek(path, 0, p, t) != NUL && Peek(path, 0, p, t) != '/'
        invariant 2 <= p <= |t|
        invariant SlashAt(t[2..]) == p - 2 + SlashAt(t[p..])
        decreases |t| - p
      {
        assert t[p..][0] == t[p] && t[p..][1..] == t[p + 1..];
        p := p + 1;
      }
      assert p < |t| ==> t[p..][0] == t[p];
      if Peek(path, 0, p, t) == '/' && p > 2 {
        lpath := p;
      }
    }
  }

  /** What the first two passes make of t0. */
  ghost predicate Cleaned(flags: Flags, t0: string, t: string)
  {
    exists j :: CleanedFrom(flags, t0, j, t)
  }

  ghost predicate CleanedFrom(flags: Flags, t0: string, j: string, t: string)
  {
    && (if flags.joinSlashes then IsJoined(t0, j) else j == t0)
    && t == if flags.remSlashDots && j != "" then NoSlashDots(j) else j
  }

  /** What the passes make of the URL delimiters. */
  lemma CleanedUrls(flags: Flags, t0: string, j: string, t: string)
    requires CleanedFrom(flags, t0, j, t)
    ensures Urls(t0) == Urls(t) + if flags.remSlashDots && j != "" && LosesUrl(j) then 1 else 0
  {
    hide Urls, LosesUrl, NoSlashDots, SameEnds, Comps;
    if j != "" {
      NoSlashDotsUrls(j);
    }
  }

  lemma ShortJoined(flags: Flags, t: string)
    requires |t| < 2
    ensures IsJoined(t, t) && Cleaned(flags, t, t) && (t != "" ==> Tidy(t))
  {
    hide Comps;
    EndsSame(t);
    if t != "" {
      assert NoSlashDots(t) == t;
    }
    assert CleanedFrom(flags, t, t, t);
  }

  lemma TidyJoined(t: string, u: string)
    requires Tidy(t) && IsJoined(t, u) && u != ""
    ensures Tidy(u) && Normal(u) == Normal(t)
  {
    hide Comps, Urls;
    TidyNoUrl(t);
  }

  lemma TidyNoUrl(t: string)
    requires NoDouble(t)
    ensures NoUrl(t)
  {
    forall i ensures !UrlAt(t, i) {
      assert !DoubleAt(t, i + 1);
    }
  }

  /** The texts that the first two passes leave without anything to join or to remove. */
  ghost predicate BecomesTidy(flags: Flags, t: string)
  {
    t != "" && ((flags.joinSlashes && flags.remSlashDots && NoUrl(t)) || Tidy(t))
  }

  /** What the passes before the one for ".." leave: the same components, in a tidy text if possible. */
  ghost predicate Prepared(flags: Flags, t0: string, t: string)
  {
    && Cleaned(flags, t0, t) && Comps(t) == Comps(t0)
    && (flags.joinSlashes || !flags.remSlashDots || !DotSlashes(t0) ==> IsAbs(t) == IsAbs(t0))
    && (BecomesTidy(flags, t0) ==> Tidy(t))
  }

  lemma PreparedText(flags: Flags, t0: string, t: string)
    requires Prepared(flags, t0, t) && BecomesTidy(flags, t0)
    ensures t0 != "" && Tidy(t) && Comps(t) == Comps(t0) && Normal(t) == Normal(t0)
    ensures t == Print(IsAbs(t0), Comps(t0))
  {
    hide Comps, Cleaned, Print, NoDouble;
    TidyPrint(t);
    assert Tidy(t0) ==> !DotSlashes(t0);
  }

  lemma IsPrepared(flags: Flags, t0: string, j: string, t: string)
    requires t0 != "" && j != "" && if flags.joinSlashes then IsJoined(t0, j) else j == t0
    requires if flags.remSlashDots then
               && t == NoSlashDots(j) && Comps(t) == Comps(j) && (!DotSlashes(j) ==> IsAbs(t) == IsAbs(j))
               && (NoDouble(j) && NoDotMid(j) ==> Tidy(t))
             else t == j
    ensures Prepared(flags, t0, t)
  {
    hide Comps, NoSlashDots, Urls, SameEnds, Normal;
    assert CleanedFrom(flags, t0, j, t);
    if flags.joinSlashes {
      assert !StrayDoubleAt(j, 1);
      if Tidy(t0) {
        TidyJoined(t0, j);
      }
    }
  }

  lemma ShortPrepared(flags: Flags, t: string)
    requires |t| < 2
    ensures Prepared(flags, t, t) && (t != "" ==> Normal(t) == t)
  {
    hide Comps, Cleaned;
    ShortJoined(flags, t);
    if t != "" {
      OneCharNormal(t);
    }
  }

  /** The passes on the local part, which starts at lpath. */
  method CanonicalizeLocal(path: array<char>, lpath: nat, flags: Flags, remote: RemoteClass, supported: Supported,
                           ghost t0: string)
    returns (ghost t: string)
    requires Holds(path, lpath, t0)
    modifies path
    ensures Holds(path, lpath, t) && |t| <= |t0| && path[..lpath] == old(path[..lpath])
    ensures forall i :: lpath + |t0| < i < path.Length ==> path[i] == old(path[i])
    ensures flags.remDoubleDots && BecomesTidy(flags, t0) && EncFree(Comps(t0)) ==> t == Normal(t0)
    ensures !flags.remDoubleDots ==> Prepared(flags, t0, t)
    ensures !flags.remDoubleDots && BecomesTidy(flags, t0) ==> t == Print(IsAbs(t0), Comps(t0))
  {
    hide Holds, Peek, Comps, Prepared, Tidy, Normal, IsJoined, NoSlashDots, BecomesTidy;
    t := t0;
    ghost var domain := BecomesTidy(flags, t0);
    if Peek(path, lpath, 0, t) == NUL || Peek(path, lpath, 1, t) == NUL {
      ShortPrepared(flags, t0);
      if domain {
        PreparedText(flags, t0, t0);
      }
      return;
    }
    if flags.joinSlashes {
      t := JoinSlashes(path, lpath, t);
    }
    ghost var j := t;
    var done := false;
    if flags.remSlashDots {
      done, t := RemSlashDots(path, lpath, t);
    }
    IsPrepared(flags, t0, j, t);
    if domain {
      PreparedText(flags, t0, t);
    }
    if done {
      OneCharNormal(t);
      return;
    }
    if flags.remDoubleDots {
      t := RemDoubleDots(path, lpath, remote, supported, t);
    }
  }

  lemma OneCharNormal(t: string)
    requires |t| == 1
    ensures Normal(t) == t
  {
    assert t == [t[0]];
    if t[0] == '/' {
      CompsLeadingSlash("");
      CompsOne("");
      assert t == "/" + "";
    } else {
      CompsOne(t);
      assert Push(false, [], t) == [t];
      assert Walk(false, [t], [t][1..]) == [t];
    }
  }

  /** The C entry point: the path sits at the start of its buffer and is rewritten there. */
  method CanonicalizePathname(path: array<char>, flags: Flags, remote: RemoteClass, supported: Supported)
    requires NUL in path[..]
    modifies path
    ensures NUL in path[..] && |Text(path[..])| <= |old(Text(path[..]))|
    ensures forall i :: |old(Text(path[..]))| < i < path.Length ==> path[i] == old(path[i])
    ensures var t0, t := old(Text(path[..])), Text(path[..]);
            var unc := if flags.guardUnc then UncLen(t0) else 0;
            && unc <= |t| && t[..unc] == t0[..unc]
            && (flags.remDoubleDots && BecomesTidy(flags, t0[unc..]) && EncFree(Comps(t0[unc..])) ==>
                  t[unc..] == Normal(t0[unc..]))
            && (!flags.remDoubleDots ==> Prepared(flags, t0[unc..], t[unc..]))
            && (!flags.remDoubleDots && BecomesTidy(flags, t0[unc..]) ==>
                  t[unc..] == Print(IsAbs(t0[unc..]), Comps(t0[unc..])))
    ensures flags == CANON_PATH_ALL && Clean(old(Text(path[..]))) ==>
              Text(path[..]) == Canonical(old(Text(path[..])))
  {
    hide Holds, Text, Comps, Normal, EncFree, NoUrl, UncLen, IsAbs, Prepared, Tidy, Print;
    ghost var t0 := Text(path[..]);
    TextHolds(path);
    NoUrlAll(t0);
    var lpath := GuardUnc(path, flags.guardUnc, t0);
    HoldsSuffix(path, t0, lpath);
    ghost var u := CanonicalizeLocal(path, lpath, flags, remote, supported, t0[lpath..]);
    HoldsPrefixed(path, t0, lpath, u);
    ghost var t := t0[..lpath] + u;
    HoldsText(path, 0, t);
    assert path[0..] == path[..];
    assert path[..][|t|] == NUL;
    assert t[..lpath] == t0[..lpath] && t[lpath..] == u;
  }

  lemma NoUrlAll(t: string)
    ensures NoUrl(t) ==> forall k: nat :: k <= |t| ==> NoUrl(t[k..])
  {
    forall k: nat | NoUrl(t) && k <= |t| ensures NoUrl(t[k..]) {
      NoUrlSuffix(t, k);
    }
  }

  lemma TextHolds(path: array<char>)
    requires NUL in path[..]
    ensures Holds(path, 0, Text(path[..]))
  {
    var t := Text(path[..]);
    assert path[0..|t|] == path[..][..|t|];
  }

  lemma HoldsSuffix(path: array<char>, t: string, k: nat)
    requires Holds(path, 0, t) && k <= |t|
    ensures Holds(path, k, t[k..])
  {
    HoldsAll(path, 0, t);
    assert path[k..k + |t[k..]|] == t[k..];
  }

  lemma HoldsPrefixed(path: array<char>, t: string, k: nat, u: string)
    requires k <= |t| && NUL !in t && Holds(path, k, u) && path[..k] == t[..k]
    ensures Holds(path, 0, t[..k] + u)
  {
    var r := t[..k] + u;
    assert path[0..|r|] == path[..k] + path[k..k + |u|];
  }

  lemma NoUrlSuffix(t: string, k: nat)
    requires k <= |t| && NoUrl(t)
    ensures NoUrl(t[k..])
  {
    forall i ensures !UrlAt(t[k..], i) {
      assert !UrlAt(t, k + i);
    }
  }

  // ---------------------------------------------------------------- what the result is

  lemma PrintNoDouble(abs: bool, st: seq<string>)
    requires GoodStack(abs, st)
    ensures NoDouble(Print(abs, st))
    ensures Print(abs, st)[|Print(abs, st)| - 1] == '/' ==> Print(abs, st) == "/"
  {
    if st != [] {
      JoinNoDouble(st);
      var j, t := Join(st), Print(abs, st);
      assert forall i :: DoubleAt(t, i) ==> DoubleAt(j, if abs then i - 1 else i) || (abs && i == 0);
    }
  }

  lemma {:induction false} JoinNoDouble(st: seq<string>)
    requires st != [] && forall i :: 0 <= i < |st| ==> IsName(st[i])
    ensures var j := Join(st); j != "" && NoDouble(j) && j[0] != '/' && j[|j| - 1] != '/'
  {
    var c := st[0];
    assert c[0] in c && c[|c| - 1] in c;
    forall i ensures !DoubleAt(c, i) {
      assert 0 <= i < |c| ==> c[i] in c;
    }
    if |st| > 1 {
      JoinNoDouble(st[1..]);
      var r := Join(st[1..]);
      var j := c + "/" + r;
      forall i ensures !DoubleAt(j, i) {
        assert !DoubleAt(c, i) && !DoubleAt(r, i - |c| - 1);
      }
    }
  }

  lemma CanonicalLocal(t: string)
    requires t != "" && UncLen(t) == 0
    ensures Canonical(t) == Normal(t)
  {
    assert t[0..] == t;
  }

  lemma UncShape(server: string, rest: string)
    requires server != "" && '/' !in server
    ensures UncLen("//" + server + ("/" + rest)) == 2 + |server|
  {
    var t := "//" + server + ("/" + rest);
    assert t[2..] == server + "/" + rest;
    SlashAtConcat(server, rest);
    assert t[0] == '/' && t[1] == '/';
  }

  /** The normal form keeps the UNC part a UNC part, and makes none where there was none. */
  lemma CanonicalUnc(t: string)
    requires t != ""
    ensures UncLen(Canonical(t)) == UncLen(t)
    ensures Canonical(t)[..UncLen(t)] == t[..UncLen(t)]
    ensures Canonical(t)[UncLen(t)..] == Normal(t[UncLen(t)..])
  {
    var n := UncLen(t);
    var local := t[n..];
    var r := Canonical(t);
    NormalFixed(local);
    if n == 0 {
      MeaningGood(local);
      PrintNoDouble(IsAbs(local), Meaning(local));
      assert !DoubleAt(r, 0);
    } else {
      var server := t[2..][..n - 2];
      assert local[0] == t[2..][n - 2];
      assert t[..n] == "//" + server;
      UncShape(server, Normal(local)[1..]);
      assert Normal(local) == "/" + Normal(local)[1..];
    }
  }

  lemma NoSlashInServer(t: string, i: nat)
    requires i < UncLen(t)
    ensures t[i] == '/' <==> i < 2
  {
    if i >= 2 {
      assert t[i] == t[2..][..UncLen(t) - 2][i - 2];
    }
  }

  lemma NoUrlGlue(x: string, y: string)
    requires NoDouble(y) && forall i :: 0 <= i < |x| ==> (x[i] == '/' <==> i < 2)
    ensures NoUrl(x + y)
  {
    var r := x + y;
    forall i ensures !UrlAt(r, i) {
      assert !DoubleAt(y, i + 1 - |x|);
      assert 0 <= i < |x| ==> r[i] == x[i];
      assert 0 <= i + 1 < |x| ==> r[i + 1] == x[i + 1];
    }
  }

  /** A second run changes nothing: the result is clean again and already canonical. */
  lemma CanonicalIdempotent(t: string)
    requires t != "" && Clean(t)
    ensures Clean(Canonical(t)) && Canonical(Canonical(t)) == Canonical(t)
  {
    var n := UncLen(t);
    var local := t[n..];
    CanonicalUnc(t);
    NormalFixed(local);
    MeaningGood(local);
    CompsPrint(IsAbs(local), Meaning(local));
    WalkSubset(IsAbs(local), [], Comps(local));
    PrintNoDouble(IsAbs(local), Meaning(local));
    forall i | 0 <= i < n ensures t[..n][i] == '/' <==> i < 2 {
      NoSlashInServer(t, i);
    }
    NoUrlGlue(t[..n], Normal(local));
  }

  lemma {:induction false} WalkSubset(abs: bool, st: seq<string>, cs: seq<string>)
    requires EncFree(st) && EncFree(cs)
    ensures EncFree(Walk(abs, st, cs))
    decreases |cs|
  {
    if cs != [] {
      assert cs[0] in cs && forall c :: c in cs[1..] ==> c in cs;
      assert forall c :: c in Push(abs, st, cs[0]) ==> c in st || c == cs[0];
      WalkSubset(abs, Push(abs, st, cs[0]), cs[1..]);
    }
  }
}
