/**
 diff_two_paths (lib/util.c): the relative path from one canonical path to another. The
 results of resolve_symlinks are the parameters; NULL stands for its failure.
 */
module DiffPaths {
  import opened Options
  import opened PathAlgebra
  import opened CString
  import opened CanonicalPath
  import opened Canonicalize
  import opened Sequences

  function Ups(n: nat): string
  {
    if n == 0 then "" else "../" + Ups(n - 1)
  }

  /** Drop the pieces both paths start with, but never the last piece of either; go up once for
      every piece left of the first, then down the second. */
  ghost function Rel(a: seq<string>, b: seq<string>): string
  {
    if |a| > 1 && |b| > 1 && a[0] == b[0] then Rel(a[1..], b[1..]) else Ups(|a|) + Join(b)
  }

  // ---------------------------------------------------------------- the method

  lemma SplitAt(s: string)
    ensures SlashAt(s) == |s| ==> Split(s) == [s]
    ensures SlashAt(s) < |s| ==> Split(s) == [s[..SlashAt(s)]] + Split(s[SlashAt(s) + 1..])
  {
    assert s[..|s|] == s;
  }

  lemma SplitFrom(s: string, from: nat)
    requires from <= |s|
    ensures var k := SlashAt(s[from..]);
            if k == |s| - from then Split(s[from..]) == [s[from..]]
            else Split(s[from..]) == [s[from..from + k]] + Split(s[from + k + 1..])
  {
    hide Split;
    var t, k := s[from..], SlashAt(s[from..]);
    SplitAt(t);
    if k < |t| {
      assert t[..k] == s[from..from + k] && t[k + 1..] == s[from + k + 1..];
    }
  }

  /** The walk over the common part of both paths. */
  method SkipCommon(first: string, second: string) returns (p: nat, q: nat)
    ensures p <= |first| && q <= |second|
    ensures Rel(Split(first), Split(second)) == Ups(|Split(first[p..])|) + second[q..]
  {
    hide Split, Rel, Join, Ups, SlashAt;
    p, q := 0, 0;
    assert first[0..] == first && second[0..] == second;
    while true
      invariant p <= |first| && q <= |second|
      invariant Rel(Split(first), Split(second)) == Rel(Split(first[p..]), Split(second[q..]))
      decreases |first| - p
    {
      SplitFrom(first, p);
      SplitFrom(second, q);
      JoinSplit(second[q..]);
      var r := StrChrSep(first, p);
      if r.None? {
        RelStop(Split(first[p..]), Split(second[q..]));
        break;
      }
      var s := StrChrSep(second, q);
      if s.None? {
        RelStop(Split(first[p..]), Split(second[q..]));
        break;
      }
      if first[p..r.value] != second[q..s.value] {
        RelStop(Split(first[p..]), Split(second[q..]));
        break;
      }
      RelGo(first[p..r.value], Split(first[r.value + 1..]), Split(second[s.value + 1..]));
      p, q := r.value + 1, s.value + 1;
    }
  }

  lemma RelStop(a: seq<string>, b: seq<string>)
    requires !(|a| > 1 && |b| > 1 && a[0] == b[0])
    ensures Rel(a, b) == Ups(|a|) + Join(b)
  {
  }

  lemma RelGo(c: string, a: seq<string>, b: seq<string>)
    requires a != [] && b != []
    ensures Rel([c] + a, [c] + b) == Rel(a, b)
  {
    assert ([c] + a)[1..] == a && ([c] + b)[1..] == b;
  }

  /** The slashes that are left, plus one. */
  method CountPieces(first: string, from: nat) returns (n: nat)
    requires from <= |first|
    ensures n + 1 == |Split(first[from..])|
  {
    n := 0;
    var p := from;
    while true
      invariant from <= p <= |first| && n + |Split(first[p..])| == |Split(first[from..])|
      decreases |first| - p
    {
      hide Split;
      SplitFrom(first, p);
      var r := StrChrSep(first, p);
      if r.None? {
        break;
      }
      p := r.value + 1;
      n := n + 1;
    }
  }

  /** strcpy into the buffer, with the terminator. */
  method StrCpy(buf: array<char>, at: nat, s: string)
    requires at + |s| < buf.Length
    modifies buf
    ensures buf[..at] == old(buf[..at]) && buf[at..at + |s|] == s && buf[at + |s|] == NUL
  {
    for k := 0 to |s|
      invariant buf[..at] == old(buf[..at]) && buf[at..at + k] == s[..k]
    {
      buf[at + k] := s[k];
      assert buf[at..at + k + 1] == buf[at..at + k] + [s[k]];
    }
    buf[at + |s|] := NUL;
  }

  /** "../" once for every piece left of the first path, then what is left of the second. */
  method WriteRelative(buf: array<char>, n: nat, down: string)
    requires buf.Length == 3 * n + |down| + 1
    modifies buf
    ensures buf[..buf.Length - 1] == Ups(n) + down && buf[buf.Length - 1] == NUL
  {
    hide Ups;
    var p, i := 0, n;
    UpsStep(n);
    while i > 0
      invariant 0 <= i <= n && p == 3 * (n - i) && buf[..p] + Ups(i) == Ups(n)
    {
      ghost var done := buf[..p];
      StrCpy(buf, p, "../");
      UpsStep(i);
      Assoc(done, "../", Ups(i - 1));
      assert buf[..p + 3] == done + "../";
      i := i - 1;
      p := p + 3;
    }
    UpsStep(0);
    StrCpy(buf, p, down);
    assert buf[..buf.Length - 1] == buf[..p] + buf[p..p + |down|];
  }

  lemma UpsStep(n: nat)
    ensures Ups(n) == if n == 0 then "" else "../" + Ups(n - 1)
  {
  }

  /** The function goes through the same computation twice and keeps the first result
      unless the second is shorter. */
  method DiffTwoPaths(first: Option<string>, second: Option<string>) returns (ret: Option<string>)
    requires first.Some? ==> NUL !in first.value
    requires second.Some? ==> NUL !in second.value
    ensures ret.Some? <==> first.Some? && second.Some?
    ensures ret.Some? ==> ret.value == Rel(Split(first.value), Split(second.value))
  {
    hide Split, Rel;
    if first.None? || second.None? {
      return None;
    }
    var myFirst, mySecond := first.value, second.value;
    var prevLen, j := -1, 0;
    ret := None;
    while j < 2
      invariant 0 <= j <= 2
      invariant j > 0 ==> ret == Some(Rel(Split(myFirst), Split(mySecond)))
    {
      var p, q := SkipCommon(myFirst, mySecond);
      var i := CountPieces(myFirst, p);
      var down := mySecond[q..];
      var currLen := (i + 1) * 3 + |down| + 1;
      if j != 0 && currLen >= prevLen {
        return;
      }
      var buf := new char[currLen];
      prevLen := currLen;
      WriteRelative(buf, i + 1, down);
      UpsChars(i + 1);
      assert NUL !in Ups(i + 1) + down;
      TextIs(buf[..], Ups(i + 1) + down);
      ret := Some(Text(buf[..]));
      j := j + 1;
    }
  }

  lemma UpsChars(n: nat)
    ensures |Ups(n)| == 3 * n && NUL !in Ups(n)
  {
  }

  // ---------------------------------------------------------------- the result leads to the second path

  function DotDots(n: nat): seq<string>
  {
    if n == 0 then [] else [".."] + DotDots(n - 1)
  }

  lemma {:induction false} CompsUps(n: nat, x: string)
    ensures Comps(Ups(n) + x) == DotDots(n) + Comps(x)
  {
    if n == 0 {
      assert Ups(0) + x == x;
    } else {
      hide Comps;
      CompsUps(n - 1, x);
      var rest := Ups(n - 1) + x;
      assert Ups(n) + x == ".." + "/" + rest;
      CompsSlash("..", rest);
      CompsOne("..");
    }
  }

  ghost predicate Names(cs: seq<string>)
  {
    forall i :: 0 <= i < |cs| ==> IsName(cs[i]) && cs[i] != ".."
  }

  /** Going down some names and up as often leads back. */
  lemma {:induction false} DownAndUp(st: seq<string>, cs: seq<string>)
    requires Names(cs)
    ensures Walk(true, st, cs + DotDots(|cs|)) == st
    decreases |cs|
  {
    if cs == [] {
      assert cs + DotDots(0) == [];
    } else {
      var n := |cs| - 1;
      var front, c := cs[..n], cs[n];
      assert cs == front + [c];
      assert DotDots(|cs|) == [".."] + DotDots(n);
      Interleave(front, c, "..", DotDots(n));
      hide Walk, DotDots;
      DownAndUp(st, front);
      WalkConcat(true, st, front, [c, ".."] + DotDots(n));
      WalkConcat(true, Walk(true, st, front), [c, ".."], DotDots(n));
      WalkCancel(true, Walk(true, st, front), c);
      WalkConcat(true, st, front, DotDots(n));
    }
  }

  lemma Interleave<T>(front: seq<T>, c: T, d: T, rest: seq<T>)
    ensures (front + [c]) + ([d] + rest) == front + ([c, d] + rest)
  {
  }

  /** The pieces after the first slash of a canonical path: its names, or one empty piece. */
  ghost predicate Tail(ps: seq<string>)
  {
    ps == [""] || (ps != [] && Names(ps))
  }

  lemma TailNamed(ps: seq<string>)
    requires Tail(ps)
    ensures Named(ps) == if ps == [""] then [] else ps
    ensures Comps(Join(ps)) == Named(ps)
  {
    SplitJoin(ps);
    if ps == [""] {
      assert Named([""][1..]) == [];
    } else {
      NamedAll(ps);
    }
  }

  /** From the first path, the relative path leads to the second. */
  lemma {:induction false} RelLeads(st: seq<string>, a: seq<string>, b: seq<string>)
    requires Tail(a) && Tail(b) && (a == [""] ==> st == [])
    ensures Walk(true, st, Named(a) + Comps(Rel(a, b))) == Walk(true, st, Named(b))
    decreases |a|
  {
    hide Comps, Named, Walk, Join;
    TailNamed(a);
    TailNamed(b);
    if |a| > 1 && |b| > 1 && a[0] == b[0] {
      var c, a', b' := a[0], a[1..], b[1..];
      assert a'[0] == a[1];
      RelLeads(st + [c], a', b');
      TailNamed(a');
      TailNamed(b');
      assert a + Comps(Rel(a, b)) == [c] + (a' + Comps(Rel(a', b')));
      assert b == [c] + b';
      WalkName(st, c, a' + Comps(Rel(a', b')));
      WalkName(st, c, b');
    } else {
      CompsUps(|a|, Join(b));
      if a == [""] {
        WalkUpAtRoot(Named(b));
      } else {
        DownAndUp(st, a);
        WalkConcat(true, st, a + DotDots(|a|), Named(b));
        assert a + (DotDots(|a|) + Named(b)) == a + DotDots(|a|) + Named(b);
      }
    }
  }

  lemma WalkName(st: seq<string>, c: string, cs: seq<string>)
    requires c != ".."
    ensures Walk(true, st, [c] + cs) == Walk(true, st + [c], cs)
  {
    assert ([c] + cs)[1..] == cs;
  }

  lemma WalkUpAtRoot(cs: seq<string>)
    ensures Walk(true, [], [] + (DotDots(1) + cs)) == Walk(true, [], cs)
  {
    assert DotDots(1) == [".."] + DotDots(0);
    assert [] + (DotDots(1) + cs) == [".."] + cs;
    WalkDotDotAtRoot(cs);
  }

  // ---------------------------------------------------------------- the theorem

  /** What resolve_symlinks delivers: an absolute path that canonicalizing leaves alone. */
  ghost predicate Resolved(t: string)
  {
    IsAbs(t) && Canonical(t) == t
  }

  ghost function Unc(t: string): string
  {
    t[..UncLen(t)]
  }

  ghost function Local(t: string): string
  {
    t[UncLen(t)..]
  }

  /** Following diff from a. */
  ghost function Follow(a: string, b: string): string
  {
    a + "/" + Rel(Split(a), Split(b))
  }

  lemma {:induction false} RelPrefix(p: seq<string>, a: seq<string>, b: seq<string>)
    requires a != [] && b != []
    ensures Rel(p + a, p + b) == Rel(a, b)
    decreases |p|
  {
    if p == [] {
      assert p + a == a && p + b == b;
    } else {
      HeadTail(p, a);
      HeadTail(p, b);
      RelGo(p[0], p[1..] + a, p[1..] + b);
      RelPrefix(p[1..], a, b);
    }
  }

  lemma LocalPieces(la: string)
    requires IsAbs(la) && Normal(la) == la
    ensures Tail(Split(la[1..]))
    ensures Named(Split(la[1..])) == Comps(la)
    ensures Walk(true, [], Comps(la)) == Meaning(la)
  {
    hide Named, Walk;
    var st := Meaning(la);
    MeaningGood(la);
    assert la == "/" + Join(st);
    assert la[1..] == Join(st);
    CompsLeadingSlash(Join(st));
    if st == [] {
      SplitNoSlash("");
    } else {
      SplitJoin(st);
    }
  }

  lemma ResolvedLocal(t: string)
    requires Resolved(t)
    ensures Normal(Local(t)) == Local(t) && IsAbs(Local(t))
    ensures t == Unc(t) + Local(t) == Unc(t) + "/" + Local(t)[1..]
    ensures Split(t) == Split(Unc(t)) + Split(Local(t)[1..])
  {
    hide Split, Normal;
    var n := UncLen(t);
    CanonicalUnc(t);
    assert t == Unc(t) + Local(t);
    assert IsAbs(Local(t)) by {
      assert n > 0 ==> t[n] == t[2..][n - 2];
    }
    assert Local(t) == "/" + Local(t)[1..];
    assert t == Unc(t) + "/" + Local(t)[1..];
    SplitSlash(Unc(t), Local(t)[1..]);
  }

  lemma FollowUnc(a: string, d: string)
    requires Resolved(a) && a != "/"
    ensures UncLen(a + "/" + d) == UncLen(a)
  {
    hide Normal, Canonical;
    ResolvedLocal(a);
    var r, n, rest := a + "/" + d, UncLen(a), Local(a)[1..];
    GroupTail(Unc(a), rest, d);
    assert r == Unc(a) + ("/" + (rest + "/" + d));
    if n > 0 {
      var server := a[2..][..n - 2];
      assert Unc(a) == "//" + server;
      UncShape(server, rest + "/" + d);
    } else {
      assert Local(a) == a;
      CanonicalNoDoubleAbs(a);
      assert r[1] == a[1];
    }
  }

  lemma GroupTail(x: string, y: string, z: string)
    ensures (x + "/" + y) + "/" + z == x + ("/" + (y + "/" + z))
  {
    assert x + "/" + y == x + ("/" + y);
    assert ("/" + y) + "/" + z == "/" + (y + "/" + z);
  }

  lemma CanonicalNoDoubleAbs(a: string)
    requires Normal(a) == a && IsAbs(a)
    ensures !DoubleAt(a, 0)
  {
    MeaningGood(a);
    PrintNoDouble(true, Meaning(a));
  }

  lemma LocalFollow(la: string, lb: string, d: string)
    requires IsAbs(la) && Normal(la) == la && IsAbs(lb) && Normal(lb) == lb
    requires d == Rel(Split(la[1..]), Split(lb[1..]))
    ensures Normal(la + "/" + d) == lb
  {
    hide Named, Walk, Comps, Print, Rel, Split;
    LocalPieces(la);
    LocalPieces(lb);
    RelLeads([], Split(la[1..]), Split(lb[1..]));
    CompsSlash(la, d);
    assert IsAbs(la + "/" + d);
  }

  lemma FollowSameUnc(a: string, b: string)
    requires Resolved(a) && Resolved(b) && a != "/" && Unc(a) == Unc(b)
    ensures Canonical(Follow(a, b)) == b
  {
    hide Normal, Canonical, Split, Rel;
    ResolvedLocal(a);
    ResolvedLocal(b);
    RelPrefix(Split(Unc(a)), Split(Local(a)[1..]), Split(Local(b)[1..]));
    var d, r, n := Rel(Split(a), Split(b)), Follow(a, b), UncLen(a);
    FollowUnc(a, d);
    LocalFollow(Local(a), Local(b), d);
    assert r == Unc(a) + (Local(a) + "/" + d);
    CanonicalUnc(r);
    assert r[..n] == Unc(a) && r[n..] == Local(a) + "/" + d;
    CanonicalOf(r);
  }

  lemma CanonicalOf(t: string)
    requires t != ""
    ensures Canonical(t) == Unc(t) + Normal(Local(t))
  {
  }

  /** From "/" the glued path starts with two slashes, so ".." is taken for a server name. */
  lemma FollowFromRoot(b: string)
    requires Resolved(b)
    ensures Unc(Follow("/", b)) == "//.."
    ensures Unc(b) == "//.." ==> Canonical(Follow("/", b)) == b
  {
    hide Normal, Canonical, Split, Rel, Join;
    ResolvedLocal(b);
    SplitSlash("", "");
    SplitNoSlash("");
    assert "" + "/" + "" == "/";
    var rest := Split(b)[1..];
    assert Split(b)[0] == "" && rest != [] by {
      SplitFirst(b);
    }
    assert Split(b) == [""] + rest;
    assert Split("/") == [""] + [""];
    RelGo("", [""], rest);
    RelRoot(rest);
    var d := Rel(Split("/"), Split(b));
    assert d == "../" + Join(rest);
    var r := Follow("/", b);
    assert r == "//" + ".." + ("/" + Join(rest));
    UncShape("..", Join(rest));
    assert r[4..] == "/" + Join(rest);
    if Unc(b) == "//.." {
      JoinSplit(b);
      JoinCons("", rest);
      assert b == "" + "/" + Join(rest);
      assert b[1..] == Join(rest);
      assert b[1..] == "/" + ".." + Local(b);
      FollowUncRoot(Local(b));
      CanonicalOf(r);
    }
  }

  lemma SplitFirst(t: string)
    requires IsAbs(t)
    ensures Split(t)[0] == "" && |Split(t)| > 1
  {
    SplitCons("", t[1..]);
    assert t == "" + "/" + t[1..];
  }

  lemma RelRoot(rest: seq<string>)
    requires rest != []
    ensures Rel([""], rest) == "../" + Join(rest)
  {
    assert Ups(1) == "../" + Ups(0);
  }

  lemma FollowUncRoot(lb: string)
    requires Normal(lb) == lb && IsAbs(lb)
    ensures Normal("/" + ("/" + ".." + lb)) == lb
  {
    hide Comps, Walk, Print;
    var x := ".." + "/" + lb[1..];
    assert "/" + ("/" + ".." + lb) == "/" + ("/" + x);
    CompsLeadingSlash("/" + x);
    CompsLeadingSlash(x);
    CompsSlash("..", lb[1..]);
    CompsOne("..");
    assert lb == "/" + lb[1..];
    CompsLeadingSlash(lb[1..]);
    WalkDotDotAtRoot(Comps(lb));
  }

  /** Canonicalizing a + "/" + diff gives b exactly when both paths have the same UNC part,
      where "/" counts as if its UNC part were "//..": gluing a slash and ".." to it makes one. */
  lemma DiffIsRight(a: string, b: string)
    requires Resolved(a) && Resolved(b)
    ensures Canonical(Follow(a, b)) == b <==> Unc(b) == if a == "/" then "//.." else Unc(a)
  {
    hide Normal, Canonical, Split, Rel;
    var r := Follow(a, b);
    CanonicalUnc(r);
    if a == "/" {
      FollowFromRoot(b);
    } else {
      FollowUnc(a, Rel(Split(a), Split(b)));
      assert Unc(r) == Unc(a);
      if Unc(a) == Unc(b) {
        FollowSameUnc(a, b);
      }
    }
  }

  /** In particular it fails from the root directory to any path without a UNC part. */
  lemma DiffFromRootFails(b: string)
    requires Resolved(b) && UncLen(b) == 0
    ensures Canonical(Follow("/", b)) != b && Resolved("/")
  {
    OneCharNormal("/");
    CanonicalLocal("/");
    DiffIsRight("/", b);
  }
}
