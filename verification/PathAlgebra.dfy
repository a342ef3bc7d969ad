/**
 The mathematics behind the path functions: a path is a list of components
 separated by slashes, and its normal form is what a stack machine leaves after
 reading them from left to right.
 */
module PathAlgebra {
  import opened Options

  ghost predicate FirstSlash(t: string, k: nat)
  {
    k <= |t| && '/' !in t[..k] && (k < |t| ==> t[k] == '/')
  }

  lemma FirstSlashExists(t: string)
    ensures exists k: nat :: FirstSlash(t, k)
  {
    var k: nat := 0;
    while k < |t| && t[k] != '/'
      invariant k <= |t| && '/' !in t[..k]
    {
      k := k + 1;
    }
    assert FirstSlash(t, k);
  }

  /** Where the first slash is, or the length of the text when it has none. */
  ghost function SlashAt(t: string): (k: nat)
    ensures FirstSlash(t, k)
  {
    FirstSlashExists(t);
    var k: nat :| FirstSlash(t, k);
    k
  }

  /** The pieces between slashes; a text without a slash is one piece. */
  ghost function Split(t: string): (ps: seq<string>)
    ensures |ps| > 0
    decreases |t|
  {
    var k := SlashAt(t);
    if k == |t| then [t] else [t[..k]] + Split(t[k + 1..])
  }

  /** The pieces with slashes put between them. */
  ghost function Join(ps: seq<string>): string
  {
    if ps == [] then ""
    else if |ps| == 1 then ps[0]
    else ps[0] + "/" + Join(ps[1..])
  }

  /** Empty pieces and "." name nothing. */
  ghost function Named(ps: seq<string>): seq<string>
  {
    if ps == [] then []
    else (if ps[0] == "" || ps[0] == "." then [] else [ps[0]]) + Named(ps[1..])
  }

  ghost function Comps(t: string): seq<string>
  {
    Named(Split(t))
  }

  predicate IsAbs(t: string)
  {
    t != "" && t[0] == '/'
  }

  /** One step of the stack machine: ".." drops the top component if it can. */
  ghost function Push(abs: bool, stack: seq<string>, c: string): seq<string>
  {
    if c != ".." then stack + [c]
    else if stack != [] && stack[|stack| - 1] != ".." then stack[..|stack| - 1]
    else if abs then stack
    else stack + [".."]
  }

  ghost function Walk(abs: bool, stack: seq<string>, cs: seq<string>): seq<string>
    decreases |cs|
  {
    if cs == [] then stack else Walk(abs, Push(abs, stack, cs[0]), cs[1..])
  }

  ghost function Print(abs: bool, stack: seq<string>): string
  {
    if abs then "/" + Join(stack) else if stack == [] then "." else Join(stack)
  }

  /** What the path names, as a stack of components. */
  ghost function Meaning(t: string): seq<string>
  {
    Walk(IsAbs(t), [], Comps(t))
  }

  /** The normal form of a non-empty path. */
  ghost function Normal(t: string): string
  {
    Print(IsAbs(t), Meaning(t))
  }

  ghost predicate IsName(c: string)
  {
    c != "" && c != "." && '/' !in c
  }

  /** The stacks that normal forms are printed from. */
  ghost predicate GoodStack(abs: bool, st: seq<string>)
  {
    && (forall i :: 0 <= i < |st| ==> IsName(st[i]))
    && (forall i :: 0 <= i < |st| && st[i] == ".." ==> !abs && (i == 0 || st[i - 1] == ".."))
  }

  // ---------------------------------------------------------------- Split and Join

  lemma FirstSlashUnique(t: string, i: nat, j: nat)
    requires FirstSlash(t, i) && FirstSlash(t, j)
    ensures i == j
  {
    BeforeSlash(t, i);
    BeforeSlash(t, j);
  }

  lemma BeforeSlash(t: string, k: nat)
    requires FirstSlash(t, k)
    ensures forall m :: 0 <= m < k ==> t[m] != '/'
  {
    forall m | 0 <= m < k ensures t[m] != '/' {
      assert t[..k][m] == t[m];
    }
  }

  lemma SlashAtConcat(x: string, y: string)
    requires '/' !in x
    ensures SlashAt(x + "/" + y) == |x|
  {
    var t := x + "/" + y;
    assert t[..|x|] == x;
    FirstSlashUnique(t, SlashAt(t), |x|);
  }

  lemma SplitNoSlash(x: string)
    requires '/' !in x
    ensures Split(x) == [x]
  {
    assert x[..|x|] == x;
    FirstSlashUnique(x, SlashAt(x), |x|);
  }

  lemma SplitCons(c: string, y: string)
    requires '/' !in c
    ensures Split(c + "/" + y) == [c] + Split(y)
  {
    SlashAtConcat(c, y);
    var t := c + "/" + y;
    assert t[..|c|] == c && t[|c| + 1..] == y;
  }

  /** A slash always separates: splitting commutes with putting one between two texts. */
  lemma {:induction false} SplitSlash(x: string, y: string)
    ensures Split(x + "/" + y) == Split(x) + Split(y)
    decreases |x|
  {
    hide Split;
    var k := SlashAt(x);
    if k == |x| {
      assert x[..k] == x;
      SplitNoSlash(x);
      SplitCons(x, y);
    } else {
      var c, rest := x[..k], x[k + 1..];
      assert x == c + "/" + rest;
      assert x + "/" + y == c + "/" + (rest + "/" + y);
      SplitCons(c, rest + "/" + y);
      SplitCons(c, rest);
      SplitSlash(rest, y);
    }
  }

  lemma JoinCons(c: string, ps: seq<string>)
    requires ps != []
    ensures Join([c] + ps) == c + "/" + Join(ps)
  {
    assert ([c] + ps)[1..] == ps;
  }

  lemma {:induction false} JoinSplit(t: string)
    ensures Join(Split(t)) == t
    decreases |t|
  {
    hide Split, Join;
    var k := SlashAt(t);
    if k == |t| {
      assert t[..k] == t;
      SplitNoSlash(t);
      JoinOne(t);
    } else {
      var c, rest := t[..k], t[k + 1..];
      assert t == c + "/" + rest;
      SplitCons(c, rest);
      JoinCons(c, Split(rest));
      JoinSplit(rest);
    }
  }

  lemma JoinOne(c: string)
    ensures Join([c]) == c
  {
  }

  lemma {:induction false} SplitJoin(ps: seq<string>)
    requires ps != [] && forall i :: 0 <= i < |ps| ==> '/' !in ps[i]
    ensures Split(Join(ps)) == ps
  {
    SplitNoSlash(ps[0]);
    if |ps| > 1 {
      SplitJoin(ps[1..]);
      SplitSlash(ps[0], Join(ps[1..]));
      assert ps == [ps[0]] + ps[1..];
    } else {
      assert ps == [ps[0]];
    }
  }

  lemma {:induction false} JoinConcat(xs: seq<string>, ys: seq<string>)
    requires xs != [] && ys != []
    ensures Join(xs + ys) == Join(xs) + "/" + Join(ys)
    decreases |xs|
  {
    assert (xs + ys)[1..] == xs[1..] + ys;
    if |xs| > 1 {
      JoinConcat(xs[1..], ys);
    } else {
      assert xs[1..] + ys == ys;
    }
  }

  lemma {:induction false} SplitPieces(t: string, i: nat)
    requires i < |Split(t)|
    ensures '/' !in Split(t)[i]
    decreases |t|
  {
    var k := SlashAt(t);
    if k < |t| && i > 0 {
      SplitPieces(t[k + 1..], i - 1);
    } else if k == |t| {
      assert t[..k] == t;
    }
  }

  // ---------------------------------------------------------------- components

  lemma HeadTail<T>(ps: seq<T>, qs: seq<T>)
    requires ps != []
    ensures ps == [ps[0]] + ps[1..]
    ensures ps + qs == [ps[0]] + (ps[1..] + qs)
  {
  }

  lemma NamedCons(p: string, ps: seq<string>)
    ensures Named([p] + ps) == (if p == "" || p == "." then [] else [p]) + Named(ps)
  {
    assert ([p] + ps)[1..] == ps;
  }

  lemma {:induction false} NamedConcat(ps: seq<string>, qs: seq<string>)
    ensures Named(ps + qs) == Named(ps) + Named(qs)
    decreases |ps|
  {
    if ps == [] {
      assert ps + qs == qs;
    } else {
      hide Named;
      HeadTail(ps, qs);
      NamedConcat(ps[1..], qs);
      NamedCons(ps[0], ps[1..]);
      NamedCons(ps[0], ps[1..] + qs);
    }
  }

  lemma CompsSlash(x: string, y: string)
    ensures Comps(x + "/" + y) == Comps(x) + Comps(y)
  {
    SplitSlash(x, y);
    NamedConcat(Split(x), Split(y));
  }

  lemma CompsOne(c: string)
    requires '/' !in c
    ensures Comps(c) == if c == "" || c == "." then [] else [c]
  {
    SplitNoSlash(c);
    assert Named([c][1..]) == [];
    assert Comps(c) == Named([c]);
  }

  lemma {:induction false} NamedNames(ps: seq<string>)
    requires forall i :: 0 <= i < |ps| ==> '/' !in ps[i]
    ensures forall i :: 0 <= i < |Named(ps)| ==> IsName(Named(ps)[i])
  {
    if ps != [] {
      NamedNames(ps[1..]);
    }
  }

  lemma CompsNames(t: string)
    ensures forall i :: 0 <= i < |Comps(t)| ==> IsName(Comps(t)[i])
  {
    forall i | 0 <= i < |Split(t)| ensures '/' !in Split(t)[i] {
      SplitPieces(t, i);
    }
    NamedNames(Split(t));
  }

  lemma {:induction false} NamedAll(ps: seq<string>)
    requires forall i :: 0 <= i < |ps| ==> IsName(ps[i])
    ensures Named(ps) == ps
  {
    if ps != [] {
      NamedAll(ps[1..]);
    }
  }

  // ---------------------------------------------------------------- the stack machine

  lemma {:induction false} WalkConcat(abs: bool, st: seq<string>, cs: seq<string>, ds: seq<string>)
    ensures Walk(abs, st, cs + ds) == Walk(abs, Walk(abs, st, cs), ds)
    decreases |cs|
  {
    if cs == [] {
      assert cs + ds == ds;
    } else {
      WalkConcat(abs, Push(abs, st, cs[0]), cs[1..], ds);
      assert (cs + ds)[1..] == cs[1..] + ds;
    }
  }

  lemma {:induction false} WalkGood(abs: bool, st: seq<string>, cs: seq<string>)
    requires GoodStack(abs, st) && forall i :: 0 <= i < |cs| ==> IsName(cs[i])
    ensures GoodStack(abs, Walk(abs, st, cs))
    decreases |cs|
  {
    if cs != [] {
      WalkGood(abs, Push(abs, st, cs[0]), cs[1..]);
    }
  }

  /** A good stack is a fixed point: reading its components rebuilds it. */
  lemma {:induction false} WalkOfGood(abs: bool, st: seq<string>, k: nat)
    requires GoodStack(abs, st) && k <= |st|
    ensures Walk(abs, st[..k], st[k..]) == st
    decreases |st| - k
  {
    if k < |st| {
      assert Push(abs, st[..k], st[k]) == st[..k + 1];
      assert st[k..][1..] == st[k + 1..];
      WalkOfGood(abs, st, k + 1);
    }
  }

  lemma WalkCancel(abs: bool, st: seq<string>, tok: string)
    requires tok != ".."
    ensures Walk(abs, st, [tok, ".."]) == st
  {
    assert Push(abs, st, tok) == st + [tok];
    assert Push(abs, st + [tok], "..") == st;
    assert [tok, ".."][1..] == [".."];
    assert [".."][1..] == [];
  }

  lemma MeaningGood(t: string)
    ensures GoodStack(IsAbs(t), Meaning(t))
  {
    CompsNames(t);
    WalkGood(IsAbs(t), [], Comps(t));
  }

  lemma JoinStart(st: seq<string>)
    requires st != [] && st[0] != ""
    ensures Join(st) != "" && Join(st)[0] == st[0][0]
  {
  }

  lemma CompsLeadingSlash(x: string)
    ensures Comps("/" + x) == Comps(x)
  {
    hide Comps;
    CompsOne("");
    CompsSlash("", x);
    assert "" + "/" + x == "/" + x;
  }

  lemma CompsJoin(st: seq<string>)
    requires forall i :: 0 <= i < |st| ==> IsName(st[i])
    ensures Comps(Join(st)) == st
  {
    if st == [] {
      CompsOne("");
    } else {
      SplitJoin(st);
      NamedAll(st);
    }
  }

  lemma WalkPrinted(abs: bool, st: seq<string>)
    requires GoodStack(abs, st)
    ensures Walk(abs, [], st) == st
  {
    assert st[..0] == [] && st[0..] == st;
    WalkOfGood(abs, st, 0);
  }

  /** Printing a good stack and reading it back loses nothing. */
  lemma CompsPrint(abs: bool, st: seq<string>)
    requires GoodStack(abs, st)
    ensures Print(abs, st) != "" && IsAbs(Print(abs, st)) == abs
    ensures Comps(Print(abs, st)) == st
    ensures Meaning(Print(abs, st)) == st
  {
    CompsJoin(st);
    CompsLeadingSlash(Join(st));
    CompsOne(".");
    WalkPrinted(abs, st);
    if st != [] {
      JoinStart(st);
    }
  }

  /** Normalizing is idempotent, keeps absoluteness and keeps the meaning. */
  lemma NormalFixed(t: string)
    ensures Normal(t) != "" && IsAbs(Normal(t)) == IsAbs(t)
    ensures Meaning(Normal(t)) == Meaning(t)
    ensures Normal(Normal(t)) == Normal(t)
  {
    MeaningGood(t);
    CompsPrint(IsAbs(t), Meaning(t));
  }

  /** Two paths that read as the same stack have the same normal form, and only those. */
  lemma NormalIff(t: string, u: string)
    ensures Normal(t) == Normal(u) <==> IsAbs(t) == IsAbs(u) && Meaning(t) == Meaning(u)
  {
    NormalFixed(t);
    NormalFixed(u);
  }

  /** strchr (s + from, PATH_SEP): where the next slash is, if there is one. */
  method StrChrSep(s: string, from: nat) returns (r: Option<nat>)
    requires from <= |s|
    ensures r.None? <==> SlashAt(s[from..]) == |s| - from
    ensures r.Some? ==> r.value == from + SlashAt(s[from..]) < |s|
  {
    var i := from;
    while i < |s| && s[i] != '/'
      invariant from <= i <= |s| && forall k :: from <= k < i ==> s[k] != '/'
    {
      i := i + 1;
    }
    FirstSlashFrom(s, from, i);
    r := if i < |s| then Some(i) else None;
  }

  lemma FirstSlashFrom(s: string, from: nat, i: nat)
    requires from <= i <= |s| && (forall k :: from <= k < i ==> s[k] != '/') && (i < |s| ==> s[i] == '/')
    ensures SlashAt(s[from..]) == i - from
  {
    var t := s[from..];
    var head := t[..i - from];
    forall k | 0 <= k < |head| ensures head[k] != '/' {
      assert head[k] == s[from + k];
    }
    FirstSlashUnique(t, SlashAt(t), i - from);
  }
}
