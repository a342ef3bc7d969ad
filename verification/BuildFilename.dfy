/**
 mc_build_filenamev (lib/utilunix.c): path elements are canonicalized one by one, glued
 with slashes and canonicalized again.
 */
module BuildFilename {
  import opened Options
  import opened PathAlgebra
  import opened CString
  import opened CanonicalPath
  import opened Canonicalize

  /** How an element after the first enters the result: an absolute one is resolved at its own root. */
  ghost function Relative(e: string): string
  {
    if IsAbs(e) then Canonical(e)[1..] else e
  }

  /** The elements put together without normalizing them. */
  ghost function Glued(es: seq<string>): string
    requires es != []
    decreases |es|
  {
    if |es| == 1 then es[0] else Glued(es[..|es| - 1]) + "/" + Relative(es[|es| - 1])
  }

  ghost predicate Plain(es: seq<string>)
  {
    forall i :: 0 <= i < |es| ==> NUL !in es[i] && ':' !in es[i]
  }

  // ---------------------------------------------------------------- texts without a colon

  lemma {:induction false} CompsChars(t: string, x: char)
    requires x !in t
    ensures forall i :: 0 <= i < |Comps(t)| ==> x !in Comps(t)[i]
    decreases |t|
  {
    var k := SlashAt(t);
    if k == |t| {
      assert t[..k] == t;
      CompsOne(t);
    } else {
      CompsAt(t, k);
      CompsOne(t[..k]);
      CompsChars(t[k + 1..], x);
    }
  }

  lemma {:induction false} WalkChars(abs: bool, st: seq<string>, cs: seq<string>, x: char)
    requires x != '.'
    requires forall i :: 0 <= i < |st| ==> x !in st[i]
    requires forall i :: 0 <= i < |cs| ==> x !in cs[i]
    ensures forall i :: 0 <= i < |Walk(abs, st, cs)| ==> x !in Walk(abs, st, cs)[i]
    decreases |cs|
  {
    if cs != [] {
      WalkChars(abs, Push(abs, st, cs[0]), cs[1..], x);
    }
  }

  lemma {:induction false} JoinChars(ps: seq<string>, x: char)
    requires x != '/' && forall i :: 0 <= i < |ps| ==> x !in ps[i]
    ensures x !in Join(ps)
  {
    if |ps| > 1 {
      JoinChars(ps[1..], x);
    }
  }

  lemma NormalChars(t: string, x: char)
    requires x !in t && x != '.' && x != '/'
    ensures x !in Normal(t)
  {
    hide Comps, Walk, Join;
    CompsChars(t, x);
    WalkChars(IsAbs(t), [], Comps(t), x);
    JoinChars(Meaning(t), x);
  }

  lemma CanonicalChars(t: string, x: char)
    requires x !in t && x != '.' && x != '/'
    ensures x !in Canonical(t)
  {
    NormalChars(t[UncLen(t)..], x);
  }

  lemma NoColonClean(t: string)
    requires ':' !in t
    ensures Clean(t)
  {
    hide Comps;
    var local := t[UncLen(t)..];
    CompsChars(local, ':');
    forall i ensures !UrlAt(t, i) {
      assert 0 <= i < |t| ==> t[i] in t;
    }
    forall c | c in Comps(local) ensures !(ENCODING_PREFIX <= c) {
      assert ENCODING_PREFIX[4] == ':';
      assert |c| > 4 ==> c[4] in c;
    }
  }

  // ---------------------------------------------------------------- normalizing a part first

  /** Reading the normal form of a relative part is reading the part. */
  lemma {:induction false} WalkThrough(abs: bool, st: seq<string>, acc: seq<string>, cs: seq<string>)
    requires GoodStack(false, acc) && forall i :: 0 <= i < |cs| ==> IsName(cs[i])
    ensures Walk(abs, st, Walk(false, acc, cs)) == Walk(abs, Walk(abs, st, acc), cs)
    decreases |cs|
  {
    if cs != [] {
      var c := cs[0];
      WalkThrough(abs, st, Push(false, acc, c), cs[1..]);
      PushThrough(abs, st, acc, c);
    }
  }

  lemma PushThrough(abs: bool, st: seq<string>, acc: seq<string>, c: string)
    ensures Walk(abs, st, Push(false, acc, c)) == Push(abs, Walk(abs, st, acc), c)
  {
    if c == ".." && acc != [] && acc[|acc| - 1] != ".." {
      var n := |acc| - 1;
      assert acc == acc[..n] + [acc[n]];
      WalkConcat(abs, st, acc[..n], [acc[n]]);
      WalkOne(abs, Walk(abs, st, acc[..n]), acc[n]);
    } else {
      WalkConcat(abs, st, acc, [c]);
      WalkOne(abs, Walk(abs, st, acc), c);
    }
  }

  lemma WalkOne(abs: bool, st: seq<string>, c: string)
    ensures Walk(abs, st, [c]) == Push(abs, st, c)
  {
    assert [c][1..] == [];
  }

  /** Appending the normal form of a relative element means the same as appending the element. */
  lemma AppendNormal(abs: bool, st: seq<string>, e: string)
    requires e != "" && !IsAbs(e)
    ensures Walk(abs, st, Comps(Normal(e))) == Walk(abs, st, Comps(e))
  {
    hide Comps, Print, Walk;
    MeaningGood(e);
    CompsPrint(false, Meaning(e));
    CompsNames(e);
    WalkThrough(abs, st, [], Comps(e));
    WalkNothing(abs, st);
  }

  lemma WalkNothing(abs: bool, st: seq<string>)
    ensures Walk(abs, st, []) == st
  {
  }

  // ---------------------------------------------------------------- the loop

  /** No element after the first is a UNC path. */
  ghost predicate LocalTail(es: seq<string>)
  {
    forall i :: 0 < i < |es| ==> UncLen(es[i]) == 0
  }

  /** What the loop has put together after i elements; a slash is ready for the next one. */
  ghost predicate Built(es: seq<string>, i: nat, path: string)
    requires 1 <= i <= |es|
  {
    var u := UncLen(es[0]);
    && ':' !in path && u < |path| && path[..u] == es[0][..u]
    && (u == 0 ==> !DoubleAt(path, 0))
    && IsAbs(path[u..]) == IsAbs(es[0][u..])
    && u < |Glued(es[..i])| && IsAbs(Glued(es[..i])[u..]) == IsAbs(es[0][u..])
    && Meaning(path[u..]) == Meaning(Glued(es[..i])[u..])
    && (i < |es| ==> path[|path| - 1] == '/')
  }

  lemma {:induction false} GluedStart(es: seq<string>)
    requires es != []
    ensures es[0] <= Glued(es)
    decreases |es|
  {
    if |es| > 1 {
      GluedStart(es[..|es| - 1]);
    }
  }

  /** The slash that makes ready for the next element changes nothing. */
  function WithSlash(path: string, more: bool): string
  {
    if path != "" && path[|path| - 1] != '/' && more then path + "/" else path
  }

  lemma WithSlashKeeps(path: string, more: bool, u: nat)
    requires u < |path|
    ensures var r := WithSlash(path, more);
            r[..u] == path[..u] && u < |r| && IsAbs(r[u..]) == IsAbs(path[u..]) && Comps(r[u..]) == Comps(path[u..])
            && (!DoubleAt(path, 0) ==> !DoubleAt(r, 0)) && (more ==> r[|r| - 1] == '/')
  {
    hide Comps;
    var r := WithSlash(path, more);
    if r != path {
      TrailingSlashKeeps(r[u..]);
      assert r[u..][..|r[u..]| - 1] == path[u..];
    }
  }

  lemma BuiltFirst(es: seq<string>)
    requires es != [] && es[0] != "" && ':' !in es[0]
    ensures Built(es, 1, WithSlash(Canonical(es[0]), |es| > 1))
  {
    hide Comps, Walk, Canonical, Normal;
    var e, u := es[0], UncLen(es[0]);
    assert es[..1] == [e] && Glued([e]) == e;
    CanonicalUnc(e);
    CanonicalChars(e, ':');
    NormalFixed(e[u..]);
    if u == 0 {
      CanonicalNoDouble(e);
    }
    WithSlashKeeps(Canonical(e), |es| > 1, u);
    NoColonSlash(Canonical(e), |es| > 1);
  }

  lemma NoColonSlash(path: string, more: bool)
    requires ':' !in path
    ensures ':' !in WithSlash(path, more)
  {
  }

  lemma CanonicalNoDouble(e: string)
    requires e != "" && UncLen(e) == 0
    ensures !DoubleAt(Canonical(e), 0)
  {
    hide Comps, Walk, Print;
    CanonicalLocal(e);
    MeaningGood(e);
    PrintNoDouble(IsAbs(e), Meaning(e));
  }

  lemma GluedNext(es: seq<string>, i: nat)
    requires 1 <= i < |es|
    ensures Glued(es[..i + 1]) == Glued(es[..i]) + "/" + Relative(es[i])
  {
    hide Relative;
    var front := es[..i + 1];
    assert |front| == i + 1 && front[i] == es[i] && front[..i] == es[..i];
  }

  lemma BuiltSkip(es: seq<string>, i: nat, path: string)
    requires 1 <= i < |es| && Built(es, i, path) && es[i] == ""
    ensures Built(es, i + 1, path)
  {
    hide Comps, Walk;
    var u, g := UncLen(es[0]), Glued(es[..i]);
    GluedNext(es, i);
    assert (g + "/" + "")[u..] == g[u..] + "/" + "";
    CompsSlash(g[u..], "");
    CompsOne("");
    assert IsAbs(g[u..] + "/" + "") == IsAbs(g[u..]);
    assert Comps(g[u..]) + [] == Comps(g[u..]);
  }

  /** What the loop appends for an element. */
  function Start(c: string): string
  {
    if IsAbs(c) then c[1..] else c
  }

  lemma StartOf(e: string)
    requires e != "" && UncLen(e) == 0
    ensures Start(Canonical(e)) == if IsAbs(e) then Relative(e) else Normal(e)
    ensures !IsAbs(Start(Canonical(e)))
  {
    hide Comps, Walk, Print, Canonical;
    NormalFixed(e);
    CanonicalLocal(e);
    CanonicalNoDouble(e);
    assert !DoubleAt(Canonical(e), 0);
  }

  lemma StepMeaning(path: string, g: string, e: string)
    requires path != "" && path[|path| - 1] == '/' && g != "" && IsAbs(path) == IsAbs(g)
    requires Meaning(path) == Meaning(g) && e != "" && UncLen(e) == 0
    ensures Meaning(path + Start(Canonical(e))) == Meaning(g + "/" + Relative(e))
    ensures IsAbs(path + Start(Canonical(e))) == IsAbs(path)
  {
    hide Comps, Walk, Canonical, Normal;
    var n, s, abs := |path| - 1, Start(Canonical(e)), IsAbs(path);
    StartOf(e);
    CompsAt(path + s, n);
    assert (path + s)[..n] == path[..n] && (path + s)[n + 1..] == s;
    TrailingSlashKeeps(path);
    CompsSlash(g, Relative(e));
    assert IsAbs(g + "/" + Relative(e)) == IsAbs(g);
    WalkConcat(abs, [], Comps(path), Comps(s));
    WalkConcat(abs, [], Comps(g), Comps(Relative(e)));
    if !IsAbs(e) {
      AppendNormal(abs, Meaning(path), e);
    }
  }

  lemma BuiltStep(es: seq<string>, i: nat, path: string)
    requires 1 <= i < |es| && Built(es, i, path) && es[i] != "" && ':' !in es[i] && UncLen(es[i]) == 0
    ensures Built(es, i + 1, WithSlash(path + Start(Canonical(es[i])), i + 1 < |es|))
  {
    hide Comps, Walk, Canonical, Relative, Glued, WithSlash;
    var e, u, g := es[i], UncLen(es[0]), Glued(es[..i]);
    var r := path + Start(Canonical(e));
    GluedNext(es, i);
    assert (g + "/" + Relative(e))[u..] == g[u..] + "/" + Relative(e);
    CanonicalChars(e, ':');
    StepMeaning(path[u..], g[u..], e);
    StartOf(e);
    assert r[u..] == path[u..] + Start(Canonical(e));
    assert r[..u] == path[..u];
    assert u == 0 ==> !DoubleAt(r, 0);
    WithSlashKeeps(r, i + 1 < |es|, u);
    NoColonSlash(r, i + 1 < |es|);
  }

  /** Normalizing the parts first loses nothing, and only a UNC prefix that the gluing
      created or destroyed can make a difference. */
  lemma BuiltResult(es: seq<string>, path: string)
    requires es != [] && Built(es, |es|, path)
    ensures Canonical(path) == Canonical(Glued(es)) <==> UncLen(Glued(es)) == UncLen(es[0])
  {
    hide Comps, Walk, Print, Canonical, Glued, UncLen;
    var u, g := UncLen(es[0]), Glued(es);
    assert es[..|es|] == es;
    GluedStart(es);
    assert g[..|es[0]|][..u] == es[0][..u] && g[..|es[0]|][..u] == g[..u];
    BuiltUnc(es, path);
    CanonicalUnc(path);
    CanonicalUnc(g);
    CanonicalIs(path);
    CanonicalIs(g);
  }

  /** What the result is in every case: the UNC part of the first element, and the normal form of
      what the elements are glued to behind it. */
  lemma BuiltExact(es: seq<string>, path: string)
    requires es != [] && Built(es, |es|, path)
    ensures var u := UncLen(es[0]);
            u <= |Glued(es)| && Canonical(path) == es[0][..u] + Normal(Glued(es)[u..])
  {
    hide Comps, Walk, Print, Canonical, Glued, UncLen, Meaning, Normal;
    var u, g := UncLen(es[0]), Glued(es);
    assert es[..|es|] == es;
    BuiltUnc(es, path);
    CanonicalIs(path);
    NormalIff(path[u..], g[u..]);
  }

  lemma CanonicalIs(t: string)
    requires t != ""
    ensures Canonical(t) == t[..UncLen(t)] + Normal(t[UncLen(t)..])
  {
  }

  lemma BuiltUnc(es: seq<string>, path: string)
    requires es != [] && Built(es, |es|, path)
    ensures UncLen(path) == UncLen(es[0])
  {
    hide Glued, Meaning;
    var e, u := es[0], UncLen(es[0]);
    if u == 0 {
      assert !DoubleAt(path, 0);
    } else {
      var server := e[2..][..u - 2];
      assert e[..u] == "//" + server;
      assert path == path[..u] + path[u..];
      assert path[u..] == "/" + path[u..][1..] by {
        assert e[u] == e[2..][u - 2];
      }
      UncShape(server, path[u..][1..]);
    }
  }

  // ---------------------------------------------------------------- the function

  /** g_strdup and canonicalize_pathname on the copy. */
  method CanonicalCopy(element: string, remote: RemoteClass, supported: Supported) returns (r: string)
    requires NUL !in element
    ensures NUL !in r && |r| <= |element|
    ensures Clean(element) ==> r == Canonical(element)
  {
    var buf := new char[|element| + 1](i => if 0 <= i < |element| then element[i] else NUL);
    assert buf[..|element|] == element;
    assert buf[..][|element|] == NUL;
    TextIs(buf[..], element);
    CanonicalizePathname(buf, CANON_PATH_ALL, remote, supported);
    r := Text(buf[..]);
  }

  /** The elements are the arguments up to the terminating NULL. The C code looks at the last
      character of the path put together so far even when nothing has been put into it yet:
      before stands for the byte it finds then. */
  method MCBuildFilename(elements: seq<string>, before: char, remote: RemoteClass, supported: Supported)
    returns (ret: Option<string>)
    requires forall i :: 0 <= i < |elements| ==> NUL !in elements[i]
    ensures ret.None? <==> elements == []
    ensures elements != [] && elements[0] != "" && Plain(elements) && LocalTail(elements) ==>
              (ret.value == Canonical(Glued(elements)) <==> UncLen(Glued(elements)) == UncLen(elements[0]))
    ensures elements != [] && elements[0] != "" && Plain(elements) && LocalTail(elements) ==>
              var u := UncLen(elements[0]);
              u <= |Glued(elements)| && ret.value == elements[0][..u] + Normal(Glued(elements)[u..])
  {
    hide Normal, Built, Clean, Canonical, Glued;
    if elements == [] {
      return None;
    }
    ghost var domain := elements[0] != "" && Plain(elements) && LocalTail(elements);
    var absolute := elements[0] != "" && elements[0][0] == '/';
    var path := if absolute then "/" else "";
    var i := 0;
    while i < |elements|
      invariant 0 <= i <= |elements| && NUL !in path
      invariant i == 0 ==> path == if absolute then "/" else ""
      invariant i > 0 && domain ==> Built(elements, i, path)
    {
      var element := elements[i];
      i := i + 1;
      if element == "" {
        if domain {
          BuiltSkip(elements, i - 1, path);
        }
      } else {
        var tmpElement := CanonicalCopy(element, remote, supported);
        if domain {
          NoColonClean(element);
        }
        var start := if tmpElement != "" && tmpElement[0] == '/' then tmpElement[1..] else tmpElement;
        assert start == Start(tmpElement);
        ghost var was := path;
        path := path + start;
        var last := if path == "" then before else path[|path| - 1];
        ghost var glued := path;
        if last != '/' && i < |elements| {
          path := path + "/";
        }
        if domain {
          if i == 1 {
            FirstStart(element);
            BuiltFirst(elements);
          } else {
            BuiltStep(elements, i - 1, was);
          }
          BuiltNonempty(elements, i, WithSlash(glued, i < |elements|));
          assert path == WithSlash(glued, i < |elements|);
        }
      }
    }
    var result := CanonicalCopy(path, remote, supported);
    if domain {
      BuiltResult(elements, path);
      BuiltExact(elements, path);
      BuiltNonempty(elements, |elements|, path);
      NoColonClean(path);
    }
    ret := Some(result);
  }

  lemma BuiltNonempty(es: seq<string>, i: nat, path: string)
    requires 1 <= i <= |es| && Built(es, i, path)
    ensures path != "" && ':' !in path
  {
  }

  lemma FirstStart(e: string)
    requires e != ""
    ensures (if IsAbs(e) then "/" else "") + Start(Canonical(e)) == Canonical(e)
    ensures Canonical(e) != ""
  {
    hide Comps, Walk, Print;
    NormalFixed(e[UncLen(e)..]);
    CanonicalUnc(e);
  }

  /** With relative elements the glued path is the plain concatenation with slashes. */
  lemma {:induction false} GluedRelative(es: seq<string>)
    requires es != [] && forall i :: 0 < i < |es| ==> !IsAbs(es[i])
    ensures Glued(es) == Join(es)
    decreases |es|
  {
    hide Join;
    var n := |es| - 1;
    JoinOne(es[n]);
    assert es[n..] == [es[n]] && es == es[..n] + es[n..];
    if n > 0 {
      GluedRelative(es[..n]);
      JoinConcat(es[..n], es[n..]);
    } else {
      assert es == [es[0]];
    }
  }

  lemma NormalOfNames(cs: seq<string>)
    requires forall i :: 0 <= i < |cs| ==> IsName(cs[i]) && cs[i] != ".."
    ensures Normal("/" + Join(cs)) == "/" + Join(cs) && Normal("//" + Join(cs)) == "/" + Join(cs)
  {
    hide Comps, Walk, Join;
    var t := "/" + Join(cs);
    assert t == Print(true, cs);
    CompsPrint(true, cs);
    assert "/" + t == "//" + Join(cs);
    CompsLeadingSlash(t);
  }

  lemma GluedRoot()
    ensures Glued(["/", "a", "b"]) == "//a/b" && Plain(["/", "a", "b"]) && LocalTail(["/", "a", "b"])
  {
    hide Join, Glued;
    var es := ["/", "a", "b"];
    GluedRelative(es);
    JoinCons("/", ["a", "b"]);
    JoinCons("a", ["b"]);
    JoinOne("b");
    assert es == ["/"] + ["a", "b"] && ["a", "b"] == ["a"] + ["b"];
    assert "/" + "/" + ("a" + "/" + "b") == "//a/b";
  }

  lemma NormalsOfAB()
    ensures Normal("//a/b") == "/a/b" && Normal("/b") == "/b"
  {
    hide Join, Normal;
    NormalOfNames(["a", "b"]);
    NormalOfNames(["b"]);
    JoinCons("a", ["b"]);
    JoinOne("b");
    assert ["a", "b"] == ["a"] + ["b"];
    assert "//" + ("a" + "/" + "b") == "//a/b" && "/" + ("a" + "/" + "b") == "/a/b" && "/" + "b" == "/b";
  }

  lemma CanonicalServerRoot()
    ensures UncLen("//a/b") == 3 && Canonical("//a/b") == "//a" + Normal("/b")
  {
    hide Normal, UncLen, Canonical;
    UncShape("a", "b");
    assert "//" + "a" + ("/" + "b") == "//a/b";
    CanonicalIs("//a/b");
    assert "//a/b" == "//a" + "/b";
  }

  /** The two differ already for the elements "/", "a" and "b". The function gives "/a/b"; but the
      elements are glued to "//a/b", and canonicalized at once this is the root of a server. */
  lemma RootFirstFails()
    ensures var es := ["/", "a", "b"];
            && Plain(es) && LocalTail(es) && UncLen(es[0]) == 0
            && Glued(es) == "//a/b" && es[0][..0] + Normal(Glued(es)[0..]) == "/a/b"
            && UncLen(Glued(es)) == 3 && Canonical(Glued(es)) == "//a/b"
  {
    hide Glued, Normal, Canonical, Plain, LocalTail;
    GluedRoot();
    NormalsOfAB();
    CanonicalServerRoot();
    assert "//a/b"[0..] == "//a/b" && "//a" + "/b" == "//a/b" && "" + "/a/b" == "/a/b";
  }
}
