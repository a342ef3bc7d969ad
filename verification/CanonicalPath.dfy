/**
 The specification of canonicalize_pathname_custom, the shapes its passes establish one
 after the other, and what each kind of edit does to the meaning of a path.
 */
module CanonicalPath {
  import opened PathAlgebra
  import opened Sequences

  const URL_DELIMITER := "://"
  const ENCODING_PREFIX := "#enc:"

  /** CANON_PATH_*: which passes run. */
  datatype Flags = Flags(joinSlashes: bool, remSlashDots: bool, remDoubleDots: bool, guardUnc: bool)

  const CANON_PATH_ALL := Flags(true, true, true, true)

  /** The virtual file system as seen from here: whether a prefix names a remote class. */
  type RemoteClass = string -> bool
  /** Whether the encoding named by an "#enc:" token is supported. */
  type Supported = string -> bool

  predicate HasAt(t: string, i: int, lit: string)
  {
    0 <= i && i + |lit| <= |t| && t[i..i + |lit|] == lit
  }

  /** The length of the "//server" part, 0 when the path is not a UNC path. */
  ghost function UncLen(t: string): (n: nat)
    ensures n == 0 || n < |t|
  {
    if |t| >= 2 && t[0] == '/' && t[1] == '/' then
      var k := SlashAt(t[2..]);
      if 0 < k && 2 + k < |t| then 2 + k else 0
    else 0
  }

  /** A server name between two slashes and a third one: nothing else is a UNC part. */
  lemma UncIs(t: string, server: string, rest: string)
    requires '/' !in server
    ensures UncLen("//" + server + ("/" + rest)) == if server == "" then 0 else 2 + |server|
    ensures UncLen("//" + server) == 0
    ensures !(|t| >= 2 && t[0] == '/' && t[1] == '/') ==> UncLen(t) == 0
  {
    var u, w := server + ("/" + rest), "//" + server + ("/" + rest);
    assert w[2..] == u && u[..|server|] == server;
    FirstSlashUnique(u, SlashAt(u), |server|);
    assert ("//" + server)[2..] == server && server[..|server|] == server;
    FirstSlashUnique(server, SlashAt(server), |server|);
  }

  /** The specification: the UNC part is kept, the rest is brought to normal form. */
  ghost function Canonical(t: string): string
  {
    if t == "" then "" else t[..UncLen(t)] + Normal(t[UncLen(t)..])
  }

  predicate UrlAt(t: string, i: int)
  {
    0 <= i && i + 3 <= |t| && t[i] == ':' && t[i + 1] == '/' && t[i + 2] == '/'
  }

  ghost predicate NoUrl(t: string)
  {
    forall i :: !UrlAt(t, i)
  }

  ghost predicate EncFree(cs: seq<string>)
  {
    forall c :: c in cs ==> !(ENCODING_PREFIX <= c)
  }

  /** No URL delimiter, and no component of the local part names an encoding. */
  ghost predicate Clean(t: string)
  {
    NoUrl(t) && EncFree(Comps(t[UncLen(t)..]))
  }

  // ---------------------------------------------------------------- shapes the passes establish

  predicate DoubleAt(t: string, i: int)
  {
    0 <= i && i + 2 <= |t| && t[i] == '/' && t[i + 1] == '/'
  }

  ghost predicate NoDouble(t: string)
  {
    forall i :: !DoubleAt(t, i)
  }

  predicate DotMidAt(t: string, i: int)
  {
    0 <= i && i + 3 <= |t| && t[i] == '/' && t[i + 1] == '.' && t[i + 2] == '/'
  }

  ghost predicate NoDotMid(t: string)
  {
    forall i :: !DotMidAt(t, i)
  }

  /** No empty or "." component is left, except that the whole path may be "/" or ".". */
  ghost predicate Tidy(t: string)
  {
    && t != ""
    && NoDouble(t)
    && NoDotMid(t)
    && !(|t| >= 2 && t[0] == '.' && t[1] == '/')
    && !(|t| >= 2 && t[|t| - 1] == '.' && t[|t| - 2] == '/')
    && (t[|t| - 1] == '/' ==> t == "/")
  }

  predicate DotDotAt(t: string, q: int)
  {
    && 0 <= q && q + 3 <= |t|
    && t[q] == '/' && t[q + 1] == '.' && t[q + 2] == '.'
    && (q + 3 == |t| || t[q + 3] == '/')
  }

  predicate DotDotBefore(t: string, q: int)
  {
    2 <= q <= |t| && t[q - 1] == '.' && t[q - 2] == '.' && (q == 2 || t[q - 3] == '/')
  }

  /** Every "/.." that starts before n follows another ".." component. */
  ghost predicate Reduced(t: string, n: int)
  {
    forall q :: 0 <= q < n && DotDotAt(t, q) ==> DotDotBefore(t, q)
  }

  // ---------------------------------------------------------------- tidy paths are printed stacks

  ghost predicate Tight(t: string)
  {
    Tidy(t) && t != "." && t[0] != '/'
  }

  /** What follows a slash inside a tidy path is tidy again, and does not start with a slash. */
  lemma TightTail(t: string, k: nat)
    requires Tidy(t) && k + 1 < |t| && t[k] == '/'
    ensures Tight(t[k + 1..])
  {
    var rest := t[k + 1..];
    assert !DoubleAt(t, k) && !DotMidAt(t, k);
    forall i ensures !DoubleAt(rest, i) && !DotMidAt(rest, i) {
      assert !DoubleAt(t, k + 1 + i) && !DotMidAt(t, k + 1 + i);
    }
  }

  lemma {:induction false} TightSplit(t: string)
    requires Tight(t)
    ensures Named(Split(t)) == Split(t)
    decreases |t|
  {
    var k := SlashAt(t);
    if k < |t| {
      TightTail(t, k);
      TightSplit(t[k + 1..]);
      assert t[..k][0] == t[0];
      assert Split(t)[1..] == Split(t[k + 1..]);
    } else {
      assert Split(t)[1..] == [];
    }
  }

  /** A tidy path is its own components, printed. */
  lemma TidyPrint(t: string)
    requires Tidy(t)
    ensures t == Print(IsAbs(t), Comps(t))
  {
    if t == "." {
      CompsOne(".");
    } else if t[0] != '/' {
      TightSplit(t);
      JoinSplit(t);
    } else {
      TidyPrintAbs(t);
    }
  }

  lemma TidyPrintAbs(t: string)
    requires Tidy(t) && t[0] == '/'
    ensures t == "/" + Join(Comps(t))
  {
    var rest := t[1..];
    assert t == "/" + rest;
    CompsLeadingSlash(rest);
    if rest == "" {
      CompsOne("");
    } else {
      TightTail(t, 0);
      TightSplit(rest);
      JoinSplit(rest);
    }
  }

  /** A ".." component that follows something sits at a "/.." of the printed path. */
  lemma DotDotComponent(lead: string, cs: seq<string>, i: nat)
    requires lead == "" || lead == "/"
    requires 0 < i < |cs| && cs[i] == ".." && IsName(cs[i - 1])
    ensures var t, q := lead + Join(cs), |lead + Join(cs[..i])|;
            DotDotAt(t, q) && (DotDotBefore(t, q) ==> cs[i - 1] == "..")
  {
    hide Join, DotDotAt, DotDotBefore;
    var before := lead + Join(cs[..i]);
    var tail := if i + 1 == |cs| then "" else "/" + Join(cs[i + 1..]);
    SplitAtDotDot(lead, cs, i);
    DotDotBetween(before, tail);
    if DotDotBefore(before, |before|) {
      LastComponent(lead, cs[..i]);
      DotDotSuffix(before, cs[i - 1]);
    }
  }

  lemma SplitAtDotDot(lead: string, cs: seq<string>, i: nat)
    requires 0 < i < |cs| && cs[i] == ".."
    ensures var tail := if i + 1 == |cs| then "" else "/" + Join(cs[i + 1..]);
            lead + Join(cs) == (lead + Join(cs[..i])) + "/.." + tail
  {
    hide Join;
    var head, back := cs[..i], cs[i..];
    var tail := if i + 1 == |cs| then "" else "/" + Join(cs[i + 1..]);
    assert back[1..] == cs[i + 1..];
    JoinHead(back);
    assert head + back == cs;
    JoinConcat(head, back);
    Regroup(lead, Join(head), tail);
  }

  lemma JoinHead(cs: seq<string>)
    requires cs != []
    ensures Join(cs) == cs[0] + (if |cs| == 1 then "" else "/" + Join(cs[1..]))
  {
    if |cs| > 1 {
      Assoc(cs[0], "/", Join(cs[1..]));
    }
  }

  lemma Regroup(x: string, y: string, z: string)
    ensures x + (y + "/" + (".." + z)) == (x + y) + "/.." + z
  {
    assert y + "/" + (".." + z) == y + "/.." + z;
  }

  lemma DotDotBetween(before: string, tail: string)
    requires tail == "" || tail[0] == '/'
    ensures var t := before + "/.." + tail;
            DotDotAt(t, |before|)
            && (DotDotBefore(t, |before|) <==> DotDotBefore(before, |before|))
  {
    var t := before + "/.." + tail;
    var q := |before|;
    assert forall j :: 0 <= j < q ==> t[j] == before[j];
    assert t[q..] == "/.." + tail;
    assert t[q] == t[q..][0] && t[q + 1] == t[q..][1] && t[q + 2] == t[q..][2];
    assert tail != "" ==> t[q + 3] == t[q..][3];
  }

  lemma LastComponent(lead: string, cs: seq<string>)
    requires cs != [] && (lead == "" || lead == "/")
    ensures var b := lead + Join(cs);
            var c := cs[|cs| - 1];
            |c| <= |b| && b[|b| - |c|..] == c && (|b| == |c| || b[|b| - |c| - 1] == '/')
  {
    hide Join;
    var n := |cs| - 1;
    JoinOne(cs[n]);
    assert cs[n..] == [cs[n]];
    if n > 0 {
      assert cs == cs[..n] + cs[n..];
      JoinConcat(cs[..n], cs[n..]);
    } else {
      assert cs == cs[n..];
    }
  }

  lemma DotDotSuffix(b: string, c: string)
    requires IsName(c) && |c| <= |b| && b[|b| - |c|..] == c
    requires |b| == |c| || b[|b| - |c| - 1] == '/'
    requires DotDotBefore(b, |b|)
    ensures c == ".."
  {
    var k := |b| - |c|;
    forall j | 0 <= j < |c| ensures b[k + j] == c[j] {}
    assert |c| < 3;
  }

  /** When no "/.." can be collapsed any more, the path is in normal form. */
  lemma ReducedNormal(t: string)
    requires Tidy(t) && Reduced(t, |t|)
    ensures t == Normal(t)
  {
    hide Comps, Join, Walk, DotDotBefore;
    var abs, cs := IsAbs(t), Comps(t);
    TidyPrint(t);
    CompsNames(t);
    var lead := if abs then "/" else "";
    if cs != [] {
      assert t == lead + Join(cs);
      forall i | 0 < i < |cs| && cs[i] == ".." ensures cs[i - 1] == ".." {
        DotDotComponent(lead, cs, i);
      }
      if abs && cs[0] == ".." {
        RootDotDot(cs);
      }
      NoDotDots(abs, cs, |cs|);
    }
    WalkPrinted(abs, cs);
  }

  lemma RootDotDot(cs: seq<string>)
    requires cs != [] && cs[0] == ".."
    ensures DotDotAt("/" + Join(cs), 0) && !DotDotBefore("/" + Join(cs), 0)
  {
    hide Join;
    JoinHead(cs);
    DotDotBetween("", if |cs| == 1 then "" else "/" + Join(cs[1..]));
  }

  lemma {:induction false} NoDotDots(abs: bool, cs: seq<string>, n: nat)
    requires 0 < n <= |cs| && (abs ==> cs[0] != "..")
    requires forall i :: 0 < i < |cs| && cs[i] == ".." ==> cs[i - 1] == ".."
    ensures abs ==> forall i :: 0 <= i < n ==> cs[i] != ".."
  {
    if n > 1 {
      NoDotDots(abs, cs, n - 1);
      assert cs[n - 1] == ".." ==> cs[n - 2] == "..";
    }
  }

  // ---------------------------------------------------------------- what one edit does

  /** Any slash separates the components before it from those after it. */
  lemma CompsAt(t: string, p: nat)
    requires p < |t| && t[p] == '/'
    ensures Comps(t) == Comps(t[..p]) + Comps(t[p + 1..])
  {
    hide Comps;
    assert t == t[..p] + "/" + t[p + 1..];
    CompsSlash(t[..p], t[p + 1..]);
  }

  /** Where slashes repeat, all but the first can go. */
  lemma {:induction false} JoinKeeps(t: string, p: nat, k: nat)
    requires p + 1 <= k <= |t| && forall i :: p <= i < k ==> t[i] == '/'
    ensures Comps(t[..p + 1] + t[k..]) == Comps(t)
    decreases k
  {
    hide Comps;
    var u := t[..p + 1] + t[k..];
    if k == p + 1 {
      assert t == u;
    } else {
      JoinKeeps(t, p, k - 1);
      var v := t[..p + 1] + t[k - 1..];
      CompsAt(v, p);
      assert v[..p] == t[..p] && v[p + 1..] == t[k - 1..];
      CompsAt(t[k - 1..], 0);
      assert t[k - 1..][..0] == "" && t[k - 1..][1..] == t[k..];
      CompsOne("");
      CompsAt(u, p);
      assert u[..p] == t[..p] && u[p + 1..] == t[k..];
    }
  }

  /** "/./" is "/". */
  lemma DotKeeps(t: string, p: nat)
    requires DotMidAt(t, p)
    ensures Comps(t[..p] + t[p + 2..]) == Comps(t)
  {
    hide Comps;
    var u := t[..p] + t[p + 2..];
    CompsAt(t, p);
    var v := t[p + 1..];
    CompsAt(v, 1);
    assert v[..1] == "." && v[2..] == t[p + 3..];
    CompsOne(".");
    CompsAt(u, p);
    assert u[..p] == t[..p] && u[p + 1..] == t[p + 3..];
  }

  /** A trailing slash names nothing. */
  lemma TrailingSlashKeeps(t: string)
    requires t != "" && t[|t| - 1] == '/'
    ensures Comps(t[..|t| - 1]) == Comps(t)
  {
    hide Comps;
    CompsAt(t, |t| - 1);
    CompsOne("");
    assert t[|t| - 1 + 1..] == "";
  }

  /** Nor does a trailing "/.". */
  lemma TrailingDotKeeps(t: string)
    requires |t| >= 2 && t[|t| - 1] == '.' && t[|t| - 2] == '/'
    ensures Comps(t[..|t| - 2]) == Comps(t)
  {
    hide Comps;
    CompsAt(t, |t| - 2);
    assert t[|t| - 1..] == ".";
    CompsOne(".");
  }

  /** Nor does a leading "./". */
  lemma LeadingDotKeeps(t: string)
    requires |t| >= 2 && t[0] == '.' && t[1] == '/'
    ensures Comps(t[2..]) == Comps(t)
  {
    hide Comps;
    CompsAt(t, 1);
    assert t[..1] == ".";
    CompsOne(".");
  }

  ghost function Front(t: string, s: nat): seq<string>
    requires s <= |t|
  {
    if s == 0 then [] else Comps(t[..s - 1])
  }

  ghost function Back(t: string, p: nat): seq<string>
    requires p + 3 <= |t|
  {
    if p + 3 == |t| then [] else Comps(t[p + 4..])
  }

  lemma DotDotComps(t: string, p: nat)
    requires DotDotAt(t, p)
    ensures Comps(t[p + 1..]) == [".."] + Back(t, p)
  {
    hide Comps;
    CompsOne("..");
    var w := t[p + 1..];
    assert w[..2] == "..";
    if p + 3 < |t| {
      CompsAt(w, 2);
      assert w[3..] == t[p + 4..];
    } else {
      assert w == "..";
    }
  }

  lemma TokenBack(t: string, s: nat, p: nat)
    requires DotDotAt(t, p) && s <= p && '/' !in t[s..p] && t[s..p] != "" && t[s..p] != "."
    ensures Comps(t[s..]) == [t[s..p]] + ([".."] + Back(t, p))
  {
    hide Comps;
    DotDotComps(t, p);
    CompsOne(t[s..p]);
    CompsAt(t[s..], p - s);
    assert t[s..][..p - s] == t[s..p] && t[s..][p - s + 1..] == t[p + 1..];
  }

  /** The components around a token that ends at a "/..". */
  lemma TokenComps(t: string, s: nat, p: nat)
    requires DotDotAt(t, p) && s <= p && '/' !in t[s..p] && t[s..p] != "" && t[s..p] != "."
    requires s == 0 || t[s - 1] == '/'
    ensures Comps(t) == Front(t, s) + [t[s..p], ".."] + Back(t, p)
  {
    hide Comps;
    TokenBack(t, s, p);
    var tok := t[s..p];
    assert [tok] + ([".."] + Back(t, p)) == [tok, ".."] + Back(t, p);
    if s == 0 {
      assert t[s..] == t;
    } else {
      CompsAt(t, s - 1);
    }
    assert Front(t, s) + ([tok, ".."] + Back(t, p)) == Front(t, s) + [tok, ".."] + Back(t, p);
  }

  lemma CollapsedComps(t: string, s: nat, p: nat)
    requires DotDotAt(t, p) && s <= p && p + 3 < |t|
    requires s == 0 || t[s - 1] == '/'
    ensures Comps(t[..s] + t[p + 4..]) == Front(t, s) + Back(t, p)
  {
    hide Comps;
    var u := t[..s] + t[p + 4..];
    if s == 0 {
      assert u == t[p + 4..];
    } else {
      CompsAt(u, s - 1);
      assert u[..s - 1] == t[..s - 1] && u[s..] == t[p + 4..];
    }
  }

  lemma CancelInside(abs: bool, front: seq<string>, tok: string, back: seq<string>)
    requires tok != ".."
    ensures Walk(abs, [], front + [tok, ".."] + back) == Walk(abs, [], front + back)
  {
    hide Walk;
    WalkConcat(abs, [], front + [tok, ".."], back);
    WalkConcat(abs, [], front, [tok, ".."]);
    WalkConcat(abs, [], front, back);
    WalkCancel(abs, Walk(abs, [], front), tok);
  }

  /** In a tidy path the token before "/.." is a name, unless the "/.." starts the path. */
  lemma TokenIsName(t: string, s: nat, p: nat)
    requires Tidy(t) && DotDotAt(t, p) && s <= p && '/' !in t[s..p]
    requires s == 0 || t[s - 1] == '/'
    ensures t[s..p] != "."
    ensures t[s..p] == "" ==> s == p == 0
    ensures t[s..p] == ".." <==> DotDotBefore(t, p)
  {
    assert p > 0 ==> !DoubleAt(t, p - 1);
    assert s > 0 ==> !DotMidAt(t, s - 1);
    forall j | s <= j < p ensures t[j] == t[s..p][j - s] && t[j] != '/' {}
    if DotDotBefore(t, p) {
      assert s == p - 2;
    }
  }

  // ---------------------------------------------------------------- collapsing ".."

  ghost predicate SameMeaning(t: string, u: string)
  {
    && IsAbs(u) == IsAbs(t)
    && Meaning(u) == Meaning(t)
    && (EncFree(Comps(t)) ==> EncFree(Comps(u)))
  }

  /** s is where the token that ends at p starts. */
  ghost predicate TokenStart(t: string, s: nat, p: nat)
  {
    s <= p <= |t| && '/' !in t[s..p] && (s == 0 || t[s - 1] == '/')
  }

  lemma SpliceTidy(t: string, s: nat, k: nat)
    requires Tidy(t) && 0 <= s < k < |t| && (s == 0 || t[s - 1] == '/') && t[k - 1] == '/'
    ensures Tidy(t[..s] + t[k..])
  {
    var u := t[..s] + t[k..];
    assert !DoubleAt(t, k - 1) && !DotMidAt(t, k - 1);
    forall i ensures !DoubleAt(u, i) && !DotMidAt(u, i) {
      assert !DoubleAt(t, i) && !DoubleAt(t, i - s + k);
      assert !DotMidAt(t, i) && !DotMidAt(t, i - s + k) && !DotMidAt(t, k - 1);
    }
    if s > 0 {
      assert u[0] == t[0];
      assert s > 1 ==> u[1] == t[1];
    } else {
      assert u == t[k..];
    }
  }

  lemma SpliceReduced(t: string, s: nat, k: nat)
    requires Reduced(t, s) && 0 < s < k < |t| && t[s - 1] == '/'
    ensures Reduced(t[..s] + t[k..], s - 1)
  {
    var u := t[..s] + t[k..];
    assert forall j :: 0 <= j < s ==> u[j] == t[j];
    forall q | 0 <= q < s - 1 && DotDotAt(u, q) ensures DotDotBefore(u, q) {
      assert u[s - 1] == '/';
      assert q + 3 < s;
      assert DotDotAt(t, q);
    }
  }

  lemma EncFreeInside(front: seq<string>, mid: seq<string>, back: seq<string>)
    requires EncFree(front + mid + back)
    ensures EncFree(front + back)
  {
    forall c | c in front + back ensures !(ENCODING_PREFIX <= c) {
      assert c in front + mid + back;
    }
  }

  lemma CollapseMeaning(t: string, s: nat, p: nat)
    requires DotDotAt(t, p) && p + 3 < |t| && s < p && TokenStart(t, s, p)
    requires t[s..p] != "." && t[s..p] != ".." && t[s..p] != ""
    requires p + 4 < |t| && t[p + 4] != '/'
    ensures SameMeaning(t, t[..s] + t[p + 4..])
  {
    hide Comps, Walk, Front, Back;
    var u := t[..s] + t[p + 4..];
    var tok := t[s..p];
    TokenComps(t, s, p);
    CollapsedComps(t, s, p);
    assert s == 0 ==> t[0] == tok[0];
    assert IsAbs(u) == IsAbs(t);
    CancelInside(IsAbs(t), Front(t, s), tok, Back(t, p));
    if EncFree(Comps(t)) {
      EncFreeInside(Front(t, s), [tok, ".."], Back(t, p));
    }
  }

  /** "token/../foo" is "foo". */
  lemma CollapseStep(t: string, s: nat, p: nat)
    requires Tidy(t) && DotDotAt(t, p) && p + 3 < |t| && s < p && TokenStart(t, s, p)
    requires !DotDotBefore(t, p) && Reduced(t, p)
    ensures var u := t[..s] + t[p + 4..];
            Tidy(u) && SameMeaning(t, u) && Reduced(u, if s > 0 then s - 1 else 0)
  {
    assert !DoubleAt(t, p + 3) && t[|t| - 1] != '/';
    SpliceTidy(t, s, p + 4);
    TokenIsName(t, s, p);
    CollapseMeaning(t, s, p);
    if s > 0 {
      SpliceReduced(t, s, p + 4);
    }
  }

  lemma LeadingDotDot(t: string)
    requires DotDotAt(t, 0)
    ensures Comps(t) == [".."] + Back(t, 0)
  {
    hide Comps;
    CompsAt(t, 0);
    CompsOne("");
    assert t[..0] == "";
    DotDotComps(t, 0);
  }

  lemma WalkDotDotAtRoot(back: seq<string>)
    ensures Walk(true, [], [".."] + back) == Walk(true, [], back)
  {
    assert ([".."] + back)[1..] == back;
    assert ([".."] + back)[0] == "..";
  }

  /** "/../foo" is "/foo". */
  lemma RootStep(t: string)
    requires Tidy(t) && DotDotAt(t, 0) && 3 < |t|
    ensures var u := t[..1] + t[4..];
            Tidy(u) && SameMeaning(t, u)
  {
    hide Comps, Walk;
    var u := t[..1] + t[4..];
    assert t[|t| - 1] != '/';
    SpliceTidy(t, 1, 4);
    LeadingDotDot(t);
    CompsAt(u, 0);
    CompsOne("");
    assert u[..0] == "" && u[1..] == t[4..];
    assert Comps(u) == Back(t, 0);
    WalkDotDotAtRoot(Back(t, 0));
    assert [] + [".."] + Back(t, 0) == Comps(t) && [] + Back(t, 0) == Comps(u);
    if EncFree(Comps(t)) {
      EncFreeInside([], [".."], Back(t, 0));
    }
  }

  /** What a trailing "/.." leaves. */
  ghost function Trailing(t: string, s: nat): string
    requires s <= |t|
  {
    if s == 0 then (if IsAbs(t) then "/" else ".") else if s == 1 then "/" else t[..s - 1]
  }

  lemma TrailingStep(t: string, s: nat, p: nat)
    requires Tidy(t) && DotDotAt(t, p) && p + 3 == |t| && TokenStart(t, s, p)
    requires !DotDotBefore(t, p) && Reduced(t, p)
    ensures Trailing(t, s) == Normal(t)
  {
    TokenIsName(t, s, p);
    if p == 0 {
      LeadingDotDot(t);
      WalkDotDotAtRoot([]);
    } else {
      TokenComps(t, s, p);
      var tok := t[s..p];
      assert Front(t, s) + [tok, ".."] + [] == Front(t, s) + [tok, ".."];
      CancelInside(IsAbs(t), Front(t, s), tok, []);
      assert Front(t, s) + [] == Front(t, s);
      assert s == 0 ==> t[0] == tok[0];
      if s == 1 {
        assert t[..0] == "";
        CompsOne("");
      } else if s > 1 {
        TrailingCut(t, s);
        ReducedNormal(t[..s - 1]);
      }
    }
  }

  lemma TrailingCut(t: string, s: nat)
    requires Tidy(t) && 1 < s < |t| && t[s - 1] == '/' && Reduced(t, s)
    ensures Tidy(t[..s - 1]) && Reduced(t[..s - 1], s - 1)
  {
    var u := t[..s - 1];
    forall i ensures !DoubleAt(u, i) && !DotMidAt(u, i) {
      assert !DoubleAt(t, i) && !DotMidAt(t, i);
    }
    assert !DoubleAt(t, s - 2) && (s >= 3 ==> !DotMidAt(t, s - 3));
    forall q | 0 <= q < s - 1 && DotDotAt(u, q) ensures DotDotBefore(u, q) {
      assert DotDotAt(t, q);
    }
  }
}
