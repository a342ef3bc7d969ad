/**
 mc_realpath (lib/utilunix.c), the body used where the system has no realpath: symbolic
 links are resolved one component at a time. readlink is an arbitrary fixed function.
 */
module RealPath {
  import opened Options
  import opened PathAlgebra
  import opened CanonicalPath

  /** readlink on a path: not a link (EINVAL), a link to a text, or any other error. */
  datatype Link = NotLink | Target(text: string) | Error

  /** The system: the file tree and the two limits the code is compiled with. */
  datatype System = System(readlink: string -> Link, maxSymlinks: nat, pathMax: nat)

  datatype Outcome =
    | Resolved(path: string)
    | NameTooLong
    | Loop
    | Failed(path: string)

  // ---------------------------------------------------------------- the recursive resolver

  /** A list of components as an absolute path. */
  ghost function AsPath(cs: seq<string>): string
  {
    "/" + Join(cs)
  }

  datatype Answer = Ok(comps: seq<string>) | Err(outcome: Outcome)

  /** The text after a component, when pieces are still to come. */
  ghost function Rest(todo: seq<string>): string
  {
    if todo == [] then "" else "/" + Join(todo)
  }

  /** Resolve todo from the directory done, k components having been looked up before. */
  ghost function Resolve(sys: System, done: seq<string>, todo: seq<string>, k: nat): Answer
    decreases sys.maxSymlinks + 1 - k, |todo|
  {
    if todo == [] then Ok(done)
    else
      var c, more := todo[0], todo[1..];
      if c == "" || c == "." then Resolve(sys, done, more, k)
      else if c == ".." then Resolve(sys, if done == [] then [] else done[..|done| - 1], more, k)
      else if k > sys.maxSymlinks then Err(Loop)
      else
        match sys.readlink(AsPath(done + [c]))
        case Error => Err(Failed(AsPath(done + [c])))
        case NotLink => Resolve(sys, done + [c], more, k + 1)
        case Target(text) =>
          if |Rest(more)| + |text| + 2 >= sys.pathMax then Err(NameTooLong)
          else Resolve(sys, if IsAbs(text) then [] else done, Split(text) + more, k + 1)
  }

  // ---------------------------------------------------------------- what a resolved path is

  /** A directory all of whose prefixes have been looked up and are no links. */
  ghost predicate Real(sys: System, ds: seq<string>)
  {
    && (forall i :: 0 <= i < |ds| ==> IsName(ds[i]) && ds[i] != "..")
    && (forall i :: 0 < i <= |ds| ==> sys.readlink(AsPath(ds[..i])) == NotLink)
  }

  ghost predicate Pieces(todo: seq<string>)
  {
    forall i :: 0 <= i < |todo| ==> '/' !in todo[i]
  }

  lemma RealSnoc(sys: System, ds: seq<string>, c: string)
    requires Real(sys, ds) && IsName(c) && c != ".." && sys.readlink(AsPath(ds + [c])) == NotLink
    ensures Real(sys, ds + [c])
  {
    var es := ds + [c];
    forall i | 0 < i <= |es| ensures sys.readlink(AsPath(es[..i])) == NotLink {
      assert i <= |ds| ==> es[..i] == ds[..i];
      assert i == |es| ==> es[..i] == es;
    }
  }

  lemma RealFront(sys: System, ds: seq<string>, n: nat)
    requires Real(sys, ds) && n <= |ds|
    ensures Real(sys, ds[..n])
  {
    forall i | 0 < i <= n ensures sys.readlink(AsPath(ds[..n][..i])) == NotLink {
      assert ds[..n][..i] == ds[..i];
    }
  }

  lemma SplitIsPieces(t: string)
    ensures Pieces(Split(t))
  {
    forall i | 0 <= i < |Split(t)| ensures '/' !in Split(t)[i] {
      SplitPieces(t, i);
    }
  }

  /** On success nothing in the result is a link, "." or "..", and every component of it has
      cost a step of the counter. */
  lemma {:induction false} ResolveReal(sys: System, done: seq<string>, todo: seq<string>, k: nat)
    requires Real(sys, done) && Pieces(todo) && k <= sys.maxSymlinks + 1
    ensures var r := Resolve(sys, done, todo, k);
            r.Ok? ==> Real(sys, r.comps) && |r.comps| <= |done| + (sys.maxSymlinks + 1 - k)
    decreases sys.maxSymlinks + 1 - k, |todo|
  {
    hide AsPath, Real;
    if todo != [] {
      var c, more := todo[0], todo[1..];
      if c == "" || c == "." {
        ResolveReal(sys, done, more, k);
      } else if c == ".." {
        var up := if done == [] then [] else done[..|done| - 1];
        if done != [] {
          RealFront(sys, done, |done| - 1);
        }
        ResolveReal(sys, up, more, k);
      } else if k <= sys.maxSymlinks {
        match sys.readlink(AsPath(done + [c])) {
          case NotLink =>
            RealSnoc(sys, done, c);
            ResolveReal(sys, done + [c], more, k + 1);
          case Error =>
          case Target(text) =>
            if |Rest(more)| + |text| + 2 < sys.pathMax {
              SplitIsPieces(text);
              RealRoot(sys);
              ResolveReal(sys, if IsAbs(text) then [] else done, Split(text) + more, k + 1);
            }
        }
      }
    }
  }

  lemma RealRoot(sys: System)
    ensures Real(sys, [])
  {
  }

  /** A resolved path resolves to itself. */
  lemma {:induction false} ResolveFixed(sys: System, ds: seq<string>, i: nat)
    requires Real(sys, ds) && i <= |ds| <= sys.maxSymlinks + 1
    ensures Resolve(sys, ds[..i], ds[i..], i) == Ok(ds)
    decreases |ds| - i
  {
    hide AsPath;
    if i < |ds| {
      assert ds[..i] + [ds[i]] == ds[..i + 1];
      assert ds[i..][1..] == ds[i + 1..];
      ResolveFixed(sys, ds, i + 1);
    } else {
      assert ds[..i] == ds;
    }
  }

  lemma ResolveIdempotent(sys: System, todo: seq<string>)
    requires Pieces(todo)
    ensures var r := Resolve(sys, [], todo, 0);
            r.Ok? ==> Resolve(sys, [], r.comps, 0) == r
  {
    ResolveReal(sys, [], todo, 0);
    var r := Resolve(sys, [], todo, 0);
    if r.Ok? {
      ResolveFixed(sys, r.comps, 0);
      assert r.comps[..0] == [] && r.comps[0..] == r.comps;
    }
  }

  /** Higher limits never change a successful answer, or one the file tree gave. */
  lemma {:induction false} ResolveMonotone(sys: System, more: System, done: seq<string>, todo: seq<string>, k: nat)
    requires sys.readlink == more.readlink && sys.maxSymlinks <= more.maxSymlinks && sys.pathMax <= more.pathMax
    requires Resolve(sys, done, todo, k).Ok? || Resolve(sys, done, todo, k).outcome.Failed?
    ensures Resolve(more, done, todo, k) == Resolve(sys, done, todo, k)
    decreases sys.maxSymlinks + 1 - k, |todo|
  {
    hide AsPath;
    if todo != [] {
      var c, rest := todo[0], todo[1..];
      if c == "" || c == "." {
        ResolveMonotone(sys, more, done, rest, k);
      } else if c == ".." {
        ResolveMonotone(sys, more, if done == [] then [] else done[..|done| - 1], rest, k);
      } else if k <= sys.maxSymlinks {
        match sys.readlink(AsPath(done + [c])) {
          case NotLink => ResolveMonotone(sys, more, done + [c], rest, k + 1);
          case Error =>
          case Target(text) =>
            ResolveMonotone(sys, more, if IsAbs(text) then [] else done, Split(text) + rest, k + 1);
        }
      }
    }
  }

  /** Fewer lookups before never change such an answer. */
  lemma {:induction false} ResolveEarlier(sys: System, done: seq<string>, todo: seq<string>, k: nat, j: nat)
    requires j <= k && (Resolve(sys, done, todo, k).Ok? || Resolve(sys, done, todo, k).outcome.Failed?)
    ensures Resolve(sys, done, todo, j) == Resolve(sys, done, todo, k)
    decreases sys.maxSymlinks + 1 - k, |todo|
  {
    hide AsPath;
    if todo != [] {
      var c, rest := todo[0], todo[1..];
      if c == "" || c == "." {
        ResolveEarlier(sys, done, rest, k, j);
      } else if c == ".." {
        ResolveEarlier(sys, if done == [] then [] else done[..|done| - 1], rest, k, j);
      } else if k <= sys.maxSymlinks {
        match sys.readlink(AsPath(done + [c])) {
          case NotLink => ResolveEarlier(sys, done + [c], rest, k + 1, j + 1);
          case Error =>
          case Target(text) =>
            ResolveEarlier(sys, if IsAbs(text) then [] else done, Split(text) + rest, k + 1, j + 1);
        }
      }
    }
  }

  /** A link stands for its text, read from the directory it is in, or from the root. */
  lemma LinkStandsFor(sys: System, done: seq<string>, c: string, text: string, more: seq<string>, k: nat)
    requires IsName(c) && c != ".." && sys.readlink(AsPath(done + [c])) == Target(text)
    ensures var r := Resolve(sys, done, [c] + more, k);
            r.Ok? || r.outcome.Failed? ==>
              Resolve(sys, if IsAbs(text) then [] else done, Split(text) + more, k) == r
  {
    hide AsPath;
    var r := Resolve(sys, done, [c] + more, k);
    assert ([c] + more)[1..] == more;
    if r.Ok? || r.outcome.Failed? {
      ResolveEarlier(sys, if IsAbs(text) then [] else done, Split(text) + more, k + 1, k);
    }
  }

  /** How many components are looked up when there are no links. */
  ghost function LookedUp(todo: seq<string>): nat
  {
    if todo == [] then 0
    else (if todo[0] == "" || todo[0] == "." || todo[0] == ".." then 0 else 1) + LookedUp(todo[1..])
  }

  /** Without links, resolving is the stack machine of the path algebra; but every name counts as a link. */
  lemma {:induction false} ResolveWithoutLinks(sys: System, done: seq<string>, todo: seq<string>, k: nat)
    requires forall p :: sys.readlink(p) == NotLink
    requires Real(sys, done) && Pieces(todo) && k <= sys.maxSymlinks + 1
    ensures Resolve(sys, done, todo, k) ==
            if k + LookedUp(todo) <= sys.maxSymlinks + 1 then Ok(Walk(true, done, Named(todo))) else Err(Loop)
    decreases |todo|
  {
    hide AsPath, Join, Resolve, Real, Walk;
    WithoutLinksStep(sys, done, todo, k);
    if todo != [] {
      var c, more := todo[0], todo[1..];
      if c == "" || c == "." {
        ResolveWithoutLinks(sys, done, more, k);
      } else {
        WalkCons(true, done, c, Named(more));
        PushFromRoot(sys, done, c);
        if c == ".." {
          if done != [] {
            RealFront(sys, done, |done| - 1);
          }
          ResolveWithoutLinks(sys, if done == [] then [] else done[..|done| - 1], more, k);
        } else if k <= sys.maxSymlinks {
          RealSnoc(sys, done, c);
          ResolveWithoutLinks(sys, done + [c], more, k + 1);
        }
      }
    } else {
      WalkNothing(done);
    }
  }

  lemma WithoutLinksStep(sys: System, done: seq<string>, todo: seq<string>, k: nat)
    requires forall p :: sys.readlink(p) == NotLink
    ensures Resolve(sys, done, todo, k) ==
            if todo == [] then Ok(done)
            else if todo[0] == "" || todo[0] == "." then Resolve(sys, done, todo[1..], k)
            else if todo[0] == ".." then Resolve(sys, if done == [] then [] else done[..|done| - 1], todo[1..], k)
            else if k > sys.maxSymlinks then Err(Loop)
            else Resolve(sys, done + [todo[0]], todo[1..], k + 1)
    ensures Named(todo) ==
            if todo == [] then []
            else if todo[0] == "" || todo[0] == "." then Named(todo[1..]) else [todo[0]] + Named(todo[1..])
  {
    hide AsPath;
  }

  lemma PushFromRoot(sys: System, done: seq<string>, c: string)
    requires Real(sys, done)
    ensures Push(true, done, c) ==
            if c != ".." then done + [c] else if done == [] then [] else done[..|done| - 1]
  {
    hide AsPath;
    assert done != [] ==> done[|done| - 1] != "..";
  }

  lemma WalkNothing(done: seq<string>)
    ensures Walk(true, done, []) == done
  {
  }

  lemma WalkCons(abs: bool, st: seq<string>, c: string, cs: seq<string>)
    ensures Walk(abs, st, [c] + cs) == Walk(abs, Push(abs, st, c), cs)
  {
    assert ([c] + cs)[1..] == cs;
  }

  // ---------------------------------------------------------------- the loop

  /** The resolved directory as the loop keeps it: with a slash after every component. */
  ghost function Dir(ds: seq<string>): string
    decreases |ds|
  {
    if ds == [] then "/" else Dir(ds[..|ds| - 1]) + ds[|ds| - 1] + "/"
  }

  lemma DirSnoc(ds: seq<string>, c: string)
    ensures Dir(ds + [c]) == Dir(ds) + c + "/"
  {
    assert (ds + [c])[..|ds|] == ds;
  }

  lemma {:induction false} DirAsPath(ds: seq<string>)
    ensures Dir(ds) == if ds == [] then "/" else AsPath(ds) + "/"
    decreases |ds|
  {
    hide Join;
    if ds != [] {
      var n := |ds| - 1;
      var front, c := ds[..n], ds[n];
      DirAsPath(front);
      JoinOne(c);
      assert ds[n..] == [c] && ds == front + ds[n..];
      if n > 0 {
        JoinConcat(front, ds[n..]);
        assert Dir(ds) == ("/" + Join(front)) + "/" + c + "/";
      } else {
        assert ds == [c];
      }
    }
  }

  lemma AsPathSnoc(ds: seq<string>, c: string)
    ensures AsPath(ds + [c]) == Dir(ds) + c
  {
    DirAsPath(ds + [c]);
    DirSnoc(ds, c);
    var x, y := AsPath(ds + [c]), Dir(ds) + c;
    assert x + "/" == y + "/";
    assert x == (x + "/")[..|x|] && y == (y + "/")[..|y|];
  }

  /** while (!IS_PATH_SEP ((--new_path)[-1])): drop the last component, keep its slash. */
  method BackUp(got: string, ghost ds: seq<string>) returns (r: string)
    requires got == Dir(ds) && ds != [] && '/' !in ds[|ds| - 1]
    ensures r == Dir(ds[..|ds| - 1])
  {
    ghost var front, c := Dir(ds[..|ds| - 1]), ds[|ds| - 1];
    DirEnds(ds[..|ds| - 1]);
    r := got[..|got| - 1];
    assert r == front + c;
    while r[|r| - 1] != '/'
      invariant |front| <= |r| && r == (front + c)[..|r|]
      invariant r != "" && (|r| > |front| ==> r[|r| - 1] in c)
      decreases |r|
    {
      r := r[..|r| - 1];
    }
  }

  lemma DirEnds(ds: seq<string>)
    ensures Dir(ds) != "" && Dir(ds)[|Dir(ds)| - 1] == '/'
  {
  }

  /** The path without a leading "#enc:" component; a relative one loses the slash after it too. */
  ghost function WithoutEncoding(path: string): string
  {
    var start := if IsAbs(path) then path[1..] else path;
    if !(ENCODING_PREFIX <= start) then path
    else
      var k := SlashAt(start[5..]);
      var tail := start[5..][k..];
      if tail == "" then path
      else if IsAbs(path) || tail == "/" then tail
      else tail[1..]
  }

  /** A path with an encoding in front. */
  ghost function Encoded(abs: bool, e: string, rest: string): string
  {
    (if abs then "/#enc:" else "#enc:") + (e + ("/" + rest))
  }

  /** An encoding goes, whatever its name is; in front of a relative path its slash goes too, unless
      nothing is left behind it. */
  lemma EncodingGoes(abs: bool, e: string, rest: string)
    requires '/' !in e
    ensures WithoutEncoding(Encoded(abs, e, rest)) == if abs || rest == "" then "/" + rest else rest
  {
    var path, t := Encoded(abs, e, rest), e + ("/" + rest);
    assert IsAbs(path) <==> abs;
    var start := if abs then path[1..] else path;
    assert start == "#enc:" + t && start[5..] == t;
    assert t[..|e|] == e && t[|e|..] == "/" + rest;
    FirstSlashUnique(t, SlashAt(t), |e|);
    assert ("/" + rest)[1..] == rest;
  }

  /** Every other path stays, also one with an encoding and no slash behind it. */
  lemma NoEncoding(path: string)
    requires forall abs, e, rest :: path == Encoded(abs, e, rest) ==> '/' in e
    ensures WithoutEncoding(path) == path
  {
    var abs := IsAbs(path);
    var start := if abs then path[1..] else path;
    if ENCODING_PREFIX <= start {
      var t := start[5..];
      var k := SlashAt(t);
      if k < |t| {
        var e, rest := t[..k], t[k + 1..];
        EncodedIs(path, t, k);
        assert false;
      }
    }
  }

  lemma EncodedIs(path: string, t: string, k: nat)
    requires k < |t| && t[k] == '/'
    requires var start := if IsAbs(path) then path[1..] else path; ENCODING_PREFIX <= start && t == start[5..]
    ensures path == Encoded(IsAbs(path), t[..k], t[k + 1..])
  {
    assert t == t[..k] + ("/" + t[k + 1..]);
    if IsAbs(path) {
      assert path[1..] == "#enc:" + t && path == "/" + path[1..];
      assert path == "/#enc:" + t;
    } else {
      assert path == "#enc:" + t;
    }
  }

  /** Ignore encoding: skip "#enc:". */
  method SkipEncoding(path: string) returns (r: string)
    ensures r == WithoutEncoding(path)
  {
    var absolute := path != "" && path[0] == '/';
    var p: nat := if absolute then 1 else 0;
    ghost var start := path[p..];
    assert start == if absolute then path[1..] else path;
    if p + 5 <= |path| && path[p..p + 5] == ENCODING_PREFIX {
      p := p + |ENCODING_PREFIX|;
      assert start[5..] == path[p..];
      var slash := StrChrSep(path, p);
      if slash.Some? {
        p := slash.value;
        ghost var tail := start[5..][SlashAt(start[5..])..];
        assert path[p..] == tail;
        if !absolute && p + 1 < |path| {
          p := p + 1;
          assert path[p..] == tail[1..];
        }
        return path[p..];
      }
    } else {
      assert ENCODING_PREFIX <= start ==> path[p..p + 5] == start[..5];
    }
    return path;
  }

  /** A component ends at the next slash or at the end; the loop copies it to the directory. */
  method CopyComponent(path: string, pos: nat, got: string, maxPath: nat)
    returns (tooLong: bool, next: nat, copied: string)
    requires pos <= |path|
    ensures tooLong ==> |path| > maxPath
    ensures !tooLong ==> pos <= next <= |path| && copied == got + path[pos..next]
    ensures !tooLong ==> next - pos == SlashAt(path[pos..])
  {
    next, copied, tooLong := pos, got, false;
    while next < |path| && path[next] != '/'
      invariant pos <= next <= |path| && forall k :: pos <= k < next ==> path[k] != '/'
      invariant copied == got + path[pos..next]
    {
      if next > maxPath {
        return true, next, copied;
      }
      assert path[pos..next + 1] == path[pos..next] + [path[next]];
      copied := copied + [path[next]];
      next := next + 1;
    }
    FirstSlashFrom(path, pos, next);
  }

  // ---------------------------------------------------------------- the loop follows the resolver

  /** The pieces after the first one. */
  ghost function More(cur: string): seq<string>
  {
    Split(cur)[1..]
  }

  lemma SplitHead(cur: string)
    ensures var j := SlashAt(cur);
            Split(cur) == [cur[..j]] + More(cur) && Rest(More(cur)) == cur[j..]
    ensures More(cur) == if SlashAt(cur) == |cur| then [] else Split(cur[SlashAt(cur) + 1..])
  {
    hide Split, Join, More, Rest;
    var j := SlashAt(cur);
    if j == |cur| {
      assert cur[..j] == cur;
      LastPiece(cur);
    } else {
      CutAtSlash(cur, j);
      FirstPiece(cur[..j], cur[j + 1..]);
    }
  }

  lemma CutAtSlash(t: string, j: nat)
    requires j < |t| && t[j] == '/'
    ensures t == t[..j] + ("/" + t[j + 1..]) && t[j..] == "/" + t[j + 1..]
  {
  }

  lemma LastPiece(c: string)
    requires '/' !in c
    ensures Split(c) == [c] + More(c) && More(c) == [] && Rest(More(c)) == ""
  {
    SplitNoSlash(c);
  }

  lemma FirstPiece(c: string, tail: string)
    requires '/' !in c
    ensures var t := c + ("/" + tail);
            Split(t) == [c] + More(t) && More(t) == Split(tail) && Rest(More(t)) == "/" + tail
  {
    hide Split, Join;
    assert c + ("/" + tail) == c + "/" + tail;
    SplitCons(c, tail);
    assert ([c] + Split(tail))[1..] == Split(tail);
    JoinSplit(tail);
  }

  /** What is left of the text after its first piece means the pieces after the first. */
  lemma ResolveTail(sys: System, ds: seq<string>, cur: string, k: nat)
    ensures Resolve(sys, ds, Split(cur[SlashAt(cur)..]), k) == Resolve(sys, ds, More(cur), k)
  {
    hide AsPath, Join;
    var j := SlashAt(cur);
    SplitHead(cur);
    if j == |cur| {
      SplitNoSlash("");
      assert [""][1..] == [];
      assert cur[j..] == "";
    } else {
      SplitCons("", cur[j + 1..]);
      assert cur[j..] == "" + "/" + cur[j + 1..];
      assert ([""] + Split(cur[j + 1..]))[1..] == Split(cur[j + 1..]);
    }
  }

  lemma SkipSlash(sys: System, ds: seq<string>, cur: string, k: nat)
    requires cur != "" && cur[0] == '/'
    ensures Resolve(sys, ds, Split(cur), k) == Resolve(sys, ds, Split(cur[1..]), k)
  {
    hide AsPath, Join, Rest;
    SplitCons("", cur[1..]);
    assert cur == "" + "/" + cur[1..];
    assert ([""] + Split(cur[1..]))[1..] == Split(cur[1..]);
  }

  lemma DotPiece(cur: string, n: nat)
    requires 0 < n <= |cur| && (n == |cur| || cur[n] == '/') && '/' !in cur[..n]
    ensures SlashAt(cur) == n
  {
    FirstSlashUnique(cur, SlashAt(cur), n);
  }

  lemma SkipDot(sys: System, ds: seq<string>, cur: string, k: nat)
    requires cur != "" && cur[0] == '.' && (|cur| == 1 || cur[1] == '/')
    ensures Resolve(sys, ds, Split(cur), k) == Resolve(sys, ds, Split(cur[1..]), k)
  {
    hide AsPath, Join, Rest, Split;
    assert cur[..1] == ".";
    DotPiece(cur, 1);
    SplitHead(cur);
    ResolveTail(sys, ds, cur, k);
    assert ([cur[..1]] + More(cur))[1..] == More(cur);
  }

  lemma SkipDotDot(sys: System, ds: seq<string>, cur: string, k: nat)
    requires |cur| >= 2 && cur[0] == '.' && cur[1] == '.' && (|cur| == 2 || cur[2] == '/')
    ensures var up := if ds == [] then [] else ds[..|ds| - 1];
            Resolve(sys, ds, Split(cur), k) == Resolve(sys, up, Split(cur[2..]), k)
  {
    hide AsPath, Join, Rest, Split;
    var up := if ds == [] then [] else ds[..|ds| - 1];
    assert cur[..2] == "..";
    DotPiece(cur, 2);
    SplitHead(cur);
    ResolveTail(sys, up, cur, k);
    assert ([cur[..2]] + More(cur))[1..] == More(cur);
  }

  lemma ResolveComponent(sys: System, ds: seq<string>, cur: string, k: nat)
    requires var c := cur[..SlashAt(cur)]; c != "" && c != "." && c != ".."
    ensures var c, tail, r := cur[..SlashAt(cur)], cur[SlashAt(cur)..], Resolve(sys, ds, Split(cur), k);
            if k > sys.maxSymlinks then r == Err(Loop)
            else
              match sys.readlink(AsPath(ds + [c]))
              case Error => r == Err(Failed(AsPath(ds + [c])))
              case NotLink => r == Resolve(sys, ds + [c], Split(tail), k + 1)
              case Target(text) =>
                if |tail| + |text| + 2 >= sys.pathMax then r == Err(NameTooLong)
                else r == Resolve(sys, if IsAbs(text) then [] else ds, Split(text + tail), k + 1)
  {
    hide AsPath, Join, Split, Rest;
    var j := SlashAt(cur);
    var c, tail := cur[..j], cur[j..];
    SplitHead(cur);
    assert ([c] + More(cur))[1..] == More(cur);
    if k <= sys.maxSymlinks {
      match sys.readlink(AsPath(ds + [c])) {
        case Error =>
        case NotLink =>
          ResolveTail(sys, ds + [c], cur, k + 1);
        case Target(text) =>
          if j == |cur| {
            assert text + tail == text;
            assert Split(text) + [] == Split(text);
          } else {
            assert text + tail == text + "/" + cur[j + 1..];
            SplitSlash(text, cur[j + 1..]);
          }
      }
    }
  }

  ghost predicate NoSlashes(ds: seq<string>)
  {
    forall i :: 0 <= i < |ds| ==> '/' !in ds[i]
  }

  /** while (!IS_PATH_SEP (*(--new_path))): drop the last component and the slash before it. */
  method BackOver(got: string, ghost front: string, ghost c: string) returns (r: string)
    requires got == front + c && '/' !in c && front != "" && front[|front| - 1] == '/'
    ensures r + "/" == front
  {
    r := got;
    assert r != "";
    forall i | |front| <= i < |got| ensures got[i] != '/' {
      assert got[i] == c[i - |front|];
    }
    while r[|r| - 1] != '/'
      invariant |front| <= |r| && r == got[..|r|]
      decreases |r|
    {
      assert |r| > |front|;
      r := r[..|r| - 1];
    }
    r := r[..|r| - 1];
  }

  lemma StartDir(cs: seq<string>)
    requires forall i :: 0 <= i < |cs| ==> IsName(cs[i])
    ensures var p := AsPath(cs);
            Dir(cs) == if p[|p| - 1] == '/' then p else p + "/"
  {
    DirAsPath(cs);
    if cs != [] {
      JoinNoTrailing(cs);
    }
  }

  lemma {:induction false} JoinNoTrailing(cs: seq<string>)
    requires cs != [] && forall i :: 0 <= i < |cs| ==> IsName(cs[i])
    ensures Join(cs) != "" && Join(cs)[|Join(cs)| - 1] != '/'
  {
    var c := cs[0];
    assert c[|c| - 1] in c;
    if |cs| > 1 {
      JoinNoTrailing(cs[1..]);
    }
  }

  /** The directory a relative path starts in, or the root. */
  ghost function Base(path: string, cwd: seq<string>): seq<string>
  {
    if IsAbs(path) then [] else cwd
  }

  ghost function Report(a: Answer): Outcome
  {
    if a.Ok? then Resolved(AsPath(a.comps)) else a.outcome
  }

  /** Where the walk starts: at the root past the first slash, or in the current directory. */
  method StartAt(original: string, cwd: string, ghost cwdComps: seq<string>, ghost sys: System)
    returns (got: string, pos: nat)
    requires (forall i :: 0 <= i < |cwdComps| ==> IsName(cwdComps[i])) && cwd == AsPath(cwdComps)
    ensures got == Dir(Base(original, cwdComps)) && pos <= |original|
    ensures Resolve(sys, Base(original, cwdComps), Split(original[pos..]), 0)
            == Resolve(sys, Base(original, cwdComps), Split(original), 0)
  {
    hide AsPath, Resolve, Split, Dir;
    got, pos := "/", 0;
    assert original[0..] == original;
    if original == "" || original[0] != '/' {
      got := cwd;
      StartDir(cwdComps);
      AsPathStart(cwdComps);
      if got[|got| - 1] != '/' {
        got := got + "/";
      }
    } else {
      RootDir();
      SkipSlash(sys, [], original, 0);
      pos := 1;
    }
  }

  /** Slashes, "." and ".." at the cursor; handled says that there was one. */
  method SkipDots(sys: System, path: string, pos: nat, got: string, ghost ds: seq<string>, ghost k: nat)
    returns (handled: bool, next: nat, newGot: string, ghost up: seq<string>)
    requires pos < |path| && got == Dir(ds) && NoSlashes(ds)
    ensures next <= |path| && newGot == Dir(up) && NoSlashes(up)
    ensures handled ==> next > pos
                        && Resolve(sys, up, Split(path[next..]), k) == Resolve(sys, ds, Split(path[pos..]), k)
    ensures !handled ==> next == pos && up == ds && newGot == got
    ensures !handled ==> var cur := path[pos..]; var c := cur[..SlashAt(cur)];
                         c != "" && c != "." && c != ".." && '/' !in c
  {
    hide Resolve, Split, Dir;
    ghost var cur := path[pos..];
    assert forall i :: 0 <= i < |cur| ==> cur[i] == path[pos + i];
    handled, next, newGot, up := true, pos, got, ds;
    if path[pos] == '/' {
      SkipSlash(sys, ds, cur, k);
      assert cur[1..] == path[pos + 1..];
      next := pos + 1;
      return;
    }
    if path[pos] == '.' {
      if pos + 1 == |path| || path[pos + 1] == '/' {
        SkipDot(sys, ds, cur, k);
        assert cur[1..] == path[pos + 1..];
        next := pos + 1;
        return;
      }
      if path[pos + 1] == '.' && (pos + 2 == |path| || path[pos + 2] == '/') {
        SkipDotDot(sys, ds, cur, k);
        assert cur[2..] == path[pos + 2..];
        next := pos + 2;
        DirLength(ds);
        if |got| == 1 {
          return;
        }
        newGot := BackUp(got, ds);
        up := ds[..|ds| - 1];
        return;
      }
    }
    ComponentIsName(cur);
    handled := false;
  }

  /** The work of mc_realpath after the encoding has been skipped. The directory of a relative
      path is the current one, which is an absolute path of the given components. */
  method Expand(sys: System, original: string, cwd: string, ghost cwdComps: seq<string>) returns (r: Outcome)
    requires NoSlashes(cwdComps) && (forall i :: 0 <= i < |cwdComps| ==> IsName(cwdComps[i]))
    requires cwd == AsPath(cwdComps)
    ensures |original| + 2 >= sys.pathMax ==> r == NameTooLong
    ensures |original| + 2 < sys.pathMax ==>
              r == Report(Resolve(sys, Base(original, cwdComps), Split(original), 0))
  {
    hide AsPath, Resolve, Split, SlashAt, Join, Rest, Dir;
    if |original| + 2 >= sys.pathMax {
      return NameTooLong;
    }
    var maxPath := sys.pathMax - 2;
    var path, readlinks := original, 0;
    ghost var ds := Base(original, cwdComps);
    ghost var answer := Resolve(sys, ds, Split(original), 0);
    var got, pos := StartAt(original, cwd, cwdComps, sys);
    while pos < |path|
      invariant 0 <= pos <= |path| && |path| + 2 < sys.pathMax
      invariant got == Dir(ds) && NoSlashes(ds)
      invariant 0 <= readlinks <= sys.maxSymlinks + 1
      invariant answer == Resolve(sys, ds, Split(path[pos..]), readlinks)
      decreases sys.maxSymlinks + 1 - readlinks, |path| - pos
    {
      var handled;
      handled, pos, got, ds := SkipDots(sys, path, pos, got, ds, readlinks);
      if handled {
        continue;
      }
      var tooLong, next, copied := CopyComponent(path, pos, got, maxPath);
      if tooLong {
        return NameTooLong;
      }
      ghost var cur := path[pos..];
      ghost var c, tail := cur[..next - pos], cur[next - pos..];
      assert path[pos..next] == c && path[next..] == tail;
      ResolveComponent(sys, ds, cur, readlinks);
      AsPathSnoc(ds, c);
      var exhausted := readlinks > sys.maxSymlinks;
      readlinks := readlinks + 1;
      if exhausted {
        return Loop;
      }
      match sys.readlink(copied) {
        case Error =>
          return Failed(copied);
        case NotLink =>
          DirSnoc(ds, c);
          ds, got, pos := ds + [c], copied + "/", next;
        case Target(text) =>
          if |path| - next + |text| + 2 >= sys.pathMax {
            return NameTooLong;
          }
          got := LinkBase(text, copied, got, ds, c);
          ds := if IsAbs(text) then [] else ds;
          path, pos := text + path[next..], 0;
          assert path[0..] == path;
      }
    }
    assert path[pos..] == "";
    ResolveEmpty(sys, ds, readlinks);
    r := Finish(got, ds);
  }

  /** A link is followed from the root or from the directory it is in. */
  method LinkBase(text: string, copied: string, got: string, ghost ds: seq<string>, ghost c: string)
    returns (newGot: string)
    requires copied == got + c && got == Dir(ds) && '/' !in c
    ensures newGot == Dir(if IsAbs(text) then [] else ds)
  {
    hide Dir;
    if text != "" && text[0] == '/' {
      newGot := "";
      RootDir();
    } else {
      DirEnds(ds);
      newGot := BackOver(copied, got, c);
    }
    newGot := newGot + "/";
  }

  /** Delete the trailing slash, but not a lone one. */
  method Finish(got: string, ghost ds: seq<string>) returns (r: Outcome)
    requires got == Dir(ds)
    ensures r == Resolved(AsPath(ds))
  {
    hide Dir, AsPath;
    DirAsPath(ds);
    DirLength(ds);
    AsPathRoot();
    r := Resolved(if |got| != 1 && got[|got| - 1] == '/' then got[..|got| - 1] else got);
  }

  /** What a path without an encoding names, looked up from the root or from the current directory. */
  ghost function Plain(sys: System, path: string, cwd: seq<string>): Outcome
  {
    if |path| + 2 >= sys.pathMax then NameTooLong
    else Report(Resolve(sys, Base(path, cwd), Split(path), 0))
  }

  lemma ExpandedPlain(sys: System, path: string, cwd: seq<string>)
    ensures Plain(sys, path, cwd) == if |path| + 2 >= sys.pathMax then NameTooLong
                                     else Report(Resolve(sys, Base(path, cwd), Split(path), 0))
  {
  }

  lemma {:induction false} ResolveThrough(sys: System, ds: seq<string>, i: nat, todo: seq<string>)
    requires Real(sys, ds) && i <= |ds| <= sys.maxSymlinks + 1
    ensures Resolve(sys, ds[..i], ds[i..] + todo, i) == Resolve(sys, ds, todo, |ds|)
    decreases |ds| - i
  {
    hide AsPath;
    if i < |ds| {
      assert ds[..i] + [ds[i]] == ds[..i + 1];
      assert (ds[i..] + todo)[1..] == ds[i + 1..] + todo && (ds[i..] + todo)[0] == ds[i];
      ResolveThrough(sys, ds, i + 1, todo);
    } else {
      assert ds[..i] == ds && ds[i..] + todo == todo;
    }
  }

  /** An absolute path is looked up from the root. A relative one is looked up in the current directory: it
      gives what the two put together give. */
  lemma PlainFrom(sys: System, path: string, cwd: seq<string>)
    requires |path| + 2 < sys.pathMax
    ensures IsAbs(path) ==> Plain(sys, path, cwd) == Report(Resolve(sys, [], Split(path), 0))
    ensures !IsAbs(path) && Real(sys, cwd) && |cwd| <= sys.maxSymlinks + 1 ==>
              var full := Resolve(sys, [], cwd + Split(path), 0);
              full.Ok? || full.outcome.Failed? ==> Plain(sys, path, cwd) == Report(full)
  {
    hide Resolve, Real, Split;
    if !IsAbs(path) && Real(sys, cwd) && |cwd| <= sys.maxSymlinks + 1 {
      ResolveThrough(sys, cwd, 0, Split(path));
      assert cwd[..0] == [] && cwd[0..] == cwd;
      var full := Resolve(sys, [], cwd + Split(path), 0);
      if full.Ok? || full.outcome.Failed? {
        ResolveEarlier(sys, cwd, Split(path), |cwd|, 0);
      }
    }
  }

  /** mc_realpath. */
  method MCRealpath(sys: System, path: string, cwd: string, ghost cwdComps: seq<string>)
    returns (r: Outcome)
    requires NoSlashes(cwdComps) && (forall i :: 0 <= i < |cwdComps| ==> IsName(cwdComps[i]))
    requires cwd == AsPath(cwdComps)
    ensures r == Plain(sys, WithoutEncoding(path), cwdComps)
    ensures forall abs, e, rest :: path == Encoded(abs, e, rest) && '/' !in e ==>
              r == Plain(sys, if abs || rest == "" then "/" + rest else rest, cwdComps)
  {
    hide Plain, WithoutEncoding, Encoded;
    var p := SkipEncoding(path);
    r := Expand(sys, p, cwd, cwdComps);
    ExpandedPlain(sys, p, cwdComps);
    forall abs, e, rest | path == Encoded(abs, e, rest) && '/' !in e
      ensures r == Plain(sys, if abs || rest == "" then "/" + rest else rest, cwdComps)
    {
      EncodingGoes(abs, e, rest);
    }
  }

  lemma AsPathRoot()
    ensures AsPath([]) == "/"
  {
  }

  lemma AsPathStart(cs: seq<string>)
    ensures AsPath(cs) != ""
  {
  }

  lemma RootDir()
    ensures Dir([]) == "/" == "" + "/"
  {
  }

  lemma DirLength(ds: seq<string>)
    ensures |Dir(ds)| == 1 <==> ds == []
    ensures ds != [] ==> Dir(ds)[|Dir(ds)| - 1] == '/'
  {
    if ds != [] {
      DirEnds(ds[..|ds| - 1]);
    }
  }

  lemma ResolveEmpty(sys: System, ds: seq<string>, k: nat)
    ensures Resolve(sys, ds, Split(""), k) == Ok(ds)
  {
    SplitNoSlash("");
    assert [""][1..] == [];
  }

  lemma ComponentIsName(cur: string)
    requires cur != "" && cur[0] != '/'
    requires cur[0] == '.' ==> |cur| > 1 && cur[1] != '/' && (cur[1] == '.' ==> |cur| > 2 && cur[2] != '/')
    ensures var c := cur[..SlashAt(cur)]; c != "" && c != "." && c != ".." && '/' !in c
  {
    var j := SlashAt(cur);
    assert j > 0;
    assert forall i :: 0 <= i < j ==> cur[..j][i] == cur[i];
    assert j == 1 ==> |cur| == 1 || cur[1] == '/';
    assert j == 2 ==> |cur| == 2 || cur[2] == '/';
  }

  // ---------------------------------------------------------------- what the caller gets

  /** A resolved absolute path is real, in normal form, and resolves to itself. */
  lemma RealpathSound(sys: System, path: string)
    requires IsAbs(path)
    ensures var r := Resolve(sys, [], Split(path), 0);
            r.Ok? ==> Real(sys, r.comps)
                      && Normal(AsPath(r.comps)) == AsPath(r.comps)
                      && Resolve(sys, [], Split(AsPath(r.comps)), 0) == r
  {
    hide Resolve, Split, AsPath, Print, Meaning;
    var r := Resolve(sys, [], Split(path), 0);
    SplitIsPieces(path);
    RealRoot(sys);
    ResolveReal(sys, [], Split(path), 0);
    if r.Ok? {
      ResolveIdempotent(sys, Split(path));
      PrintedPath(sys, r.comps);
    }
  }

  lemma PrintedPath(sys: System, ds: seq<string>)
    requires Real(sys, ds)
    ensures Normal(AsPath(ds)) == AsPath(ds)
    ensures Resolve(sys, [], Split(AsPath(ds)), 0) == Resolve(sys, [], ds, 0)
  {
    hide Resolve, Split, Join;
    CompsPrint(true, ds);
    SkipSlash(sys, [], AsPath(ds), 0);
    assert AsPath(ds)[1..] == Join(ds);
    if ds == [] {
      assert Join(ds) == "" by {
        JoinNothing();
      }
      ResolveEmpty(sys, [], 0);
      ResolveNothing(sys);
    } else {
      SplitJoin(ds);
    }
  }

  lemma JoinNothing()
    ensures Join([]) == ""
  {
  }

  lemma ResolveNothing(sys: System)
    ensures Resolve(sys, [], [], 0) == Ok([])
  {
  }

  /** In a tree without links the answer is the normal form of the path, if it has no more names than links
      are allowed and one more. */
  lemma RealpathWithoutLinks(sys: System, path: string)
    requires (forall p :: sys.readlink(p) == NotLink) && IsAbs(path)
    ensures Report(Resolve(sys, [], Split(path), 0)) ==
            if LookedUp(Split(path)) <= sys.maxSymlinks + 1 then Resolved(Normal(path)) else Loop
  {
    hide Resolve, Split, Named, Walk, Join;
    SplitIsPieces(path);
    RealRoot(sys);
    ResolveWithoutLinks(sys, [], Split(path), 0);
  }
}
