/**
 The regular expressions that the pattern compilers emit: their concrete syntax, as PCRE
 reads it, and their meaning. Anything else is not part of the fragment and does not parse.
 */
module Regex {
  import opened Options
  import opened Characters

  datatype Re =
    | Eps
    | Chr(c: char)
    | Set(cs: set<char>)
    | Any                  // . (matches every character)
    | AnyStar              // .*
    | Cat(first: Re, second: Re)
    | Alt(left: Re, right: Re)
    | Group(inner: Re)

  // ---------------------------------------------------------------- meaning

  /** The whole of w matches r. */
  ghost predicate Matches(r: Re, w: string)
  {
    match r
    case Eps => w == ""
    case Chr(c) => w == [c]
    case Set(cs) => |w| == 1 && w[0] in cs
    case Any => |w| == 1
    case AnyStar => true
    case Cat(a, b) => exists k :: 0 <= k <= |w| && Matches(a, w[..k]) && Matches(b, w[k..])
    case Alt(a, b) => Matches(a, w) || Matches(b, w)
    case Group(a) => Matches(a, w)
  }

  /** The number of capture groups. */
  function Groups(r: Re): nat
  {
    match r
    case Cat(a, b) => Groups(a) + Groups(b)
    case Alt(a, b) => Groups(a) + Groups(b)
    case Group(a) => 1 + Groups(a)
    case _ => 0
  }

  /** w matches r in a way that leaves these captures, numbered by opening parenthesis from 1;
      the groups of a branch not taken are empty. */
  ghost predicate Captures(r: Re, w: string, caps: seq<string>)
  {
    match r
    case Cat(a, b) =>
      |caps| == Groups(a) + Groups(b)
      && exists k :: 0 <= k <= |w| && Captures(a, w[..k], caps[..Groups(a)]) && Captures(b, w[k..], caps[Groups(a)..])
    case Alt(a, b) =>
      |caps| == Groups(a) + Groups(b)
      && ((Captures(a, w, caps[..Groups(a)]) && forall i :: Groups(a) <= i < |caps| ==> caps[i] == "")
          || (Captures(b, w, caps[Groups(a)..]) && forall i :: 0 <= i < Groups(a) ==> caps[i] == ""))
    case Group(a) => |caps| == 1 + Groups(a) && caps[0] == w && Captures(a, w, caps[1..])
    case _ => caps == [] && Matches(r, w)
  }

  lemma {:induction false} CapturesMatch(r: Re, w: string, caps: seq<string>)
    requires Captures(r, w, caps)
    ensures Matches(r, w) && |caps| == Groups(r)
    decreases r
  {
    match r {
      case Cat(a, b) =>
        var k :| 0 <= k <= |w| && Captures(a, w[..k], caps[..Groups(a)]) && Captures(b, w[k..], caps[Groups(a)..]);
        CapturesMatch(a, w[..k], caps[..Groups(a)]);
        CapturesMatch(b, w[k..], caps[Groups(a)..]);
      case Alt(a, b) =>
        if Captures(a, w, caps[..Groups(a)]) {
          CapturesMatch(a, w, caps[..Groups(a)]);
        } else {
          CapturesMatch(b, w, caps[Groups(a)..]);
        }
      case Group(a) => CapturesMatch(a, w, caps[1..]);
      case _ =>
    }
  }

  lemma CatCaptures(a: Re, b: Re, w: string, k: nat, xs: seq<string>, ys: seq<string>)
    requires k <= |w| && |xs| == Groups(a) && |ys| == Groups(b)
    requires Captures(a, w[..k], xs) && Captures(b, w[k..], ys)
    ensures Captures(Cat(a, b), w, xs + ys)
  {
    var caps := xs + ys;
    assert caps[..Groups(a)] == xs && caps[Groups(a)..] == ys;
  }

  /** The captures of a branch that is not taken. */
  function Unset(n: nat): (r: seq<string>)
    ensures |r| == n && forall i :: 0 <= i < n ==> r[i] == ""
  {
    seq(n, i => "")
  }

  lemma LeftCaptures(a: Re, b: Re, w: string, xs: seq<string>)
    requires |xs| == Groups(a) && Captures(a, w, xs)
    ensures Captures(Alt(a, b), w, xs + Unset(Groups(b)))
  {
    hide Captures, Groups, Unset;
    var caps := xs + Unset(Groups(b));
    assert caps[..Groups(a)] == xs;
    AltCaptures(a, b, w, caps);
  }

  lemma RightCaptures(a: Re, b: Re, w: string, ys: seq<string>)
    requires |ys| == Groups(b) && Captures(b, w, ys)
    ensures Captures(Alt(a, b), w, Unset(Groups(a)) + ys)
  {
    hide Captures, Groups, Unset;
    var caps := Unset(Groups(a)) + ys;
    assert caps[Groups(a)..] == ys;
    AltCaptures(a, b, w, caps);
  }

  lemma AltCaptures(a: Re, b: Re, w: string, caps: seq<string>)
    requires |caps| == Groups(a) + Groups(b)
    requires (Captures(a, w, caps[..Groups(a)]) && forall i :: Groups(a) <= i < |caps| ==> caps[i] == "")
             || (Captures(b, w, caps[Groups(a)..]) && forall i :: 0 <= i < Groups(a) ==> caps[i] == "")
    ensures Captures(Alt(a, b), w, caps)
  {
  }

  /** Every match leaves captures. */
  lemma {:induction false} MatchCaptures(r: Re, w: string) returns (caps: seq<string>)
    requires Matches(r, w)
    ensures Captures(r, w, caps) && |caps| == Groups(r)
    decreases r
  {
    match r {
      case Cat(a, b) =>
        var k :| 0 <= k <= |w| && Matches(a, w[..k]) && Matches(b, w[k..]);
        var xs := MatchCaptures(a, w[..k]);
        var ys := MatchCaptures(b, w[k..]);
        caps := xs + ys;
        CatCaptures(a, b, w, k, xs, ys);
      case Alt(a, b) =>
        if Matches(a, w) {
          var xs := MatchCaptures(a, w);
          caps := xs + Unset(Groups(b));
          LeftCaptures(a, b, w, xs);
        } else {
          var ys := MatchCaptures(b, w);
          caps := Unset(Groups(a)) + ys;
          RightCaptures(a, b, w, ys);
        }
      case Group(a) =>
        var xs := MatchCaptures(a, w);
        caps := [w] + xs;
        assert caps[1..] == xs;
      case _ => caps := [];
    }
  }

  // ---------------------------------------------------------------- concrete syntax

  /** A parsed value and the text after it. */
  type Parsed<T> = Option<(T, string)>

  /** After a backslash: \xHH, or a character that is not alphanumeric. */
  function ParseEscape(s: string): (p: Parsed<char>)
    ensures p.Some? ==> |p.value.1| < |s|
  {
    if |s| >= 3 && s[0] == 'x' && IsHexDigit(s[1]) && IsHexDigit(s[2]) then
      Some(((HexDigit(s[1]) * 16 + HexDigit(s[2])) as char, s[3..]))
    else if s != "" && !IsAlnum(s[0]) then Some((s[0], s[1..]))
    else None
  }

  /** The inside of a character class, up to and with the closing bracket: escapes only. PCRE takes a
      bracket that comes first for a member of the class, so there has to be one before it. */
  function ParseSet(s: string): (p: Parsed<set<char>>)
    ensures p.Some? ==> |p.value.1| < |s|
    decreases |s|
  {
    if s == "" then None
    else if s[0] == ']' then Some(({}, s[1..]))
    else if s[0] != '\\' then None
    else
      match ParseEscape(s[1..])
      case None => None
      case Some((c, rest)) =>
        match ParseSet(rest)
        case None => None
        case Some((cs, after)) => Some(({c} + cs, after))
  }

  predicate IsMeta(c: char)
  {
    c in "\\^$.[|()?*+{"
  }

  /** The text goes on with a quantifier: only ".*" is in the fragment. */
  predicate Quantified(s: string)
  {
    s != "" && s[0] in "*?+{"
  }

  function ParseAtom(s: string): (p: Parsed<Re>)
    ensures p.Some? ==> |p.value.1| < |s|
    decreases |s|, 0
  {
    if s == "" then None
    else if s[0] == '.' then
      if |s| > 1 && s[1] == '*' then NotQuantified(Some((AnyStar, s[2..])))
      else NotQuantified(Some((Any, s[1..])))
    else if s[0] == '\\' then
      match ParseEscape(s[1..])
      case None => None
      case Some((c, rest)) => NotQuantified(Some((Chr(c), rest)))
    else if s[0] == '[' && |s| > 1 && s[1] == ']' then None
    else if s[0] == '[' then
      match ParseSet(s[1..])
      case None => None
      case Some((cs, rest)) => NotQuantified(Some((Set(cs), rest)))
    else if s[0] == '(' then
      match ParseAlt(s[1..])
      case None => None
      case Some((r, rest)) =>
        if rest != "" && rest[0] == ')' then NotQuantified(Some((Group(r), rest[1..]))) else None
    else if IsMeta(s[0]) then None
    else NotQuantified(Some((Chr(s[0]), s[1..])))
  }

  function NotQuantified(p: Parsed<Re>): (q: Parsed<Re>)
    ensures q.Some? ==> q == p
  {
    if p.Some? && Quantified(p.value.1) then None else p
  }

  /** Pieces one after the other, up to "|", ")" or the end. */
  function ParseCat(s: string): (p: Parsed<Re>)
    ensures p.Some? ==> |p.value.1| <= |s|
    decreases |s|, 1
  {
    if s == "" || s[0] == '|' || s[0] == ')' then Some((Eps, s))
    else
      match ParseAtom(s)
      case None => None
      case Some((r, rest)) =>
        match ParseCat(rest)
        case None => None
        case Some((q, after)) => Some((Cat(r, q), after))
  }

  function ParseAlt(s: string): (p: Parsed<Re>)
    ensures p.Some? ==> |p.value.1| <= |s|
    decreases |s|, 2
  {
    match ParseCat(s)
    case None => None
    case Some((r, rest)) =>
      if rest != "" && rest[0] == '|' then
        match ParseAlt(rest[1..])
        case None => None
        case Some((q, after)) => Some((Alt(r, q), after))
      else Some((r, rest))
  }

  /** The whole text is a regular expression of the fragment, and this is it. */
  predicate Denotes(s: string, r: Re)
  {
    ParseAlt(s) == Some((r, ""))
  }

  /** The pattern s, used as a full-match regular expression, accepts w. */
  ghost predicate Accepts(s: string, w: string)
  {
    exists r :: Denotes(s, r) && Matches(r, w)
  }

  // ---------------------------------------------------------------- lists of pieces

  /** One after the other, as the parser nests them. */
  function CatAll(rs: seq<Re>): Re
  {
    if rs == [] then Eps else Cat(rs[0], CatAll(rs[1..]))
  }

  /** The text stops the list of pieces: an alternative, a closing parenthesis or the end. */
  predicate Stops(s: string)
  {
    s == "" || s[0] == '|' || s[0] == ')'
  }

  /** The text of a piece: whatever follows, short of a quantifier, the parser takes exactly the
      piece. */
  ghost predicate IsPiece(t: string, r: Re)
  {
    && t != "" && !Stops(t) && !Quantified(t)
    && forall rest :: !Quantified(rest) ==> ParseAtom(t + rest) == Some((r, rest))
  }

  function Concat(ts: seq<string>): string
  {
    if ts == [] then "" else ts[0] + Concat(ts[1..])
  }

  lemma StopNotQuantifier(s: string)
    requires Stops(s)
    ensures !Quantified(s) && ParseCat(s) == Some((Eps, s))
  {
  }

  lemma PieceThen(t: string, r: Re, tail: string)
    requires IsPiece(t, r) && !Quantified(tail) && ParseCat(tail).Some?
    ensures ParseCat(t + tail) == Some((Cat(r, ParseCat(tail).value.0), ParseCat(tail).value.1))
    ensures !Quantified(t + tail)
  {
    hide ParseAtom;
    assert (t + tail)[0] == t[0];
  }

  lemma {:induction false} ParsePieces(ts: seq<string>, rs: seq<Re>, rest: string)
    requires |ts| == |rs| && forall i :: 0 <= i < |ts| ==> IsPiece(ts[i], rs[i])
    requires Stops(rest)
    ensures ParseCat(Concat(ts) + rest) == Some((CatAll(rs), rest))
    ensures !Quantified(Concat(ts) + rest)
    decreases |ts|
  {
    hide ParseAtom, Quantified, Stops;
    if ts == [] {
      StopNotQuantifier(rest);
      assert Concat(ts) + rest == rest;
    } else {
      var t, tail := ts[0], Concat(ts[1..]) + rest;
      assert IsPiece(t, rs[0]);
      assert forall i :: 0 <= i < |ts[1..]| ==> ts[1..][i] == ts[i + 1] && rs[1..][i] == rs[i + 1];
      ParsePieces(ts[1..], rs[1..], rest);
      assert Concat(ts) + rest == t + tail;
      PieceThen(t, rs[0], tail);
    }
  }

  /** What a list of pieces accepts: the words that split accordingly. */
  ghost predicate MatchesAll(rs: seq<Re>, w: string)
    decreases |rs|
  {
    if rs == [] then w == ""
    else exists k :: 0 <= k <= |w| && Matches(rs[0], w[..k]) && MatchesAll(rs[1..], w[k..])
  }

  lemma {:induction false} CatAllMatches(rs: seq<Re>, w: string)
    ensures Matches(CatAll(rs), w) <==> MatchesAll(rs, w)
    decreases |rs|
  {
    if rs != [] {
      forall k | 0 <= k <= |w|
        ensures Matches(CatAll(rs[1..]), w[k..]) <==> MatchesAll(rs[1..], w[k..])
      {
        CatAllMatches(rs[1..], w[k..]);
      }
      if Matches(CatAll(rs), w) {
        var k :| 0 <= k <= |w| && Matches(rs[0], w[..k]) && Matches(CatAll(rs[1..]), w[k..]);
        assert MatchesAll(rs[1..], w[k..]);
      }
      if MatchesAll(rs, w) {
        var k :| 0 <= k <= |w| && Matches(rs[0], w[..k]) && MatchesAll(rs[1..], w[k..]);
        assert Matches(CatAll(rs[1..]), w[k..]);
      }
    }
  }

  // ---------------------------------------------------------------- the pieces in use

  lemma PlainPiece(c: char)
    requires !IsMeta(c)
    ensures IsPiece([c], Chr(c))
  {
    forall rest | !Quantified(rest) ensures ParseAtom([c] + rest) == Some((Chr(c), rest)) {
      assert ([c] + rest)[1..] == rest;
    }
  }

  lemma EscapedPiece(c: char)
    requires !IsAlnum(c)
    ensures IsPiece(['\\', c], Chr(c))
  {
    forall rest | !Quantified(rest) ensures ParseAtom(['\\', c] + rest) == Some((Chr(c), rest)) {
      assert (['\\', c] + rest)[1..] == [c] + rest;
      assert ([c] + rest)[1..] == rest;
    }
  }

  lemma AnyPiece()
    ensures IsPiece(".", Any)
  {
    forall rest | !Quantified(rest) ensures ParseAtom("." + rest) == Some((Any, rest)) {
      assert ("." + rest)[1..] == rest;
    }
  }

  lemma AnyStarPiece()
    ensures IsPiece(".*", AnyStar)
  {
    forall rest | !Quantified(rest) ensures ParseAtom(".*" + rest) == Some((AnyStar, rest)) {
      assert (".*" + rest)[2..] == rest;
    }
  }

  /** A parenthesized text that parses up to its closing parenthesis. */
  lemma GroupPiece(t: string, r: Re)
    requires forall rest: string :: ParseAlt(t + (")" + rest)) == Some((r, ")" + rest))
    ensures IsPiece("(" + t + ")", Group(r))
  {
    hide ParseAlt;
    var u := "(" + t + ")";
    forall rest | !Quantified(rest) ensures ParseAtom(u + rest) == Some((Group(r), rest)) {
      assert (u + rest)[1..] == t + (")" + rest);
      assert (")" + rest)[1..] == rest;
    }
  }

  /** A class whose inside parses up to and with its closing bracket. */
  lemma SetPiece(t: string, cs: set<char>)
    requires t != "" && t[0] != ']' && forall rest: string :: ParseSet(t + rest) == Some((cs, rest))
    ensures IsPiece("[" + t, Set(cs))
  {
    hide ParseSet, ParseAtom, Quantified, Stops;
    var u := "[" + t;
    ClassStarts(t);
    forall rest | !Quantified(rest) ensures ParseAtom(u + rest) == Some((Set(cs), rest)) {
      assert (u + rest)[1..] == t + rest;
      SetAtom(u + rest, cs, rest);
    }
  }

  lemma ClassStarts(t: string)
    ensures !Stops("[" + t) && !Quantified("[" + t)
  {
  }

  lemma SetAtom(s: string, cs: set<char>, rest: string)
    requires |s| > 1 && s[0] == '[' && s[1] != ']' && !Quantified(rest)
    requires ParseSet(s[1..]) == Some((cs, rest))
    ensures ParseAtom(s) == Some((Set(cs), rest))
  {
    hide ParseSet;
  }
}
