/**
 Shell patterns (lib/search/glob.c): their language, and the translation of a pattern to a
 regular expression that accepts exactly that language.
 */
module Glob {
  import opened Options
  import opened Characters
  import opened Escapes
  import opened Regex
  import opened Sequences

  datatype Atom =
    | Lit(c: char)    // itself
    | Esc(c: char)    // a wildcard character after a backslash
    | Star
    | Quest

  datatype Tok =
    | Simple(a: Atom)
    | Braces(alts: seq<seq<Atom>>)   // {a,b}

  // ---------------------------------------------------------------- syntax

  predicate IsPlain(c: char)
  {
    c !in "*?{}\\|[]"
  }

  predicate IsWild(c: char)
  {
    c in "*?,{}\\"
  }

  /** Between braces a comma separates, so a literal one has to be escaped there. */
  predicate WellFormedAtom(a: Atom, inside: bool)
  {
    match a
    case Lit(c) => IsPlain(c) && (inside ==> c != ',')
    case Esc(c) => IsWild(c)
    case _ => true
  }

  predicate WellFormedAtoms(as_: seq<Atom>, inside: bool)
  {
    forall i :: 0 <= i < |as_| ==> WellFormedAtom(as_[i], inside)
  }

  predicate WellFormed(t: Tok)
  {
    match t
    case Simple(a) => WellFormedAtom(a, false)
    case Braces(alts) => alts != [] && forall i :: 0 <= i < |alts| ==> WellFormedAtoms(alts[i], true)
  }

  function AtomText(a: Atom): string
  {
    match a
    case Lit(c) => [c]
    case Esc(c) => ['\\', c]
    case Star => "*"
    case Quest => "?"
  }

  function AtomsText(as_: seq<Atom>): string
  {
    if as_ == [] then "" else AtomText(as_[0]) + AtomsText(as_[1..])
  }

  function AltsText(alts: seq<seq<Atom>>): string
    requires alts != []
  {
    if |alts| == 1 then AtomsText(alts[0]) else AtomsText(alts[0]) + "," + AltsText(alts[1..])
  }

  function TokText(t: Tok): string
    requires WellFormed(t)
  {
    match t
    case Simple(a) => AtomText(a)
    case Braces(alts) => "{" + AltsText(alts) + "}"
  }

  predicate WellFormedGlob(g: seq<Tok>)
  {
    forall i :: 0 <= i < |g| ==> WellFormed(g[i])
  }

  function GlobText(g: seq<Tok>): string
    requires WellFormedGlob(g)
  {
    if g == [] then "" else TokText(g[0]) + GlobText(g[1..])
  }

  // ---------------------------------------------------------------- language

  predicate AtomMatches(a: Atom, w: string)
  {
    match a
    case Lit(c) => w == [c]
    case Esc(c) => w == [c]
    case Star => true
    case Quest => |w| == 1
  }

  ghost predicate AtomsMatch(as_: seq<Atom>, w: string)
    decreases |as_|
  {
    if as_ == [] then w == ""
    else exists k :: 0 <= k <= |w| && AtomMatches(as_[0], w[..k]) && AtomsMatch(as_[1..], w[k..])
  }

  ghost predicate TokMatches(t: Tok, w: string)
  {
    match t
    case Simple(a) => AtomMatches(a, w)
    case Braces(alts) => exists i :: 0 <= i < |alts| && AtomsMatch(alts[i], w)
  }

  /** The language of a pattern. */
  ghost predicate GlobMatches(g: seq<Tok>, w: string)
    decreases |g|
  {
    if g == [] then w == ""
    else exists k :: 0 <= k <= |w| && TokMatches(g[0], w[..k]) && GlobMatches(g[1..], w[k..])
  }

  // ---------------------------------------------------------------- the translator

  /** What one character of the pattern adds. */
  function Emit(s: string, pos: nat, inside: bool): string
    requires pos < |s|
  {
    var c, free := s[pos], !EscapedAt(s, pos);
    if c == '*' && free then (if inside then ".*" else "(.*)")
    else if c == '?' && free then (if inside then "." else "(.)")
    else if c == ',' && free then (if inside then "|" else ",")
    else if c == '{' && free then "("
    else if c == '}' && free then ")"
    else if c in "+.$()^" then ['\\', c]
    else [c]
  }

  function InsideAfter(s: string, pos: nat, inside: bool): bool
    requires pos < |s|
  {
    if s[pos] == '{' && !EscapedAt(s, pos) then true
    else if s[pos] == '}' && !EscapedAt(s, pos) then false
    else inside
  }

  function Translated(s: string, pos: nat, inside: bool): string
    requires pos <= |s|
    decreases |s| - pos
  {
    if pos == |s| then "" else Emit(s, pos, inside) + Translated(s, pos + 1, InsideAfter(s, pos, inside))
  }

  /** mc_search__glob_translate_to_regex */
  method GlobTranslateToRegex(s: string) returns (buff: string)
    ensures buff == Translated(s, 0, false)
  {
    hide EscapedAt;
    buff := "";
    var insideGroup, loop := false, 0;
    while loop < |s|
      invariant loop <= |s|
      invariant buff + Translated(s, loop, insideGroup) == Translated(s, 0, false)
    {
      var escaped := IsCharEscaped(s, loop);
      ghost var was, inside := buff, insideGroup;
      match s[loop] {
        case '*' =>
          buff := buff + (if escaped then "*" else if insideGroup then ".*" else "(.*)");
        case '?' =>
          buff := buff + (if escaped then "?" else if insideGroup then "." else "(.)");
        case ',' =>
          buff := buff + (if !escaped && insideGroup then "|" else ",");
        case '{' =>
          if escaped {
            buff := buff + "{";
          } else {
            buff, insideGroup := buff + "(", true;
          }
        case '}' =>
          if escaped {
            buff := buff + "}";
          } else {
            buff, insideGroup := buff + ")", false;
          }
        case c =>
          if c == '+' || c == '.' || c == '$' || c == '(' || c == ')' || c == '^' {
            buff := buff + ['\\'];
            assert buff + [c] == was + ['\\', c];
          }
          buff := buff + [c];
      }
      assert buff == was + Emit(s, loop, inside);
      assert insideGroup == InsideAfter(s, loop, inside);
      Assoc(was, Emit(s, loop, inside), Translated(s, loop + 1, insideGroup));
      loop := loop + 1;
    }
  }

  // ---------------------------------------------------------------- the translation of a printed pattern

  function AtomOut(a: Atom, inside: bool): string
  {
    match a
    case Lit(c) => if c in "+.$()^" then ['\\', c] else [c]
    case Esc(c) => ['\\', c]
    case Star => if inside then ".*" else "(.*)"
    case Quest => if inside then "." else "(.)"
  }

  function AtomsOut(as_: seq<Atom>, inside: bool): string
  {
    if as_ == [] then "" else AtomOut(as_[0], inside) + AtomsOut(as_[1..], inside)
  }

  function AltsOut(alts: seq<seq<Atom>>): string
    requires alts != []
  {
    if |alts| == 1 then AtomsOut(alts[0], true) else AtomsOut(alts[0], true) + "|" + AltsOut(alts[1..])
  }

  function TokOut(t: Tok): string
    requires WellFormed(t)
  {
    match t
    case Simple(a) => AtomOut(a, false)
    case Braces(alts) => "(" + AltsOut(alts) + ")"
  }

  function GlobOut(g: seq<Tok>): string
    requires WellFormedGlob(g)
  {
    if g == [] then "" else TokOut(g[0]) + GlobOut(g[1..])
  }

  /** After before, the text t comes out as out and the scan goes on in state after. */
  ghost predicate Yields(before: string, t: string, rest: string, inside: bool, out: string, after: bool)
  {
    Translated(before + t + rest, |before|, inside)
    == out + Translated(before + t + rest, |before| + |t|, after)
  }

  /** One unescaped character. */
  lemma YieldsChar(before: string, c: char, rest: string, inside: bool)
    requires Closed(before)
    ensures var s := before + [c] + rest;
            s[|before|] == c && !EscapedAt(s, |before|)
            && Yields(before, [c], rest, inside, Emit(s, |before|, inside), InsideAfter(s, |before|, inside))
  {
    hide Trailing, Emit, InsideAfter;
    var s := before + [c] + rest;
    assert s[..|before|] == before;
    assert s[|before|] == c;
  }

  lemma YieldsThen(before: string, t: string, u: string, rest: string, inside: bool,
                   out: string, mid: bool, out': string, after: bool)
    requires Yields(before, t, u + rest, inside, out, mid)
    requires Yields(before + t, u, rest, mid, out', after)
    ensures Yields(before, t + u, rest, inside, out + out', after)
  {
    hide Translated;
    var s := before + (t + u) + rest;
    assert before + t + (u + rest) == s && before + t + u + rest == s;
    Assoc(out, out', Translated(s, |before| + |t + u|, after));
  }

  lemma YieldsEscaped(before: string, c: char, rest: string, inside: bool)
    requires Closed(before) && IsWild(c)
    ensures Yields(before, ['\\', c], rest, inside, ['\\', c], inside)
  {
    hide Trailing, Translated;
    var s := before + ['\\', c] + rest;
    var pos := |before|;
    ClosedPair(before, c);
    assert s[..pos] == before && s[..pos + 1] == before + ['\\'];
    assert s[pos] == '\\' && s[pos + 1] == c;
    TranslatedStep(s, pos, inside);
    TranslatedStep(s, pos + 1, inside);
    Assoc("\\", [c], Translated(s, pos + 2, inside));
  }

  lemma TranslatedStep(s: string, pos: nat, inside: bool)
    requires pos < |s|
    ensures Translated(s, pos, inside) == Emit(s, pos, inside) + Translated(s, pos + 1, InsideAfter(s, pos, inside))
  {
  }

  lemma YieldsAtom(before: string, a: Atom, rest: string, inside: bool)
    requires Closed(before) && WellFormedAtom(a, inside)
    ensures Yields(before, AtomText(a), rest, inside, AtomOut(a, inside), inside)
    ensures Closed(before + AtomText(a))
  {
    hide Yields, Trailing, EscapedAt;
    match a {
      case Esc(c) =>
        YieldsEscaped(before, c, rest, inside);
        ClosedPair(before, c);
      case _ =>
        var t := AtomText(a);
        YieldsChar(before, t[0], rest, inside);
        TrailingNone(before, t);
        assert t == [t[0]];
    }
  }

  lemma YieldsNothing(before: string, rest: string, inside: bool)
    ensures Yields(before, "", rest, inside, "", inside)
  {
  }

  lemma {:induction false} YieldsAtoms(before: string, as_: seq<Atom>, rest: string, inside: bool)
    requires Closed(before) && WellFormedAtoms(as_, inside)
    ensures Yields(before, AtomsText(as_), rest, inside, AtomsOut(as_, inside), inside)
    ensures Closed(before + AtomsText(as_))
    decreases |as_|
  {
    hide Yields, AtomText, AtomOut, Trailing;
    if as_ == [] {
      YieldsNothing(before, rest, inside);
      assert before + "" == before;
    } else {
      var t, u := AtomText(as_[0]), AtomsText(as_[1..]);
      YieldsAtom(before, as_[0], u + rest, inside);
      YieldsAtoms(before + t, as_[1..], rest, inside);
      YieldsThen(before, t, u, rest, inside, AtomOut(as_[0], inside), inside, AtomsOut(as_[1..], inside), inside);
      Assoc(before, t, u);
    }
  }

  lemma YieldsMark(before: string, c: char, rest: string, inside: bool)
    requires Closed(before) && c in ",{}" && (c == ',' ==> inside)
    ensures Yields(before, [c], rest, inside, if c == ',' then "|" else if c == '{' then "(" else ")", c != '}')
    ensures Closed(before + [c])
  {
    hide Yields, Trailing, EscapedAt;
    YieldsChar(before, c, rest, inside);
    TrailingNone(before, [c]);
  }

  lemma {:induction false} YieldsAlts(before: string, alts: seq<seq<Atom>>, rest: string)
    requires Closed(before) && WellFormed(Braces(alts))
    ensures Yields(before, AltsText(alts), rest, true, AltsOut(alts), true)
    ensures Closed(before + AltsText(alts))
    decreases |alts|
  {
    hide Yields, AtomsText, AtomsOut, Trailing;
    if |alts| == 1 {
      YieldsAtoms(before, alts[0], rest, true);
    } else {
      var t, v := AtomsText(alts[0]), AltsText(alts[1..]);
      var tail := "," + v;
      YieldsAtoms(before, alts[0], tail + rest, true);
      YieldsMark(before + t, ',', v + rest, true);
      YieldsAlts(before + t + ",", alts[1..], rest);
      YieldsThen(before + t, ",", v, rest, true, "|", true, AltsOut(alts[1..]), true);
      YieldsThen(before, t, tail, rest, true, AtomsOut(alts[0], true), true, "|" + AltsOut(alts[1..]), true);
      Assoc(t, ",", v);
      Assoc(AtomsOut(alts[0], true), "|", AltsOut(alts[1..]));
      assert before + t + "," + v == before + (t + "," + v);
    }
  }

  lemma YieldsTok(before: string, t: Tok, rest: string)
    requires Closed(before) && WellFormed(t)
    ensures Yields(before, TokText(t), rest, false, TokOut(t), false)
    ensures Closed(before + TokText(t))
  {
    hide Yields, AltsText, AltsOut, AtomText, AtomOut, Trailing;
    match t {
      case Simple(a) =>
        YieldsAtom(before, a, rest, false);
      case Braces(alts) =>
        var v := AltsText(alts);
        var tail := v + "}";
        YieldsMark(before, '{', tail + rest, false);
        YieldsAlts(before + "{", alts, "}" + rest);
        YieldsMark(before + "{" + v, '}', rest, true);
        YieldsThen(before + "{", v, "}", rest, true, AltsOut(alts), true, ")", false);
        YieldsThen(before, "{", tail, rest, false, "(", true, AltsOut(alts) + ")", false);
        Assoc("{", v, "}");
        Assoc("(", AltsOut(alts), ")");
        assert before + "{" + v + "}" == before + ("{" + v + "}");
    }
  }

  lemma {:induction false} YieldsGlob(before: string, g: seq<Tok>, rest: string)
    requires Closed(before) && WellFormedGlob(g)
    ensures Yields(before, GlobText(g), rest, false, GlobOut(g), false)
    decreases |g|
  {
    hide Yields, TokText, TokOut, Trailing;
    if g == [] {
      YieldsNothing(before, rest, false);
    } else {
      var t, u := TokText(g[0]), GlobText(g[1..]);
      YieldsTok(before, g[0], u + rest);
      YieldsGlob(before + t, g[1..], rest);
      YieldsThen(before, t, u, rest, false, TokOut(g[0]), false, GlobOut(g[1..]), false);
    }
  }

  lemma TranslatedGlob(g: seq<Tok>)
    requires WellFormedGlob(g)
    ensures Translated(GlobText(g), 0, false) == GlobOut(g)
  {
    hide GlobText, GlobOut;
    YieldsGlob("", g, "");
    assert "" + GlobText(g) + "" == GlobText(g);
    assert GlobOut(g) + "" == GlobOut(g);
  }

  // ---------------------------------------------------------------- the regular expression it is

  ghost function AtomRe(a: Atom, inside: bool): Re
  {
    match a
    case Lit(c) => Chr(c)
    case Esc(c) => Chr(c)
    case Star => if inside then AnyStar else Re.Group(CatAll([AnyStar]))
    case Quest => if inside then Any else Re.Group(CatAll([Any]))
  }

  ghost function AtomsRe(as_: seq<Atom>, inside: bool): seq<Re>
  {
    seq(|as_|, i requires 0 <= i < |as_| => AtomRe(as_[i], inside))
  }

  function AtomsTexts(as_: seq<Atom>, inside: bool): seq<string>
  {
    seq(|as_|, i requires 0 <= i < |as_| => AtomOut(as_[i], inside))
  }

  ghost function AltsRe(alts: seq<seq<Atom>>): Re
    requires alts != []
  {
    if |alts| == 1 then CatAll(AtomsRe(alts[0], true)) else Alt(CatAll(AtomsRe(alts[0], true)), AltsRe(alts[1..]))
  }

  ghost function TokRe(t: Tok): Re
    requires WellFormed(t)
  {
    match t
    case Simple(a) => AtomRe(a, false)
    case Braces(alts) => Re.Group(AltsRe(alts))
  }

  ghost function GlobRes(g: seq<Tok>): seq<Re>
    requires WellFormedGlob(g)
  {
    seq(|g|, i requires 0 <= i < |g| => TokRe(g[i]))
  }

  function GlobTexts(g: seq<Tok>): seq<string>
    requires WellFormedGlob(g)
  {
    seq(|g|, i requires 0 <= i < |g| => TokOut(g[i]))
  }

  lemma {:induction false} AtomsTextsConcat(as_: seq<Atom>, inside: bool)
    ensures Concat(AtomsTexts(as_, inside)) == AtomsOut(as_, inside)
    decreases |as_|
  {
    hide AtomOut;
    if as_ != [] {
      assert AtomsTexts(as_, inside)[1..] == AtomsTexts(as_[1..], inside);
      AtomsTextsConcat(as_[1..], inside);
    }
  }

  lemma {:induction false} GlobTextsConcat(g: seq<Tok>)
    requires WellFormedGlob(g)
    ensures Concat(GlobTexts(g)) == GlobOut(g)
    decreases |g|
  {
    hide TokOut;
    if g != [] {
      assert GlobTexts(g)[1..] == GlobTexts(g[1..]);
      GlobTextsConcat(g[1..]);
    }
  }

  /** A single piece in parentheses. */
  lemma GroupedPiece(t: string, r: Re)
    requires IsPiece(t, r)
    ensures IsPiece("(" + t + ")", Re.Group(CatAll([r])))
  {
    hide ParseCat, ParseAtom, IsPiece;
    forall rest: string ensures ParseAlt(t + (")" + rest)) == Some((CatAll([r]), ")" + rest)) {
      ParsePieces([t], [r], ")" + rest);
      ConcatOne(t);
    }
    GroupPiece(t, CatAll([r]));
  }

  lemma ConcatOne(t: string)
    ensures Concat([t]) == t
  {
    assert [t][1..] == [];
  }

  lemma LitIsPlainOrEscaped(c: char)
    requires IsPlain(c)
    ensures if c in "+.$()^" then !IsAlnum(c) else !IsMeta(c)
  {
  }

  lemma WildIsNotAlnum(c: char)
    requires IsWild(c)
    ensures !IsAlnum(c)
  {
  }

  lemma AtomPiece(a: Atom, inside: bool)
    requires WellFormedAtom(a, inside)
    ensures IsPiece(AtomOut(a, inside), AtomRe(a, inside))
  {
    hide IsPiece, IsMeta, IsAlnum, CatAll;
    AnyPiece();
    AnyStarPiece();
    match a {
      case Lit(c) =>
        LitIsPlainOrEscaped(c);
        if c in "+.$()^" {
          EscapedPiece(c);
        } else {
          PlainPiece(c);
        }
      case Esc(c) =>
        WildIsNotAlnum(c);
        EscapedPiece(c);
      case Star =>
        GroupedPiece(".*", AnyStar);
        assert "(" + ".*" + ")" == "(.*)";
      case Quest =>
        GroupedPiece(".", Any);
        assert "(" + "." + ")" == "(.)";
    }
  }

  lemma ParseAtoms(as_: seq<Atom>, inside: bool, rest: string)
    requires WellFormedAtoms(as_, inside) && Stops(rest)
    ensures ParseCat(AtomsOut(as_, inside) + rest) == Some((CatAll(AtomsRe(as_, inside)), rest))
  {
    hide IsPiece, ParseCat, AtomOut, AtomRe, CatAll, Concat;
    forall i | 0 <= i < |as_| ensures IsPiece(AtomsTexts(as_, inside)[i], AtomsRe(as_, inside)[i]) {
      AtomPiece(as_[i], inside);
    }
    ParsePieces(AtomsTexts(as_, inside), AtomsRe(as_, inside), rest);
    AtomsTextsConcat(as_, inside);
  }

  lemma {:induction false} ParseAlts(alts: seq<seq<Atom>>, rest: string)
    requires WellFormed(Braces(alts)) && rest != "" && rest[0] == ')'
    ensures ParseAlt(AltsOut(alts) + rest) == Some((AltsRe(alts), rest))
    decreases |alts|
  {
    hide ParseCat, AtomsOut, AtomsRe, CatAll;
    if |alts| == 1 {
      ParseAtoms(alts[0], true, rest);
    } else {
      var t, v := AtomsOut(alts[0], true), AltsOut(alts[1..]) + rest;
      ParseAlts(alts[1..], rest);
      ParseAtoms(alts[0], true, "|" + v);
      assert AltsOut(alts) + rest == t + ("|" + v);
      assert ("|" + v)[1..] == v;
    }
  }

  lemma TokPiece(t: Tok)
    requires WellFormed(t)
    ensures IsPiece(TokOut(t), TokRe(t))
  {
    hide IsPiece, ParseAlt, AltsOut, AltsRe;
    match t {
      case Simple(a) => AtomPiece(a, false);
      case Braces(alts) =>
        forall rest: string ensures ParseAlt(AltsOut(alts) + (")" + rest)) == Some((AltsRe(alts), ")" + rest)) {
          ParseAlts(alts, ")" + rest);
        }
        GroupPiece(AltsOut(alts), AltsRe(alts));
    }
  }

  /** The translated pattern parses, and this is what it is. */
  lemma GlobDenotes(g: seq<Tok>)
    requires WellFormedGlob(g)
    ensures Denotes(Translated(GlobText(g), 0, false), CatAll(GlobRes(g)))
  {
    hide IsPiece, ParseCat, TokOut, TokRe, CatAll, Concat, Translated;
    TranslatedGlob(g);
    forall i | 0 <= i < |g| ensures IsPiece(GlobTexts(g)[i], GlobRes(g)[i]) {
      TokPiece(g[i]);
    }
    ParsePieces(GlobTexts(g), GlobRes(g), "");
    GlobTextsConcat(g);
    assert GlobOut(g) + "" == GlobOut(g);
  }

  // ---------------------------------------------------------------- its language

  lemma GroupedMatches(r: Re, w: string)
    ensures Matches(Re.Group(CatAll([r])), w) <==> Matches(r, w)
  {
    CatAllMatches([r], w);
    assert w[..|w|] == w && w[|w|..] == "";
    assert [r][1..] == [];
    if MatchesAll([r], w) {
      var k :| 0 <= k <= |w| && Matches(r, w[..k]) && MatchesAll([r][1..], w[k..]);
      assert k == |w|;
    }
  }

  lemma AtomLanguage(a: Atom, inside: bool, w: string)
    ensures Matches(AtomRe(a, inside), w) <==> AtomMatches(a, w)
  {
    GroupedMatches(AnyStar, w);
    GroupedMatches(Any, w);
    hide CatAll;
  }

  lemma {:induction false} AtomsLanguage(as_: seq<Atom>, inside: bool, w: string)
    ensures MatchesAll(AtomsRe(as_, inside), w) <==> AtomsMatch(as_, w)
    decreases |as_|
  {
    hide Matches, AtomMatches, AtomRe;
    if as_ != [] {
      var rs := AtomsRe(as_, inside);
      assert rs[1..] == AtomsRe(as_[1..], inside);
      forall k | 0 <= k <= |w|
        ensures Matches(rs[0], w[..k]) && MatchesAll(rs[1..], w[k..])
                <==> AtomMatches(as_[0], w[..k]) && AtomsMatch(as_[1..], w[k..])
      {
        AtomLanguage(as_[0], inside, w[..k]);
        AtomsLanguage(as_[1..], inside, w[k..]);
      }
    }
  }

  lemma {:induction false} AltsLanguage(alts: seq<seq<Atom>>, w: string)
    requires alts != []
    ensures Matches(AltsRe(alts), w) <==> exists i :: 0 <= i < |alts| && AtomsMatch(alts[i], w)
    decreases |alts|
  {
    hide CatAll, AtomsRe, AtomsMatch;
    CatAllMatches(AtomsRe(alts[0], true), w);
    AtomsLanguage(alts[0], true, w);
    if |alts| > 1 {
      AltsLanguage(alts[1..], w);
      if AtomsMatch(alts[0], w) {
        assert 0 <= 0 < |alts| && AtomsMatch(alts[0], w);
      }
      if Matches(AltsRe(alts[1..]), w) {
        var i :| 0 <= i < |alts[1..]| && AtomsMatch(alts[1..][i], w);
        assert AtomsMatch(alts[i + 1], w);
      }
      if exists i :: 0 <= i < |alts| && AtomsMatch(alts[i], w) {
        var i :| 0 <= i < |alts| && AtomsMatch(alts[i], w);
        assert i > 0 ==> AtomsMatch(alts[1..][i - 1], w);
      }
    }
  }

  lemma TokLanguage(t: Tok, w: string)
    requires WellFormed(t)
    ensures Matches(TokRe(t), w) <==> TokMatches(t, w)
  {
    match t {
      case Simple(a) => AtomLanguage(a, false, w);
      case Braces(alts) => AltsLanguage(alts, w);
    }
  }

  lemma {:induction false} GlobLanguage(g: seq<Tok>, w: string)
    requires WellFormedGlob(g)
    ensures MatchesAll(GlobRes(g), w) <==> GlobMatches(g, w)
    decreases |g|
  {
    hide Matches, TokMatches, TokRe;
    if g != [] {
      var rs := GlobRes(g);
      assert rs[1..] == GlobRes(g[1..]);
      forall k | 0 <= k <= |w|
        ensures Matches(rs[0], w[..k]) && MatchesAll(rs[1..], w[k..])
                <==> TokMatches(g[0], w[..k]) && GlobMatches(g[1..], w[k..])
      {
        TokLanguage(g[0], w[..k]);
        GlobLanguage(g[1..], w[k..]);
      }
    }
  }

  /** The translated pattern, as a full-match regular expression, accepts exactly the pattern's
      language. */
  lemma GlobIsExact(g: seq<Tok>, w: string)
    requires WellFormedGlob(g)
    ensures Accepts(Translated(GlobText(g), 0, false), w) <==> GlobMatches(g, w)
  {
    hide Translated, GlobText, CatAll, Matches, ParseAlt;
    GlobDenotes(g);
    CatAllMatches(GlobRes(g), w);
    GlobLanguage(g, w);
  }

  /** An escaped dot is escaped once more: the expression asks for a backslash and any character. */
  lemma EscapedDot(w: string)
    ensures Translated("\\.", 0, false) == "\\\\."
    ensures Accepts("\\\\.", w) <==> |w| == 2 && w[0] == '\\'
  {
    EmitDot();
    hide Translated, ParseAlt, Matches;
    var rs := [Chr('\\'), Any];
    BackslashDot();
    CatAllMatches(rs, w);
    BackslashAny(w);
    assert Denotes("\\\\.", CatAll(rs));
  }

  lemma EmitDot()
    ensures Translated("\\.", 0, false) == "\\\\."
  {
    var s := "\\.";
    assert s[..0] == "" && s[..1] == "\\";
    assert Trailing(s[..1]) == 1 + Trailing("\\"[..0]);
    hide Trailing;
    assert Emit(s, 0, false) == "\\" && Emit(s, 1, false) == "\\.";
    assert Translated(s, 2, false) == "" && Translated(s, 1, false) == "\\." + "";
  }

  lemma BackslashDot()
    ensures ParseAlt("\\\\.") == Some((CatAll([Chr('\\'), Any]), ""))
  {
    var ts, rs := ["\\\\", "."], [Chr('\\'), Any];
    EscapedPiece('\\');
    AnyPiece();
    hide IsPiece, ParseCat;
    assert ['\\', '\\'] == "\\\\";
    ParsePieces(ts, rs, "");
    assert ts[1..] == ["."] && ts[1..][1..] == [] && Concat(ts[1..]) == "." + "";
    assert Concat(ts) + "" == "\\\\.";
  }

  lemma BackslashAny(w: string)
    ensures MatchesAll([Chr('\\'), Any], w) <==> |w| == 2 && w[0] == '\\'
  {
    var rs := [Chr('\\'), Any];
    assert rs[1..] == [Any];
    forall k | 0 <= k <= |w| ensures MatchesAll(rs[1..], w[k..]) <==> |w| == k + 1 {
      OneAny(w[k..]);
    }
    hide MatchesAll;
    MatchesFirst(rs, w);
    if MatchesAll(rs, w) {
      var k :| 0 <= k <= |w| && Matches(rs[0], w[..k]) && MatchesAll(rs[1..], w[k..]);
      assert w[..k] == "\\";
    }
    if |w| == 2 && w[0] == '\\' {
      assert w[..1] == "\\";
      assert Matches(rs[0], w[..1]) && MatchesAll(rs[1..], w[1..]);
    }
  }

  lemma MatchesFirst(rs: seq<Re>, w: string)
    requires rs != []
    ensures MatchesAll(rs, w) <==> exists k :: 0 <= k <= |w| && Matches(rs[0], w[..k]) && MatchesAll(rs[1..], w[k..])
  {
  }

  lemma OneAny(w: string)
    ensures MatchesAll([Any], w) <==> |w| == 1
  {
    var rs := [Any];
    assert rs[1..] == [];
    MatchesFirst(rs, w);
    if |w| == 1 {
      assert w[..1] == w && w[1..] == "";
      assert Matches(rs[0], w[..1]) && MatchesAll(rs[1..], w[1..]);
    }
  }
}
