/**
 Replacement with shell patterns (lib/search/glob.c): the wildcards of the replacement stand for
 the captures of the search pattern, in order.
 */
module GlobReplace {
  import RX = Regex
  import G = Glob
  import opened ReplaceTemplate
  import R = Replace
  import opened Sequences

  /** What the translator makes of the rest of a replacement; count is the character that names
      the last wildcard, as a char wraps around. */
  function TemplateText(s: string, count: nat, escaped: bool): string
    decreases |s|
  {
    if s == "" then ""
    else if s[0] == '\\' && !escaped then "\\" + TemplateText(s[1..], count, true)
    else if (s[0] == '*' || s[0] == '?') && !escaped then
      ['\\', ((count + 1) % 256) as char] + TemplateText(s[1..], count + 1, false)
    else if s[0] == '&' && !escaped then "\\&" + TemplateText(s[1..], count, false)
    else [s[0]] + TemplateText(s[1..], count, false)
  }

  const ZERO := '0' as int

  /** mc_search__translate_replace_glob_to_regex */
  method TranslateReplaceGlobToRegex(str: string) returns (buff: string)
    ensures buff == TemplateText(str, ZERO, false)
  {
    buff := "";
    var cnt: nat, escapedMode, p := ZERO, false, 0;
    assert str[0..] == str;
    while p < |str|
      invariant 0 <= p <= |str|
      invariant buff + TemplateText(str[p..], cnt, escapedMode) == TemplateText(str, ZERO, false)
    {
      ghost var was, rest := buff, str[p + 1..];
      var c := str[p];
      assert str[p..][0] == c && str[p..][1..] == rest;
      p := p + 1;
      if c == '\\' && !escapedMode {
        escapedMode := true;
        buff := buff + "\\";
        Assoc(was, "\\", TemplateText(rest, cnt, true));
        continue;
      }
      if (c == '*' || c == '?') && !escapedMode {
        buff := buff + "\\";
        cnt := cnt + 1;
        c := (cnt % 256) as char;
        assert buff + [c] == was + ['\\', c];
        Assoc(was, ['\\', c], TemplateText(rest, cnt, false));
      } else if c == '&' && !escapedMode {
        buff := buff + "\\";
        assert buff + [c] == was + "\\&";
        Assoc(was, "\\&", TemplateText(rest, cnt, false));
      } else {
        Assoc(was, [c], TemplateText(rest, cnt, false));
      }
      buff := buff + [c];
      escapedMode := false;
    }
  }

  // ---------------------------------------------------------------- a pattern that replaces itself

  /** Literals, "*", "?" and escaped wildcards; an escaped opening brace is the start of a code in a template. */
  predicate IsSelf(as_: seq<G.Atom>)
  {
    forall i :: 0 <= i < |as_| ==>
      match as_[i]
      case Lit(c) => G.IsPlain(c) && c != '\0'
      case Esc(c) => c in "*?,}\\"
      case _ => true
  }

  function Wildcards(as_: seq<G.Atom>): nat
  {
    if as_ == [] then 0 else Wildcards(as_[1..]) + Count(as_[0])
  }

  function Simples(as_: seq<G.Atom>): seq<G.Tok>
  {
    seq(|as_|, i requires 0 <= i < |as_| => G.Simple(as_[i]))
  }

  /** The template item of an atom that comes after n wildcards. */
  function ItemOf(a: G.Atom, n: nat): Item
    requires n <= 9
  {
    match a
    case Lit(c) => if c == '&' then Quoted(c) else Lit(c)
    case Esc(c) => Quoted(c)
    case _ => Group((ZERO + n + 1) as char)
  }

  function Count(a: G.Atom): nat
  {
    if a.Lit? || a.Esc? then 0 else 1
  }

  /** The template of a pattern that comes after n wildcards. */
  function Items(as_: seq<G.Atom>, n: nat): seq<Item>
    requires n + Wildcards(as_) <= 9
  {
    if as_ == [] then [] else [ItemOf(as_[0], n)] + Items(as_[1..], n + Count(as_[0]))
  }

  lemma {:induction false} SimplesText(as_: seq<G.Atom>)
    requires IsSelf(as_)
    ensures G.WellFormedGlob(Simples(as_)) && G.GlobText(Simples(as_)) == G.AtomsText(as_)
    decreases |as_|
  {
    hide G.IsPlain, G.AtomText;
    if as_ != [] {
      assert Simples(as_)[1..] == Simples(as_[1..]);
      SimplesText(as_[1..]);
    }
  }

  lemma ItemsWellFormed(as_: seq<G.Atom>, n: nat)
    requires IsSelf(as_) && n + Wildcards(as_) <= 9
    ensures forall i :: 0 <= i < |Items(as_, n)| ==> WellFormed(Items(as_, n)[i]) && Items(as_, n)[i] != Lit('{')
    ensures AllWellFormed(Items(as_, n))
    ensures forall i :: 0 <= i < |Items(as_, n)| ==> Ref(Items(as_, n)[i]) <= n + Wildcards(as_)
    ensures forall i :: 0 <= i < |Items(as_, n)| ==> !Items(as_, n)[i].Case?
    decreases |as_|
  {
    if as_ != [] {
      ItemsWellFormed(as_[1..], n + Count(as_[0]));
    }
  }

  lemma MaxOfRefs(items: seq<Item>, n: nat)
    requires AllWellFormed(items) && forall i :: 0 <= i < |items| ==> Ref(items[i]) <= n
    ensures MaxRef(items) <= n
    decreases |items|
  {
    hide Ref, WellFormed;
    if items != [] {
      MaxOfRefs(items[..|items| - 1], n);
    }
  }

  /** Translating the pattern prints its template. */
  lemma {:induction false} TemplateOfPattern(as_: seq<G.Atom>, n: nat)
    requires IsSelf(as_) && n + Wildcards(as_) <= 9
    ensures TemplateText(G.AtomsText(as_), ZERO + n, false) == Print(Items(as_, n))
    decreases |as_|
  {
    if as_ != [] {
      hide TemplateText, PrintItem, ItemOf, G.AtomText;
      var a, rest := as_[0], as_[1..];
      assert forall i :: 0 <= i < |[a]| ==> [a][i] == as_[0];
      TemplateAtom(a, G.AtomsText(rest), n);
      TemplateOfPattern(rest, n + Count(a));
      assert Items(as_, n)[1..] == Items(rest, n + Count(a));
    }
  }

  lemma TemplateAtom(a: G.Atom, u: string, n: nat)
    requires IsSelf([a]) && n + Count(a) <= 9
    ensures TemplateText(G.AtomText(a) + u, ZERO + n, false)
            == PrintItem(ItemOf(a, n)) + TemplateText(u, ZERO + n + Count(a), false)
  {
    assert [a][0] == a;
    var t := G.AtomText(a);
    assert (t + u)[0] == t[0];
    if a.Esc? {
      assert (t + u)[1..] == [a.c] + u && ([a.c] + u)[1..] == u;
    } else {
      assert (t + u)[1..] == u;
    }
  }

  lemma {:induction false} NoFlags(items: seq<Item>, waiting: string)
    requires forall i :: 0 <= i < |items| ==> !items[i].Case?
    ensures FlagsMeetStableText(items, waiting, AsIs)
    decreases |items|
  {
    if items != [] {
      NoFlags(items[1..], if items[0].Lit? then waiting + [items[0].c] else "");
    }
  }

  /** The captures of a match, put back in the place of the wildcards, give the subject. */
  lemma {:induction false} ExpandSelf(as_: seq<G.Atom>, n: nat, w: string, caps: seq<string>, mt: Match)
    requires IsSelf(as_) && n + Wildcards(as_) <= 9 && RX.Captures(PatternRe(as_), w, caps)
    requires forall j :: 0 <= j < |caps| ==> mt.capture(n + 1 + j) == caps[j]
    requires AllWellFormed(Items(as_, n))
    ensures Expand(Items(as_, n), AsIs, mt) == w && |caps| == Wildcards(as_)
    decreases |as_|
  {
    hide *;
    if as_ == [] {
      ExpandNothing(as_, n, w, caps, mt);
    } else {
      var a, rest, m := as_[0], as_[1..], n + Count(as_[0]);
      PatternStep(as_, n);
      var head, tail := G.AtomRe(a, false), PatternRe(rest);
      var k := CapturesStep(head, tail, w, caps);
      var g := Count(a);
      AtomCaptures(a, w[..k], caps[..g]);
      CapturesShift(mt, caps, n, g);
      ItemsWellFormed(rest, m);
      ExpandSelf(rest, m, w[k..], caps[g..], mt);
      assert w == w[..k] + w[k..];
      CountIs(a);
      ItemWritten(a, n, w[..k], mt);
      ExpandCons(Items(as_, n), mt);
    }
  }

  lemma CountIs(a: G.Atom)
    ensures Count(a) == if a.Lit? || a.Esc? then 0 else 1
  {
  }

  lemma CapturesShift(mt: Match, caps: seq<string>, n: nat, g: nat)
    requires g <= |caps| && forall j :: 0 <= j < |caps| ==> mt.capture(n + 1 + j) == caps[j]
    ensures forall j :: 0 <= j < |caps[g..]| ==> mt.capture(n + g + 1 + j) == caps[g..][j]
    ensures g == 1 ==> mt.capture(n + 1) == caps[..g][0]
  {
    forall j | 0 <= j < |caps[g..]| ensures mt.capture(n + g + 1 + j) == caps[g..][j] {
      assert mt.capture(n + 1 + (g + j)) == caps[g + j];
      assert n + 1 + (g + j) == n + g + 1 + j;
    }
    assert g == 1 ==> mt.capture(n + 1 + 0) == caps[0];
  }

  lemma ExpandNothing(as_: seq<G.Atom>, n: nat, w: string, caps: seq<string>, mt: Match)
    requires as_ == [] && n <= 9 && RX.Captures(PatternRe(as_), w, caps) && AllWellFormed(Items(as_, n))
    ensures Expand(Items(as_, n), AsIs, mt) == w && |caps| == Wildcards(as_)
  {
    assert PatternRe(as_) == RX.Eps;
  }

  /** The regular expression of a pattern. */
  ghost function PatternRe(as_: seq<G.Atom>): RX.Re
    requires IsSelf(as_)
  {
    SimplesText(as_);
    RX.CatAll(G.GlobRes(Simples(as_)))
  }

  lemma PatternStep(as_: seq<G.Atom>, n: nat)
    requires as_ != [] && IsSelf(as_) && n + Wildcards(as_) <= 9
    ensures var a, rest, m := as_[0], as_[1..], n + Count(as_[0]);
            IsSelf(rest) && m + Wildcards(rest) <= 9 && Wildcards(as_) == Wildcards(rest) + Count(a)
            && (a.Lit? || a.Esc? || n <= 8) && n <= 9
            && PatternRe(as_) == RX.Cat(G.AtomRe(a, false), PatternRe(rest))
            && Items(as_, n) == [ItemOf(a, n)] + Items(rest, m)
            && WellFormed(ItemOf(a, n)) && !ItemOf(a, n).Case?
            && Items(as_, n)[0] == ItemOf(a, n) && Items(as_, n)[1..] == Items(rest, m)
            && Items(as_, n) != [] && AllWellFormed(Items(as_, n))
            && RX.Groups(G.AtomRe(a, false)) == Count(a)
  {
    hide G.AtomRe, G.IsPlain;
    ItemsWellFormed(as_, n);
    SimplesText(as_);
    SimplesText(as_[1..]);
    assert Simples(as_)[1..] == Simples(as_[1..]);
    assert G.GlobRes(Simples(as_))[1..] == G.GlobRes(Simples(as_[1..]));
    assert Items(as_, n)[0] == ItemOf(as_[0], n);
    AtomGroups(as_[0]);
  }

  lemma AtomGroups(a: G.Atom)
    ensures RX.Groups(G.AtomRe(a, false)) == Count(a)
  {
    if !a.Lit? && !a.Esc? {
      var x := if a.Star? then RX.AnyStar else RX.Any;
      assert RX.CatAll([x]) == RX.Cat(x, RX.Eps) by {
        assert [x][1..] == [];
      }
    }
  }

  lemma CapturesStep(head: RX.Re, tail: RX.Re, w: string, caps: seq<string>) returns (k: nat)
    requires RX.Captures(RX.Cat(head, tail), w, caps)
    ensures k <= |w| && |caps| == RX.Groups(head) + RX.Groups(tail)
    ensures RX.Captures(head, w[..k], caps[..RX.Groups(head)]) && RX.Captures(tail, w[k..], caps[RX.Groups(head)..])
  {
    var g := RX.Groups(head);
    k :| 0 <= k <= |w| && RX.Captures(head, w[..k], caps[..g]) && RX.Captures(tail, w[k..], caps[g..]);
  }

  lemma ExpandCons(items: seq<Item>, mt: Match)
    requires items != [] && AllWellFormed(items) && !items[0].Case?
    ensures AllWellFormed(items[1..])
    ensures Expand(items, AsIs, mt) == Written(items[0], AsIs, mt) + Expand(items[1..], AsIs, mt)
  {
    hide Written;
  }

  lemma ItemWritten(a: G.Atom, n: nat, w: string, mt: Match)
    requires n <= 8 || a.Lit? || a.Esc?
    requires n <= 9 && WellFormed(ItemOf(a, n))
    requires if a.Lit? || a.Esc? then w == [a.c] else mt.capture(n + 1) == w
    ensures Written(ItemOf(a, n), AsIs, mt) == w
  {
  }

  lemma AtomCaptures(a: G.Atom, w: string, caps: seq<string>)
    requires RX.Captures(G.AtomRe(a, false), w, caps)
    ensures if a.Lit? || a.Esc? then w == [a.c] && caps == [] else caps == [w]
    ensures RX.Groups(G.AtomRe(a, false)) == if a.Lit? || a.Esc? then 0 else 1
  {
    if !a.Lit? && !a.Esc? {
      var x := if a.Star? then RX.AnyStar else RX.Any;
      assert RX.CatAll([x]) == RX.Cat(x, RX.Eps) by {
        assert [x][1..] == [];
      }
      assert RX.Groups(RX.CatAll([x])) == 0;
      assert |caps| == 1;
    }
  }

  /** What ten wildcards from the k-th on are made of, and what that gives. */
  function TenItems(k: nat): seq<Item>
    requires k <= 9
    decreases 9 - k
  {
    if k == 9 then [Quoted(':')] else [Group((ZERO + 1 + k) as char)] + TenItems(k + 1)
  }

  function TenTexts(k: nat, mt: Match): string
    requires k <= 9
    decreases 9 - k
  {
    if k == 9 then ":" else mt.capture(k + 1) + TenTexts(k + 1, mt)
  }

  function Stars(n: nat): string
  {
    if n == 0 then "" else "*" + Stars(n - 1)
  }

  lemma StarText(u: string, k: nat)
    requires k <= 9
    ensures TemplateText("*" + u, ZERO + k, false)
            == ['\\', (ZERO + k + 1) as char] + TemplateText(u, ZERO + k + 1, false)
  {
    assert ("*" + u)[1..] == u;
  }

  /** The tenth wildcard of a replacement is no reference: it stands for a colon. */
  lemma {:induction false} TenthIsColon(k: nat, mt: Match)
    requires k <= 9
    ensures AllWellFormed(TenItems(k)) && forall i :: 0 <= i < |TenItems(k)| ==> !TenItems(k)[i].Lit?
    ensures TemplateText(Stars(10 - k), ZERO + k, false) == Print(TenItems(k))
    ensures Expand(TenItems(k), AsIs, mt) == TenTexts(k, mt)
    decreases 9 - k
  {
    hide TemplateText;
    var items := TenItems(k);
    StarText(Stars(9 - k), k);
    if k == 9 {
      LastStar(mt);
    } else {
      hide WellFormed, Print, Written, Expand;
      TenthIsColon(k + 1, mt);
      assert items[1..] == TenItems(k + 1) && items[0] == Group((ZERO + 1 + k) as char);
      ReferenceFirst(items, k, mt);
    }
  }

  lemma LastStar(mt: Match)
    ensures TemplateText("", ZERO + 10, false) == "" && Print([Quoted(':')]) == "\\:"
    ensures AllWellFormed([Quoted(':')]) && Expand([Quoted(':')], AsIs, mt) == ":"
  {
    assert [Quoted(':')][1..] == [];
    assert Print([Quoted(':')]) == "\\:" + "";
  }

  lemma ReferenceFirst(items: seq<Item>, k: nat, mt: Match)
    requires k < 9 && items != [] && items[0] == Group((ZERO + 1 + k) as char) && AllWellFormed(items[1..])
    requires forall i :: 0 <= i < |items[1..]| ==> !items[1..][i].Lit?
    ensures AllWellFormed(items) && forall i :: 0 <= i < |items| ==> !items[i].Lit?
    ensures Print(items) == ['\\', (ZERO + 1 + k) as char] + Print(items[1..])
    ensures Expand(items, AsIs, mt) == mt.capture(k + 1) + Expand(items[1..], AsIs, mt)
  {
    hide Expand;
    assert forall i :: 0 < i < |items| ==> items[i] == items[1..][i - 1];
    ExpandCons(items, mt);
  }

  /** The replacement is the pattern as_ itself, and w is a subject that it matches with these captures. */
  ghost predicate SelfReplacement(replaceStr: string, mt: Match, numResults: int,
                                  as_: seq<G.Atom>, w: string, caps: seq<string>)
  {
    && IsSelf(as_) && Wildcards(as_) <= 9 && replaceStr == G.AtomsText(as_)
    && numResults == |caps| + 1 && MatchedBy(as_, w, caps, mt)
  }

  /** mc_search_glob_prepare_replace_str. When the replacement is the pattern itself, the result is the
      subject: the k-th wildcard is capture k on both sides. Every other replacement is expanded as its
      template is; the ghost parameters name the pattern and its match, or a reading of the template. */
  method GlobPrepareReplaceStr(replaceStr: string, mt: Match, numResults: int, ghost items: seq<Item>,
                               ghost as_: seq<G.Atom>, ghost w: string, ghost caps: seq<string>)
    returns (r: R.Outcome)
    requires replaceStr != ""
    ensures SelfReplacement(replaceStr, mt, numResults, as_, w, caps) ==> r == R.Replaced(w)
    ensures numResults < 0 ==> r == R.Replaced(TemplateText(replaceStr, ZERO, false))
    ensures !r.InvalidToken?
    ensures !SelfReplacement(replaceStr, mt, numResults, as_, w, caps) && numResults >= 0 && AllWellFormed(items)
            && TemplateText(replaceStr, ZERO, false) == Print(items) ==>
              r == if MaxRef(items) > numResults - 1 || MaxRef(items) > 64 then R.NotEqualToFound
                   else R.Replaced(ExpandLate(items, "", AsIs, mt))
  {
    hide TemplateText, MatchedBy, IsSelf, ExpandLate, MaxRef;
    var repl := TranslateReplaceGlobToRegex(replaceStr);
    TemplateNonempty(replaceStr, ZERO, false);
    ghost var reading := items;
    if SelfReplacement(replaceStr, mt, numResults, as_, w, caps) {
      reading := Items(as_, 0);
      SelfRename(as_, w, caps, mt);
      TemplateOfPattern(as_, 0);
    }
    r := R.PrepareReplaceStr(repl, mt, numResults, reading);
  }

  lemma TemplateNonempty(s: string, count: nat, escaped: bool)
    requires s != ""
    ensures TemplateText(s, count, escaped) != ""
  {
  }

  /** The pattern, translated for the search, matches w with these captures. */
  ghost predicate MatchedBy(as_: seq<G.Atom>, w: string, caps: seq<string>, mt: Match)
    requires IsSelf(as_)
  {
    && RX.Captures(PatternRe(as_), w, caps)
    && forall j :: 0 <= j < |caps| ==> mt.capture(1 + j) == caps[j]
  }

  /** The template of the pattern passes the arity check and expands to the subject. */
  lemma SelfRename(as_: seq<G.Atom>, w: string, caps: seq<string>, mt: Match)
    requires IsSelf(as_) && Wildcards(as_) <= 9 && MatchedBy(as_, w, caps, mt)
    ensures AllWellFormed(Items(as_, 0)) && MaxRef(Items(as_, 0)) <= |caps| <= 9
    ensures ExpandLate(Items(as_, 0), "", AsIs, mt) == w
  {
    hide FlagsMeetStableText, Expand, ExpandLate, Ref, WellFormed;
    ItemsWellFormed(as_, 0);
    ExpandSelf(as_, 0, w, caps, mt);
    MaxOfRefs(Items(as_, 0), Wildcards(as_));
    NoFlags(Items(as_, 0), "");
    R.ReplacementIsExpansion(Items(as_, 0), mt);
  }

  /** The regular expression the match is about is the translation of the pattern's own text. */
  lemma SearchedPattern(as_: seq<G.Atom>)
    requires IsSelf(as_)
    ensures RX.Denotes(G.Translated(G.AtomsText(as_), 0, false), PatternRe(as_))
  {
    hide G.Translated, G.GlobRes, RX.CatAll, RX.ParseAlt;
    SimplesText(as_);
    G.GlobDenotes(Simples(as_));
  }

  /** The subjects for which there is such a match are those that the translated pattern accepts. */
  lemma SubjectsAccepted(as_: seq<G.Atom>, w: string)
    requires IsSelf(as_)
    ensures RX.Accepts(G.Translated(G.AtomsText(as_), 0, false), w)
            <==> exists caps :: RX.Captures(PatternRe(as_), w, caps)
  {
    hide IsSelf, G.Translated, G.AtomsText, RX.ParseAlt;
    SearchedPattern(as_);
    var s, r := G.Translated(G.AtomsText(as_), 0, false), PatternRe(as_);
    if RX.Accepts(s, w) {
      var q :| RX.Denotes(s, q) && RX.Matches(q, w);
      assert q == r;
      var caps := RX.MatchCaptures(r, w);
      assert RX.Captures(PatternRe(as_), w, caps);
    }
    if caps :| RX.Captures(r, w, caps) {
      RX.CapturesMatch(r, w, caps);
    }
  }
}
