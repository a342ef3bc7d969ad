/**
 lib/terminal.c: the parameters of a control sequence (ECMA-48, section 5.4), as text and as numbers.
 */
module CsiParams {
  import opened Decimal

  const UINT32_RANGE := 0x1_0000_0000
  const MAX_PARAMS := 16
  const MAX_SUBS := 4

  predicate IsParam(c: char) { 0x30 <= c as int <= 0x3F }
  predicate IsInter(c: char) { 0x20 <= c as int <= 0x2F }
  predicate IsFinal(c: char) { 0x40 <= c as int <= 0x7E }
  predicate IsPrivate(c: char) { '<' <= c <= '?' }
  predicate IsPublic(c: char) { IsDigit(c) || c == ';' || c == ':' }

  function Last<T>(s: seq<T>): T
    requires s != []
  {
    s[|s| - 1]
  }

  function Init<T>(s: seq<T>): seq<T>
    requires s != []
  {
    s[..|s| - 1]
  }

  lemma Snoc<T>(s: seq<T>, x: T)
    ensures Init(s + [x]) == s && Last(s + [x]) == x
  {
  }

  // ---------------------------------------------------------------- numbers

  function DigitValue(c: char): (d: nat)
    ensures d < 10
  {
    if IsDigit(c) then c as int - '0' as int else 0
  }

  /** The value kept for a digit string, in 32 bits. */
  function Value(ds: string): (v: nat)
    ensures v < UINT32_RANGE
    decreases |ds|
  {
    if ds == "" then 0 else (Value(Init(ds)) * 10 + DigitValue(Last(ds))) % UINT32_RANGE
  }

  /** One more digit passes both overflow tests. */
  predicate StepAccepted(v: nat, d: nat)
  {
    var ten := v * 10 % UINT32_RANGE;
    ten >= v && (ten + d) % UINT32_RANGE >= ten
  }

  predicate Accepted(ds: string)
    decreases |ds|
  {
    ds == "" || (Accepted(Init(ds)) && StepAccepted(Value(Init(ds)), DigitValue(Last(ds))))
  }

  /** What is kept is the number modulo 2^32. */
  lemma {:induction false} ValueIsNumber(ds: string)
    requires AllDigits(ds)
    ensures Value(ds) == Number(ds) % UINT32_RANGE
    decreases |ds|
  {
    if ds != "" {
      ValueIsNumber(Init(ds));
      var n, d := Number(Init(ds)), DigitValue(Last(ds));
      var q := n / UINT32_RANGE;
      assert n * 10 + d == (n % UINT32_RANGE) * 10 + d + UINT32_RANGE * (q * 10);
      ModAdd((n % UINT32_RANGE) * 10 + d, q * 10);
    }
  }

  lemma ModAdd(x: nat, k: nat)
    ensures (x + UINT32_RANGE * k) % UINT32_RANGE == x % UINT32_RANGE
  {
  }

  lemma SmallStep(n: nat, d: nat)
    requires n * 10 + d < UINT32_RANGE
    ensures StepAccepted(n, d)
  {
    assert n * 10 % UINT32_RANGE == n * 10;
    assert (n * 10 + d) % UINT32_RANGE == n * 10 + d;
  }

  /** A number below 2^32 is accepted. */
  lemma {:induction false} SmallAccepted(ds: string)
    requires AllDigits(ds) && Number(ds) < UINT32_RANGE
    ensures Accepted(ds)
    decreases |ds|
  {
    hide StepAccepted, Value;
    if ds != "" {
      assert Number(ds) == Number(Init(ds)) * 10 + DigitValue(Last(ds));
      SmallAccepted(Init(ds));
      ValueIsNumber(Init(ds));
      SmallStep(Number(Init(ds)), DigitValue(Last(ds)));
    }
  }

  /** A digit string is accepted with its own value exactly when that is below 2^32. */
  lemma NumberKept(ds: string)
    requires AllDigits(ds)
    ensures Accepted(ds) && Value(ds) == Number(ds) <==> Number(ds) < UINT32_RANGE
  {
    hide Accepted, Value, Number, AllDigits;
    ValueIsNumber(ds);
    if Number(ds) < UINT32_RANGE {
      SmallAccepted(ds);
    }
  }

  lemma DigitAppended(ds: string, c: char)
    requires AllDigits(ds) && IsDigit(c)
    ensures AllDigits(ds + [c]) && Number(ds + [c]) == Number(ds) * 10 + DigitValue(c)
    ensures Value(ds + [c]) == (Value(ds) * 10 + DigitValue(c)) % UINT32_RANGE
    ensures Accepted(ds + [c]) <==> Accepted(ds) && StepAccepted(Value(ds), DigitValue(c))
  {
    hide StepAccepted;
    Snoc(ds, c);
    assert (ds + [c])[..|ds + [c]| - 1] == ds;
  }

  /** The overflow tests do not see every overflow: this one is read as a smaller number. */
  lemma OverflowUnseen()
    ensures exists ds :: AllDigits(ds) && Number(ds) == 6000000000 && Accepted(ds) && Value(ds) == 1705032704
  {
    hide Number, Value, Accepted;
    var small := Digits(600000000);
    NumberDigits(600000000);
    NumberKept(small);
    DigitAppended(small, '0');
    assert small + ['0'] != "";
  }

  // ---------------------------------------------------------------- parameters

  /** Parameters are separated by ';', their parts by ':'. */
  function Fields(ps: string): (f: seq<seq<string>>)
    ensures f != [] && forall i :: 0 <= i < |f| ==> f[i] != []
    decreases |ps|
  {
    if ps == "" then [[""]] else AddChar(Fields(Init(ps)), Last(ps))
  }

  function AddChar(f: seq<seq<string>>, c: char): (r: seq<seq<string>>)
    requires f != [] && Last(f) != []
  {
    if c == ';' then f + [[""]]
    else if c == ':' then Init(f) + [Last(f) + [""]]
    else Init(f) + [Init(Last(f)) + [Last(Last(f)) + [c]]]
  }

  function PrintParts(f: seq<string>): string
    requires f != []
    decreases |f|
  {
    if |f| == 1 then f[0] else PrintParts(Init(f)) + ":" + Last(f)
  }

  function PrintFields(f: seq<seq<string>>): string
    requires f != [] && forall i :: 0 <= i < |f| ==> f[i] != []
    decreases |f|
  {
    if |f| == 1 then PrintParts(f[0]) else PrintFields(Init(f)) + ";" + PrintParts(Last(f))
  }

  lemma PartsAdd(f: seq<string>, x: string, c: char)
    ensures PrintParts(f + [x + [c]]) == PrintParts(f + [x]) + [c]
    ensures f != [] ==> PrintParts(f + [""]) == PrintParts(f) + ":"
  {
    Snoc(f, x + [c]);
    Snoc(f, x);
    Snoc(f, "");
  }

  lemma FieldsAdd(f: seq<seq<string>>, g: seq<string>, h: seq<string>, c: char)
    requires g != [] && h != [] && forall i :: 0 <= i < |f| ==> f[i] != []
    requires PrintParts(h) == PrintParts(g) + [c]
    ensures PrintFields(f + [h]) == PrintFields(f + [g]) + [c]
  {
    Snoc(f, g);
    Snoc(f, h);
    hide PrintParts;
    if f == [] {
      assert f + [g] == [g] && f + [h] == [h];
    }
  }

  lemma FieldsSemicolon(f: seq<seq<string>>)
    requires f != [] && forall i :: 0 <= i < |f| ==> f[i] != []
    ensures PrintFields(f + [[""]]) == PrintFields(f) + ";"
  {
    var g := f + [[""]];
    assert Init(g) == f && Last(g) == [""];
    BlankPrinted();
    FieldsSnoc(g);
    assert PrintFields(f) + ";" + "" == PrintFields(f) + ";";
  }

  lemma BlankPrinted()
    ensures PrintParts([""]) == ""
  {
  }

  lemma FieldsSnoc(g: seq<seq<string>>)
    requires |g| > 1 && forall i :: 0 <= i < |g| ==> g[i] != []
    ensures PrintFields(g) == PrintFields(Init(g)) + ";" + PrintParts(Last(g))
  {
    hide PrintParts;
  }

  lemma FieldsColon(e: seq<seq<string>>, g: seq<string>)
    requires g != [] && forall i :: 0 <= i < |e| ==> e[i] != []
    ensures PrintFields(e + [g + [""]]) == PrintFields(e + [g]) + ":"
  {
    hide PrintParts, PrintFields;
    PartsAdd(g, "", ':');
    FieldsAdd(e, g, g + [""], ':');
  }

  lemma FieldsDigit(e: seq<seq<string>>, g: seq<string>, x: string, c: char)
    requires forall i :: 0 <= i < |e| ==> e[i] != []
    ensures PrintFields(e + [g + [x + [c]]]) == PrintFields(e + [g + [x]]) + [c]
  {
    hide PrintParts, PrintFields;
    PartsAdd(g, x, c);
    FieldsAdd(e, g + [x], g + [x + [c]], c);
  }

  lemma AddCharForm(f: seq<seq<string>>, e: seq<seq<string>>, g: seq<string>, x: string, c: char)
    requires f == e + [g + [x]]
    ensures AddChar(f, c) == if c == ';' then f + [[""]]
                             else if c == ':' then e + [g + [x] + [""]]
                             else e + [g + [x + [c]]]
  {
    Snoc(e, g + [x]);
    Snoc(g, x);
  }

  lemma Split<T>(f: seq<T>)
    requires f != []
    ensures f == Init(f) + [Last(f)]
  {
  }

  /** Adding a character to the fields adds it to their text. */
  lemma PrintAdd(f: seq<seq<string>>, c: char)
    requires f != [] && forall i :: 0 <= i < |f| ==> f[i] != []
    ensures PrintFields(AddChar(f, c)) == PrintFields(f) + [c]
  {
    hide PrintParts, PrintFields, AddChar, Init;
    var e, g := f[..|f| - 1], f[|f| - 1];
    var h, x := g[..|g| - 1], g[|g| - 1];
    assert g == h + [x];
    assert f == e + [h + [x]];
    AddCharForm(f, e, h, x, c);
    if c == ';' {
      FieldsSemicolon(f);
    } else if c == ':' {
      FieldsColon(e, g);
    } else {
      FieldsDigit(e, h, x, c);
    }
  }

  /** Printing the fields of a text gives the text. */
  lemma {:induction false} PrintOfFields(ps: string)
    ensures PrintFields(Fields(ps)) == ps
    decreases |ps|
  {
    hide AddChar;
    if ps == "" {
      assert PrintFields([[""]]) == "";
    } else {
      PrintOfFields(Init(ps));
      PrintAdd(Fields(Init(ps)), Last(ps));
      assert ps == Init(ps) + [Last(ps)];
    }
  }

  ghost predicate DigitFields(f: seq<seq<string>>)
  {
    f != [] && forall i :: 0 <= i < |f| ==> DigitParts(f[i])
  }

  ghost predicate DigitParts(g: seq<string>)
  {
    g != [] && forall j :: 0 <= j < |g| ==> AllDigits(g[j])
  }

  lemma DigitLast(e: seq<seq<string>>, g: seq<string>)
    ensures DigitFields(e + [g]) <==> (e == [] || DigitFields(e)) && DigitParts(g)
  {
    hide DigitParts;
    var f := e + [g];
    assert f[|e|] == g;
    assert forall i :: 0 <= i < |e| ==> f[i] == e[i];
  }

  lemma DigitPart(h: seq<string>, x: string)
    ensures DigitParts(h + [x]) <==> (h == [] || DigitParts(h)) && AllDigits(x)
  {
    hide AllDigits;
    var g := h + [x];
    assert g[|h|] == x;
    assert forall i :: 0 <= i < |h| ==> g[i] == h[i];
  }

  lemma DigitChars(y: string, c: char)
    ensures AllDigits(y + [c]) <==> AllDigits(y) && IsDigit(c)
  {
    hide IsDigit;
    var x := y + [c];
    assert x[|y|] == c;
    assert forall i :: 0 <= i < |y| ==> x[i] == y[i];
  }

  lemma LastDigit(e0: seq<seq<string>>, h: seq<string>, x: string) returns (e: seq<seq<string>>, c: char)
    requires (e0 == [] || DigitFields(e0)) && (h == [] || DigitParts(h)) && AllDigits(x) && x != ""
    ensures DigitFields(e) && IsPublic(c) && Last(e) != [] && AddChar(e, c) == e0 + [h + [x]]
  {
    hide DigitFields, DigitParts, AllDigits, IsDigit, AddChar;
    var y, d := x[..|x| - 1], x[|x| - 1];
    assert x == y + [d];
    DigitChars(y, d);
    DigitPart(h, y);
    DigitLast(e0, h + [y]);
    e, c := e0 + [h + [y]], d;
    AddCharForm(e, e0, h, y, d);
    ApartFromSeparators(d);
  }

  /** The fields before the last character was added. */
  lemma LastAdded(f: seq<seq<string>>) returns (e: seq<seq<string>>, c: char)
    requires DigitFields(f) && f != [[""]]
    ensures DigitFields(e) && IsPublic(c) && Last(e) != [] && AddChar(e, c) == f
  {
    var e0, g := f[..|f| - 1], f[|f| - 1];
    assert f == e0 + [g];
    DigitLast(e0, g);
    assert DigitParts(g);
    var h, x := g[..|g| - 1], g[|g| - 1];
    assert g == h + [x];
    DigitPart(h, x);
    hide DigitFields, DigitParts, AllDigits, IsDigit, AddChar;
    if x != "" {
      e, c := LastDigit(e0, h, x);
    } else if h != [] {
      DigitLast(e0, h);
      e, c := e0 + [h], ':';
      assert h == h[..|h| - 1] + [h[|h| - 1]];
      AddCharForm(e, e0, h[..|h| - 1], h[|h| - 1], ':');
    } else {
      assert g == [""];
      assert e0 == [] ==> f == [[""]];
      e, c := e0, ';';
      NonemptyLast(e);
      AddSemicolon(e);
    }
  }

  lemma ApartFromSeparators(c: char)
    requires IsDigit(c)
    ensures c != ';' && c != ':'
  {
  }

  lemma NonemptyLast(f: seq<seq<string>>)
    requires DigitFields(f)
    ensures f != [] && Last(f) != []
  {
    assert DigitParts(f[|f| - 1]);
  }

  lemma AddSemicolon(f: seq<seq<string>>)
    requires f != [] && Last(f) != []
    ensures AddChar(f, ';') == f + [[""]]
  {
  }

  /** Reading the text of fields gives the fields. */
  lemma {:induction false} FieldsOfPrint(f: seq<seq<string>>)
    requires DigitFields(f)
    ensures Fields(PrintFields(f)) == f && forall i :: 0 <= i < |PrintFields(f)| ==> IsPublic(PrintFields(f)[i])
    decreases |PrintFields(f)|
  {
    hide AddChar, DigitParts;
    Nonempty(f);
    if f == [[""]] {
      assert PrintFields(f) == "";
    } else {
      var e, c := LastAdded(f);
      Nonempty(e);
      PrintAdd(e, c);
      FieldsOfPrint(e);
      Snoc(PrintFields(e), c);
    }
  }

  lemma Nonempty(f: seq<seq<string>>)
    requires DigitFields(f)
    ensures forall i :: 0 <= i < |f| ==> f[i] != []
  {
  }

  /** A parameter without a digit. */
  predicate Blank(field: seq<string>)
  {
    forall j :: 0 <= j < |field| ==> field[j] == ""
  }

  /** The parameters that are kept: a blank first one is dropped. */
  function Params(ps: string): seq<seq<string>>
  {
    var f := Fields(ps);
    if Blank(f[0]) then f[1..] else f
  }

  /** The number kept for part y of parameter x: 0 where there is none. */
  function Entry(p: seq<seq<string>>, x: nat, y: nat): nat
  {
    if x < |p| && y < |p[x]| then Value(p[x][y]) else 0
  }

  predicate PartsInLimits(g: seq<string>)
  {
    |g| <= MAX_SUBS && forall j :: 0 <= j < |g| ==> Accepted(g[j])
  }

  predicate InLimits(ps: string)
  {
    |Params(ps)| <= MAX_PARAMS && forall i :: 0 <= i < |Fields(ps)| ==> PartsInLimits(Fields(ps)[i])
  }

  predicate PublicPart(ps: string)
  {
    (forall i :: 0 <= i < |ps| ==> IsPublic(ps[i])) && InLimits(ps)
  }

  predicate PrivatePart(ps: string)
  {
    ps != "" && IsPrivate(ps[0]) && forall i :: 0 <= i < |ps| ==> IsParam(ps[i])
  }

  predicate ParamPart(ps: string)
  {
    PublicPart(ps) || PrivatePart(ps)
  }

  // ---------------------------------------------------------------- one more character

  lemma PublicStep(ps: string, c: char)
    ensures Fields(ps + [c]) == AddChar(Fields(ps), c)
    ensures (forall i :: 0 <= i < |ps + [c]| ==> IsPublic((ps + [c])[i]))
            <==> (forall i :: 0 <= i < |ps| ==> IsPublic(ps[i])) && IsPublic(c)
  {
    hide AddChar, IsPublic;
    Snoc(ps, c);
    var t := ps + [c];
    assert t[|ps|] == c;
    assert forall i :: 0 <= i < |ps| ==> t[i] == ps[i];
  }

  /** A semicolon: one more parameter. */
  lemma SemicolonParams(ps: string)
    ensures Params(ps + [';']) == Params(ps) + [[""]]
    ensures Fields(ps + [';']) == Fields(ps) + [[""]]
  {
    PublicStep(ps, ';');
    hide Fields, Blank;
    var f := Fields(ps);
    assert (f + [[""]])[0] == f[0] && (f + [[""]])[1..] == f[1..] + [[""]];
  }

  lemma SemicolonStep(ps: string)
    ensures Params(ps + [';']) == Params(ps) + [[""]]
    ensures PublicPart(ps + [';']) <==> PublicPart(ps) && |Params(ps)| < MAX_PARAMS
    ensures forall x: nat, y: nat :: Entry(Params(ps + [';']), x, y) == Entry(Params(ps), x, y)
    ensures Last(Fields(ps + [';'])) == [""]
  {
    hide Fields, Value, Params, Accepted;
    PublicStep(ps, ';');
    SemicolonParams(ps);
    EmptyAccepted();
    assert PartsInLimits([""]);
    hide PartsInLimits;
    Extended(Fields(ps), [""]);
  }

  lemma EmptyAccepted()
    ensures Accepted("") && Value("") == 0
  {
  }

  lemma Extended(f: seq<seq<string>>, g: seq<string>)
    requires PartsInLimits(g)
    ensures (forall i :: 0 <= i < |f + [g]| ==> PartsInLimits((f + [g])[i]))
            <==> forall i :: 0 <= i < |f| ==> PartsInLimits(f[i])
  {
    hide PartsInLimits;
    var e := f + [g];
    assert forall i :: 0 <= i < |f| ==> e[i] == f[i];
    assert e[|f|] == g;
  }

  /** What a change of the last field does to the limits. */
  lemma Replaced(f: seq<seq<string>>, g: seq<string>)
    requires f != [] && (PartsInLimits(g) ==> PartsInLimits(Last(f)))
    ensures (forall i :: 0 <= i < |Init(f) + [g]| ==> PartsInLimits((Init(f) + [g])[i]))
            <==> (forall i :: 0 <= i < |f| ==> PartsInLimits(f[i])) && PartsInLimits(g)
  {
    hide PartsInLimits;
    var e := Init(f) + [g];
    assert forall i :: 0 <= i < |f| - 1 ==> e[i] == f[i];
    assert e[|f| - 1] == g;
  }

  /** A colon: the last field gets one part more. */
  lemma ColonParams(ps: string)
    ensures var p, q, g := Params(ps), Params(ps + [':']), Last(Fields(ps));
            && |q| == |p|
            && (|p| > 0 ==> q == Init(p) + [Last(p) + [""]])
            && Last(Fields(ps + [':'])) == g + [""]
  {
    hide Fields;
    PublicStep(ps, ':');
    var f := Fields(ps);
    var g := Last(f) + [""];
    var e := Init(f) + [g];
    assert Blank(e[0]) <==> Blank(f[0]) by {
      if |f| == 1 {
        assert forall j :: 0 <= j < |f[0]| ==> g[j] == f[0][j];
      }
    }
  }

  lemma ColonEntries(p: seq<seq<string>>, q: seq<seq<string>>)
    requires |q| == |p| && (|p| > 0 ==> q == Init(p) + [Last(p) + [""]])
    ensures forall x: nat, y: nat :: Entry(q, x, y) == Entry(p, x, y)
  {
    hide Value;
    assert Value("") == 0 by { EmptyAccepted(); }
    if |p| > 0 {
      assert forall i :: 0 <= i < |q| - 1 ==> q[i] == p[i];
      assert q[|q| - 1] == Last(p) + [""];
    }
  }

  lemma ColonStep(ps: string)
    ensures |Params(ps + [':'])| == |Params(ps)|
    ensures PublicPart(ps + [':']) <==> PublicPart(ps) && |Last(Fields(ps))| < MAX_SUBS
    ensures forall x: nat, y: nat :: Entry(Params(ps + [':']), x, y) == Entry(Params(ps), x, y)
    ensures Last(Fields(ps + [':'])) == Last(Fields(ps)) + [""]
  {
    hide Fields, Entry, Params, PartsInLimits;
    PublicStep(ps, ':');
    ColonParams(ps);
    ColonEntries(Params(ps), Params(ps + [':']));
    var f := Fields(ps);
    Lengthened(Last(f));
    Replaced(f, Last(f) + [""]);
  }

  lemma Lengthened(g: seq<string>)
    ensures PartsInLimits(g + [""]) <==> PartsInLimits(g) && |g| < MAX_SUBS
  {
    hide Accepted;
    EmptyAccepted();
    var e := g + [""];
    assert forall j :: 0 <= j < |g| ==> e[j] == g[j];
    assert e[|g|] == "";
  }

  lemma DigitAccepted(g: seq<string>, c: char)
    requires g != []
    ensures var h := Init(g) + [Last(g) + [c]];
            PartsInLimits(h) <==> PartsInLimits(g) && StepAccepted(Value(Last(g)), DigitValue(c))
  {
    hide StepAccepted, Value;
    Snoc(Last(g), c);
    var h := Init(g) + [Last(g) + [c]];
    assert forall j :: 0 <= j < |g| - 1 ==> h[j] == g[j];
    assert h[|g| - 1] == Last(g) + [c];
  }

  /** A digit: the last part of the last field gets it, and that field is kept from now on. */
  lemma DigitParams(ps: string, c: char)
    requires IsDigit(c)
    ensures var p, q, g := Params(ps), Params(ps + [c]), Last(Fields(ps));
            && |q| == (if |p| == 0 then 1 else |p|)
            && Last(Fields(ps + [c])) == Init(g) + [Last(g) + [c]]
            && q == (if |p| == 0 then [] else Init(p)) + [Init(g) + [Last(g) + [c]]]
            && (if |p| == 0 then Blank(g) else Last(p) == g)
  {
    hide Value;
    PublicStep(ps, c);
    hide Fields;
    var f := Fields(ps);
    var g := Last(f);
    var h := Init(g) + [Last(g) + [c]];
    var e := Init(f) + [h];
    assert h[|g| - 1] != "";
    assert |f| > 1 ==> e[0] == f[0];
  }

  lemma DigitEntries(p: seq<seq<string>>, q: seq<seq<string>>, g: seq<string>, c: char)
    requires g != [] && q == (if |p| == 0 then [] else Init(p)) + [Init(g) + [Last(g) + [c]]]
    requires if |p| == 0 then Blank(g) else Last(p) == g
    ensures forall x: nat, y: nat ::
              Entry(q, x, y) == if x == |q| - 1 && y == |g| - 1 then Value(Last(g) + [c]) else Entry(p, x, y)
  {
    hide Value;
    assert Value("") == 0 by { EmptyAccepted(); }
    var h := Init(g) + [Last(g) + [c]];
    assert forall j :: 0 <= j < |g| - 1 ==> h[j] == g[j];
    assert q[|q| - 1] == h;
    assert forall i :: 0 <= i < |q| - 1 ==> q[i] == p[i];
  }

  lemma DigitStep(ps: string, c: char)
    requires IsDigit(c)
    ensures var p, q, g := Params(ps), Params(ps + [c]), Last(Fields(ps));
            && |q| == (if |p| == 0 then 1 else |p|)
            && Last(Fields(ps + [c])) == Init(g) + [Last(g) + [c]]
            && forall x: nat, y: nat ::
                 Entry(q, x, y) == if x == |q| - 1 && y == |g| - 1 then Value(Last(g) + [c]) else Entry(p, x, y)
    ensures PublicPart(ps + [c]) <==> PublicPart(ps) && StepAccepted(Value(Last(Last(Fields(ps)))), DigitValue(c))
  {
    hide Fields, Params, Entry, Value, PartsInLimits, StepAccepted, DigitValue, Blank;
    PublicStep(ps, c);
    DigitParams(ps, c);
    var f := Fields(ps);
    var g := Last(f);
    DigitEntries(Params(ps), Params(ps + [c]), g, c);
    DigitAccepted(g, c);
    Replaced(f, Init(g) + [Last(g) + [c]]);
  }

  /** The part added before is in limits when the longer one is. */
  lemma {:induction false} PublicPrefix(x: string, y: string)
    requires PublicPart(x + y)
    ensures PublicPart(x)
    decreases |y|
  {
    hide PublicPart;
    if y == "" {
      assert x + y == x;
    } else {
      var z, c := x + Init(y), Last(y);
      assert x + y == z + [c];
      PublicLast(z, c);
      if c == ';' {
        SemicolonStep(z);
      } else if c == ':' {
        ColonStep(z);
      } else {
        DigitStep(z, c);
      }
      PublicPrefix(x, Init(y));
    }
  }

  lemma PublicLast(z: string, c: char)
    requires PublicPart(z + [c])
    ensures IsPublic(c)
  {
    assert (z + [c])[|z|] == c;
  }

  lemma EmptyPublic()
    ensures PublicPart("") && Params("") == [] && Fields("") == [[""]]
  {
    assert Fields("")[0] == [""];
  }

  // ---------------------------------------------------------------- reading back what was printed

  /** Printed parameters are kept as they are exactly when the first one has a digit. */
  lemma KeptIff(f: seq<seq<string>>)
    requires DigitFields(f)
    ensures Params(PrintFields(f)) == f <==> !Blank(f[0])
  {
    FieldsOfPrint(f);
    hide Fields;
  }

  /** The decimal text of every part. */
  /** The parser takes up to 16 parameters of up to 4 parts whose digits pass the overflow tests. */
  lemma TableSizes(f: seq<seq<string>>)
    requires DigitFields(f) && !Blank(f[0])
    ensures PublicPart(PrintFields(f)) <==>
            |f| <= 16 && forall i :: 0 <= i < |f| ==> |f[i]| <= 4 && forall j :: 0 <= j < |f[i]| ==> Accepted(f[i][j])
  {
    hide DigitFields, PrintFields, Fields, Accepted, Blank;
    FieldsOfPrint(f);
    KeptIff(f);
  }

  ghost predicate Prints(f: seq<seq<string>>, v: seq<seq<nat>>)
  {
    |f| == |v| && forall x :: 0 <= x < |f| ==> PrintsParts(f[x], v[x])
  }

  ghost predicate PrintsParts(g: seq<string>, ns: seq<nat>)
  {
    |g| == |ns| && forall y :: 0 <= y < |g| ==> g[y] == Digits(ns[y])
  }

  ghost predicate Representable(v: seq<seq<nat>>)
  {
    1 <= |v| <= MAX_PARAMS && forall x :: 0 <= x < |v| ==> RepresentableParts(v[x])
  }

  ghost predicate RepresentableParts(ns: seq<nat>)
  {
    1 <= |ns| <= MAX_SUBS && forall y :: 0 <= y < |ns| ==> ns[y] < UINT32_RANGE
  }

  lemma PartsRead(g: seq<string>, ns: seq<nat>)
    requires PrintsParts(g, ns) && RepresentableParts(ns)
    ensures DigitParts(g) && PartsInLimits(g) && !Blank(g)
    ensures forall y :: 0 <= y < |g| ==> Value(g[y]) == ns[y]
  {
    hide Value, Accepted, Number;
    forall y | 0 <= y < |g| ensures AllDigits(g[y]) && Accepted(g[y]) && g[y] != "" && Value(g[y]) == ns[y] {
      NumberDigits(ns[y]);
      NumberKept(g[y]);
    }
    assert g[0] != "";
  }

  /** Every list of up to 16 parameters of up to 4 parts below 2^32 is recovered from its text. */
  lemma PrintedIsRead(f: seq<seq<string>>, v: seq<seq<nat>>)
    requires Prints(f, v) && Representable(v)
    ensures DigitFields(f) && PublicPart(PrintFields(f)) && |Params(PrintFields(f))| == |v|
    ensures forall x: nat, y: nat ::
              Entry(Params(PrintFields(f)), x, y) == if x < |v| && y < |v[x]| then v[x][y] else 0
  {
    hide Value, Accepted, DigitParts, PartsInLimits, Blank, Fields, PrintFields, IsPublic;
    forall x | 0 <= x < |f|
      ensures DigitParts(f[x]) && PartsInLimits(f[x]) && !Blank(f[x]) && |f[x]| == |v[x]|
      ensures forall y :: 0 <= y < |f[x]| ==> Value(f[x][y]) == v[x][y]
    {
      PartsRead(f[x], v[x]);
    }
    FieldsOfPrint(f);
    KeptIff(f);
  }
}
