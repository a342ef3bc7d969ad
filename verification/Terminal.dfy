/**
 lib/terminal.c: the parser of control sequences and the removal of control codes from a string in place.
 */
module Terminal {
  import opened Options
  import opened Decimal
  import opened CString
  import opened CsiParams

  const ESC: char := 27 as char
  const BEL: char := 7 as char

  // ---------------------------------------------------------------- the grammar

  /** The classes of bytes, by the columns of the code table (section 5.4 of ECMA-48), and the two codes. */
  lemma ByteClasses(c: char)
    ensures (IsParam(c) <==> c as int / 16 == 3) && (IsInter(c) <==> c as int / 16 == 2)
    ensures IsFinal(c) <==> 4 <= c as int / 16 <= 7 && c as int != 0x7F
    ensures (IsPrivate(c) <==> c in "<=>?") && (IsPublic(c) <==> c in "0123456789:;")
    ensures ESC as int == 0x1B && BEL as int == 0x07
  {
  }

  function ParamSpan(t: string): (n: nat)
    ensures n <= |t| && (forall i :: 0 <= i < n ==> IsParam(t[i])) && (n < |t| ==> !IsParam(t[n]))
  {
    if t == "" || !IsParam(t[0]) then 0 else 1 + ParamSpan(t[1..])
  }

  predicate AllInter(s: string)
  {
    forall i :: 0 <= i < |s| ==> IsInter(s[i])
  }

  /** Parameters and intermediate bytes: all of a command but its final byte. */
  predicate Start(x: string)
  {
    ParamPart(x[..ParamSpan(x)]) && AllInter(x[ParamSpan(x)..])
  }

  predicate IsCommand(t: string)
  {
    t != "" && Start(Init(t)) && IsFinal(Last(t))
  }

  /** A reader of t stops after k characters: behind a command, or at the first invalid byte. */
  predicate Stop(t: string, k: nat, ok: bool)
    requires k <= |t|
  {
    if ok then IsCommand(t[..k])
    else Start(t[..k]) && (k < |t| ==> !Start(t[..k + 1]) && !IsCommand(t[..k + 1]))
  }

  /** How far a reader of t gets that goes on from j while what it has seen can start a command. */
  function Reach(t: string, j: nat): (k: nat)
    requires j <= |t|
    ensures j <= k <= |t|
    decreases |t| - j
  {
    if j == |t| then j
    else if IsCommand(t[..j + 1]) then j + 1
    else if Start(t[..j + 1]) then Reach(t, j + 1)
    else j
  }

  lemma {:induction false} SpanOf(ps: string, rest: string)
    requires (forall i :: 0 <= i < |ps| ==> IsParam(ps[i])) && (rest == "" || !IsParam(rest[0]))
    ensures ParamSpan(ps + rest) == |ps|
    decreases |ps|
  {
    if ps == "" {
      assert ps + rest == rest;
    } else {
      assert (ps + rest)[1..] == ps[1..] + rest;
      SpanOf(ps[1..], rest);
    }
  }

  lemma ParamPartChars(ps: string)
    requires ParamPart(ps)
    ensures forall i :: 0 <= i < |ps| ==> IsParam(ps[i])
  {
    hide InLimits;
  }

  lemma ParamPartLast(ps: string, c: char)
    requires ParamPart(ps + [c])
    ensures IsParam(c)
  {
    hide ParamPart;
    ParamPartChars(ps + [c]);
    assert (ps + [c])[|ps|] == c;
  }

  /** Parameter bytes and what follows them make a start exactly when both parts are right. */
  lemma StartParts(ps: string, rest: string)
    requires (forall i :: 0 <= i < |ps| ==> IsParam(ps[i])) && (rest == "" || !IsParam(rest[0]))
    ensures Start(ps + rest) <==> ParamPart(ps) && AllInter(rest)
  {
    hide ParamPart, AllInter;
    SpanOf(ps, rest);
    assert (ps + rest)[..|ps|] == ps && (ps + rest)[|ps|..] == rest;
  }

  /** The grammar of a command. */
  lemma CommandGrammar(t: string)
    ensures IsCommand(t) <==> exists ps, mid, f :: ParamPart(ps) && AllInter(mid) && IsFinal(f) && t == ps + mid + [f]
  {
    hide ParamPart, AllInter;
    if IsCommand(t) {
      var x := Init(t);
      var n := ParamSpan(x);
      assert t == x[..n] + x[n..] + [Last(t)];
    }
    if ps, mid, f :| ParamPart(ps) && AllInter(mid) && IsFinal(f) && t == ps + mid + [f] {
      CommandParts(ps, mid, f);
    }
  }

  lemma CommandParts(ps: string, mid: string, f: char)
    requires ParamPart(ps) && AllInter(mid) && IsFinal(f)
    ensures Start(ps + mid) && IsCommand(ps + mid + [f])
  {
    hide ParamPart;
    ParamPartChars(ps);
    assert mid != "" ==> IsInter(mid[0]);
    StartParts(ps, mid);
    Snoc(ps + mid, f);
  }

  /** After a start without intermediate bytes. */
  lemma AfterParams(ps: string, c: char)
    requires ParamPart(ps)
    ensures Start(ps) && (Start(ps + [c]) <==> ParamPart(ps + [c]) || IsInter(c))
    ensures IsCommand(ps + [c]) <==> IsFinal(c)
  {
    hide ParamPart;
    ParamPartChars(ps);
    assert ps + "" == ps;
    StartParts(ps, "");
    Snoc(ps, c);
    if IsParam(c) {
      var qs := ps + [c];
      assert forall i :: 0 <= i < |qs| ==> IsParam(qs[i]);
      assert qs + "" == qs;
      StartParts(qs, "");
    } else {
      StartParts(ps, [c]);
      assert AllInter([c]) <==> IsInter([c][0]);
      if ParamPart(ps + [c]) {
        ParamPartLast(ps, c);
      }
    }
  }

  /** After a start with intermediate bytes. */
  lemma AfterInter(ps: string, mid: string, c: char)
    requires ParamPart(ps) && AllInter(mid) && mid != ""
    ensures Start(ps + mid) && (Start(ps + mid + [c]) <==> IsInter(c))
    ensures IsCommand(ps + mid + [c]) <==> IsFinal(c)
  {
    hide ParamPart;
    ParamPartChars(ps);
    assert IsInter(mid[0]);
    StartParts(ps, mid);
    Snoc(ps + mid, c);
    var rest := mid + [c];
    assert ps + mid + [c] == ps + rest;
    StartParts(ps, rest);
    assert rest[|mid|] == c;
    assert forall i :: 0 <= i < |mid| ==> rest[i] == mid[i];
  }

  lemma ParamPrefix(x: string, y: string)
    requires ParamPart(x + y)
    ensures ParamPart(x)
  {
    hide PublicPart;
    if PublicPart(x + y) {
      PublicPrefix(x, y);
    } else if x == "" {
      EmptyPublic();
    } else {
      assert forall i :: 0 <= i < |x| ==> (x + y)[i] == x[i];
    }
  }

  /** What starts a start is a start. */
  lemma StartPrefix(x: string, y: string)
    requires Start(x + y)
    ensures Start(x)
  {
    hide ParamPart;
    var z := x + y;
    var n := ParamSpan(z);
    assert forall i :: 0 <= i < |x| ==> z[i] == x[i];
    if |x| <= n {
      assert z[..n] == x + z[|x|..n];
      ParamPrefix(x, z[|x|..n]);
      assert x + "" == x;
      StartParts(x, "");
    } else {
      assert x[..n] == z[..n];
      assert x == x[..n] + x[n..];
      assert forall i :: 0 <= i < |x[n..]| ==> z[n..][i] == x[n..][i];
      StartParts(x[..n], x[n..]);
    }
  }

  lemma StartLast(t: string)
    requires t != "" && Start(t)
    ensures !IsFinal(Last(t))
  {
    hide ParamPart;
    var n := ParamSpan(t);
    if n < |t| {
      assert t[n..][|t| - 1 - n] == Last(t);
    }
  }

  lemma FinalEnds(t: string)
    requires t != "" && IsFinal(Last(t))
    ensures !Start(t)
  {
    hide Start;
    if Start(t) {
      StartLast(t);
    }
  }

  ghost predicate CanComplete(x: string)
  {
    exists y :: IsCommand(x + y)
  }

  /** A start is what can be continued to a command. */
  lemma StartIff(x: string)
    ensures Start(x) <==> exists y :: y != "" && IsCommand(x + y)
  {
    hide Start;
    if Start(x) {
      Snoc(x, 'm');
      assert IsCommand(x + "m");
    }
    if y :| y != "" && IsCommand(x + y) {
      assert Init(x + y) == x + Init(y);
      StartPrefix(x, Init(y));
    }
  }

  /** No command starts another one. */
  lemma PrefixFree(t: string, y: string)
    requires IsCommand(t) && IsCommand(t + y)
    ensures y == ""
  {
    hide Start;
    FinalEnds(t);
    if y != "" {
      assert Init(t + y) == t + Init(y);
      StartPrefix(t, Init(y));
      assert false;
    }
  }

  /** A reader stops in one place, and whether it has read a command is settled by it. */
  lemma {:induction false} StopIsReach(t: string, j: nat, k: nat, ok: bool)
    requires j <= k <= |t| && (ok ==> j < k) && Stop(t, k, ok)
    ensures Reach(t, j) == k && ok == IsCommand(t[..k])
    decreases k - j
  {
    hide Start;
    if !ok {
      NotYet(t[..k]);
    }
    if j < k && !(ok && j + 1 == k) {
      var x := t[..j + 1];
      if ok {
        assert Init(t[..k]) == x + t[j + 1..k - 1];
        StartPrefix(x, t[j + 1..k - 1]);
      } else {
        assert t[..k] == x + t[j + 1..k];
        StartPrefix(x, t[j + 1..k]);
      }
      NotYet(x);
      StopIsReach(t, j + 1, k, ok);
    }
  }

  lemma NotYet(x: string)
    requires Start(x)
    ensures !IsCommand(x)
  {
    hide Start;
    if IsCommand(x) {
      FinalEnds(x);
    }
  }

  /** A reader succeeds exactly when the text starts with a command. If it fails before the end, no
      command starts with what it has seen and the byte it stands at, whatever follows; what it has
      seen without that byte can be continued to one. */
  lemma FirstInvalid(t: string, k: nat, ok: bool)
    requires k <= |t| && Stop(t, k, ok)
    ensures ok <==> exists n :: 0 <= n <= |t| && IsCommand(t[..n])
    ensures !ok ==> CanComplete(t[..k])
    ensures !ok && k < |t| ==> !CanComplete(t[..k + 1])
  {
    hide Start;
    if !ok {
      StartIff(t[..k]);
      if k < |t| {
        var x := t[..k + 1];
        StartIff(x);
        assert x + "" == x;
      }
      forall n | 0 <= n <= |t| ensures !IsCommand(t[..n]) {
        if n <= k {
          assert t[..k] == t[..n] + t[n..k];
          StartPrefix(t[..n], t[n..k]);
          NotYet(t[..n]);
        } else {
          assert t[..n] == t[..k + 1] + t[k + 1..n];
          assert !CanComplete(t[..k + 1]);
        }
      }
    }
  }

  // ---------------------------------------------------------------- parse_csi

  class CsiCommand {
    var privateMode: char
    const params: array2<nat>
    var paramCount: nat

    constructor ()
      ensures Valid() && fresh(params)
    {
      privateMode, paramCount := NUL, 0;
      params := new nat[MAX_PARAMS, MAX_SUBS]((i, j) => 0);
    }

    predicate Valid()
    {
      params.Length0 == MAX_PARAMS && params.Length1 == MAX_SUBS
    }

    /** The table holds these parameters and zeros. */
    ghost predicate Table(p: seq<seq<string>>)
      requires Valid()
      reads params
    {
      forall x: nat, y: nat :: x < MAX_PARAMS && y < MAX_SUBS ==> params[x, y] == Entry(p, x, y)
    }
  }

  predicate UsableOut(out: CsiCommand?)
  {
    out != null ==> out.Valid()
  }

  /** The state of the parameter loop: what was read is ps. */
  ghost predicate Reading(out: CsiCommand?, ps: string, count: nat, sub: nat, tmp: nat)
    requires UsableOut(out)
    reads if out == null then {} else {out.params}
  {
    && PublicPart(ps)
    && count == |Params(ps)|
    && sub + 1 == |Last(Fields(ps))|
    && tmp == Value(Last(Last(Fields(ps))))
    && (out != null ==> out.Table(Params(ps)))
  }

  /** One parameter byte. */
  method ParameterByte(out: CsiCommand?, c: char, ghost ps: string, count: nat, sub: nat, tmp: nat)
    returns (go: bool, count': nat, sub': nat, tmp': nat)
    requires UsableOut(out) && Reading(out, ps, count, sub, tmp)
    modifies if out == null then {} else {out.params}
    ensures go <==> PublicPart(ps + [c])
    ensures go ==> Reading(out, ps + [c], count', sub', tmp')
  {
    hide Fields, Params, Value, StepAccepted, Accepted, PublicPart, Entry;
    go, count', sub', tmp' := true, count, sub, tmp;
    Limits(ps);
    if '0' <= c <= '9' {
      DigitStep(ps, c);
      DigitTests(tmp, c);
      ValueStep(Last(Last(Fields(ps))), c);
      if count' == 0 {
        count' := 1;
      }
      if tmp * 10 % UINT32_RANGE < tmp {
        return false, count', sub', tmp';
      }
      tmp' := tmp * 10 % UINT32_RANGE;
      var d := c as int - '0' as int;
      if (tmp' + d) % UINT32_RANGE < tmp' {
        return false, count', sub', tmp';
      }
      tmp' := (tmp' + d) % UINT32_RANGE;
      Limits(ps + [c]);
      if out != null {
        out.params[count' - 1, sub] := tmp';
      }
    } else if c == ':' {
      ColonStep(ps);
      EmptyAccepted();
      sub' := sub + 1;
      if sub' >= MAX_SUBS {
        return false, count', sub', tmp';
      }
      tmp' := 0;
    } else if c == ';' {
      SemicolonStep(ps);
      EmptyAccepted();
      count' := count + 1;
      if count' > MAX_PARAMS {
        return false, count', sub', tmp';
      }
      tmp', sub' := 0, 0;
    } else {
      go := false;
      PublicStep(ps, c);
      NotPublic(ps, c);
    }
  }

  lemma Limits(ps: string)
    requires PublicPart(ps)
    ensures |Params(ps)| <= MAX_PARAMS && |Last(Fields(ps))| <= MAX_SUBS
  {
    assert PartsInLimits(Fields(ps)[|Fields(ps)| - 1]);
  }

  lemma NotPublic(ps: string, c: char)
    requires !IsPublic(c)
    ensures !PublicPart(ps + [c])
  {
    if PublicPart(ps + [c]) {
      PublicLast(ps, c);
    }
  }

  lemma DigitTests(tmp: nat, c: char)
    requires IsDigit(c)
    ensures var ten, d := tmp * 10 % UINT32_RANGE, c as int - '0' as int;
            StepAccepted(tmp, DigitValue(c)) <==> ten >= tmp && (ten + d) % UINT32_RANGE >= ten
  {
  }

  lemma ValueStep(ds: string, c: char)
    requires IsDigit(c)
    ensures Value(ds + [c]) == (Value(ds) * 10 % UINT32_RANGE + (c as int - '0' as int)) % UINT32_RANGE
  {
    Snoc(ds, c);
    var v, d := Value(ds) * 10, c as int - '0' as int;
    assert (v % UINT32_RANGE + d) % UINT32_RANGE == (v + d) % UINT32_RANGE;
  }

  /** The parameters of a command without a private mode, from the first byte on; the reader stands at
      the first byte that is not one of them, or has to stop. */
  method PublicParameters(out: CsiCommand?, a: array<char>, from: nat, end: nat) returns (go: bool, s: nat, count: nat)
    requires from < end <= a.Length && UsableOut(out) && !IsPrivate(a[from])
    modifies if out == null then {} else {out.params}
    ensures from <= s <= end
    ensures go ==> s < end && PublicPart(a[from..s]) && !IsParam(a[s]) && count == |Params(a[from..s])|
    ensures go && out != null ==> out.Table(Params(a[from..s]))
    ensures !go ==> Stop(a[from..end], s - from, false)
  {
    hide PublicPart, Params, Fields, Start;
    s, count := from, 0;
    if out != null {
      forall x, y | 0 <= x < MAX_PARAMS && 0 <= y < MAX_SUBS {
        out.params[x, y] := 0;
      }
    }
    EmptyPublic();
    EmptyAccepted();
    ghost var t := a[from..end];
    assert a[from..from] == "";
    var tmp: nat, sub: nat := 0, 0;
    while IsParam(a[s])
      invariant from <= s < end && a[from..end] == t
      invariant Reading(out, a[from..s], count, sub, tmp)
      decreases end - s
    {
      ghost var ps := a[from..s];
      assert a[from..s + 1] == ps + [a[s]];
      assert t[..s + 1 - from] == ps + [a[s]] && t[..s - from] == ps;
      AfterPublic(ps, a[s]);
      go, count, sub, tmp := ParameterByte(out, a[s], ps, count, sub, tmp);
      if !go {
        return;
      }
      s := s + 1;
      if s == end {
        assert t[..s - from] == t;
        go := false;
        return;
      }
    }
    go := true;
  }

  /** A parameter byte where a command without a private mode is read. */
  lemma AfterPublic(ps: string, c: char)
    requires PublicPart(ps) && IsParam(c) && (ps == "" ==> !IsPrivate(c))
    ensures Start(ps + [c]) <==> PublicPart(ps + [c])
    ensures Start(ps) && !IsCommand(ps + [c])
  {
    hide PublicPart, Start;
    AfterParams(ps, c);
    var qs := ps + [c];
    if ps != "" {
      assert qs[0] == ps[0];
      FirstPublic(ps);
    }
    assert !PrivatePart(qs);
  }

  lemma FirstPublic(ps: string)
    requires PublicPart(ps) && ps != ""
    ensures !IsPrivate(ps[0])
  {
    hide InLimits;
    assert IsPublic(ps[0]);
  }

  /** The parameter bytes of a command with a private mode. */
  method PrivateParameters(a: array<char>, from: nat, end: nat) returns (go: bool, s: nat)
    requires from < end <= a.Length && IsPrivate(a[from])
    ensures from < s <= end
    ensures go ==> s < end && PrivatePart(a[from..s]) && !IsParam(a[s])
    ensures !go ==> Stop(a[from..end], s - from, false)
  {
    hide Start, PublicPart;
    ghost var t := a[from..end];
    s := from + 1;
    while s < end && IsParam(a[s])
      invariant from < s <= end && PrivatePart(a[from..s])
    {
      assert a[from..s + 1] == a[from..s] + [a[s]];
      s := s + 1;
    }
    go := s < end;
    if !go {
      assert t[..s - from] == a[from..s];
      AfterParams(a[from..s], 'm');
    }
  }

  /** Parameters, intermediate bytes and then a byte of another kind: the reader stops. */
  lemma EndingStops(t: string, n: nat, k: nat)
    requires n <= k < |t| && ParamPart(t[..n]) && !IsParam(t[n]) && !IsInter(t[k])
    requires forall i :: n <= i < k ==> IsInter(t[i])
    ensures if IsFinal(t[k]) then Stop(t, k + 1, true) else Stop(t, k, false)
  {
    hide Start, ParamPart;
    var ps, mid, c := t[..n], t[n..k], t[k];
    assert t[..k] == ps + mid && t[..k + 1] == ps + mid + [c];
    if mid == "" {
      assert ps + mid == ps;
      AfterParams(ps, c);
      if ParamPart(ps + [c]) {
        ParamPartLast(ps, c);
      }
    } else {
      AfterInter(ps, mid, c);
    }
  }

  lemma EndingSpan(t: string, n: nat, k: nat)
    requires n <= k < |t| && ParamPart(t[..n]) && !IsParam(t[n])
    ensures ParamSpan(t[..k + 1]) == n
  {
    hide ParamPart, ParamSpan, IsParam;
    var ps, rest := t[..n], t[n..k + 1];
    ParamPartChars(ps);
    assert rest[0] == t[n];
    SpanOf(ps, rest);
    assert ps + rest == t[..k + 1];
  }

  lemma EndedEarly(t: string, n: nat)
    requires n < |t| && ParamPart(t[..n]) && forall i :: n <= i < |t| ==> IsInter(t[i])
    ensures Stop(t, |t|, false)
  {
    hide ParamPart;
    assert t[..|t|] == t == t[..n] + t[n..];
    AfterInter(t[..n], t[n..], 'm');
  }

  /** The intermediate bytes and the final byte. */
  method Ending(a: array<char>, from: nat, mid: nat, end: nat) returns (ok: bool, s: nat)
    requires from <= mid < end <= a.Length && ParamPart(a[from..mid]) && !IsParam(a[mid])
    ensures mid <= s <= end && (ok ==> mid < s)
    ensures Stop(a[from..end], s - from, ok)
    ensures ok ==> ParamSpan(a[from..s]) == mid - from
  {
    hide Stop, ParamPart, ParamSpan;
    ghost var t := a[from..end];
    ghost var n := mid - from;
    assert t[..n] == a[from..mid];
    s := mid;
    while IsInter(a[s])
      invariant mid <= s < end && forall i :: n <= i < s - from ==> IsInter(t[i])
      decreases end - s
    {
      s := s + 1;
      if s == end {
        ok := false;
        EndedEarly(t, n);
        assert t[..|t|] == t;
        return;
      }
    }
    EndingStops(t, n, s - from);
    EndingSpan(t, n, s - from);
    ok := IsFinal(a[s]);
    if ok {
      s := s + 1;
      assert t[..s - from] == a[from..s];
    }
  }

  /** The private mode of a command, and the parameters that are kept of it. */
  function PrivateMode(t: string): char
  {
    if t != "" && IsPrivate(t[0]) then t[0] else NUL
  }

  function KeptParams(t: string): seq<seq<string>>
  {
    if t != "" && IsPrivate(t[0]) then [] else Params(t[..ParamSpan(t)])
  }

  lemma EmptyStops()
    ensures Stop("", 0, false)
  {
    hide PublicPart;
    EmptyPublic();
    AfterParams("", 'm');
  }

  lemma KeptOf(t: string, ps: string)
    requires t != "" && ps == t[..ParamSpan(t)]
    ensures PrivateMode(t) != NUL <==> IsPrivate(t[0])
    ensures KeptParams(t) == if IsPrivate(t[0]) then [] else Params(ps)
  {
    hide Params;
  }

  lemma SlicePrefix(a: array<char>, from: nat, mid: nat, to: nat)
    requires from <= mid <= to <= a.Length
    ensures a[from..to][..mid - from] == a[from..mid]
  {
  }

  /** parse_csi: s is the new reading position. The command, from a[from] on, is a[from..s]. */
  method ParseCsi(out: CsiCommand?, a: array<char>, from: nat, end: nat) returns (ok: bool, s: nat)
    requires from <= end <= a.Length && UsableOut(out)
    modifies if out == null then {} else {out, out.params}
    ensures from <= s <= end && (ok ==> from < s)
    ensures Stop(a[from..end], s - from, ok)
    ensures out != null && !ok ==> out.privateMode == old(out.privateMode) && out.paramCount == old(out.paramCount)
    ensures out != null && ok ==>
              var t := a[from..s];
              && out.privateMode == PrivateMode(t) && out.paramCount == |KeptParams(t)|
              && if out.privateMode == NUL then out.Table(KeptParams(t))
                 else forall x: nat, y: nat :: x < MAX_PARAMS && y < MAX_SUBS ==>
                        out.params[x, y] == old(out.params[x, y])
  {
    hide Stop, Params, PublicPart, KeptParams, ParamSpan;
    s := from;
    if s == end {
      assert a[from..end] == "";
      EmptyStops();
      return false, s;
    }
    var privateMode := NUL;
    var count: nat, go := 0, true;
    if IsPrivate(a[s]) {
      privateMode := a[s];
      go, s := PrivateParameters(a, from, end);
    } else {
      go, s, count := PublicParameters(out, a, from, end);
    }
    if !go {
      return false, s;
    }
    ghost var mid := s;
    ok, s := Ending(a, from, s, end);
    if ok {
      ghost var t := a[from..s];
      assert t[0] == a[from];
      SlicePrefix(a, from, mid, s);
      KeptOf(t, a[from..mid]);
      if out != null {
        out.privateMode, out.paramCount := privateMode, count;
      }
    }
  }

  /** A printed list of parameters, with any intermediate bytes and any final byte behind it, is a
      command, and reading it gives the list. */
  lemma PrintedCommand(f: seq<seq<string>>, v: seq<seq<nat>>, mid: string, c: char)
    requires Prints(f, v) && Representable(v) && AllInter(mid) && IsFinal(c)
    ensures var t := PrintFields(f) + mid + [c];
            IsCommand(t) && PrivateMode(t) == NUL && |KeptParams(t)| == |v|
            && forall x: nat, y: nat :: Entry(KeptParams(t), x, y) == if x < |v| && y < |v[x]| then v[x][y] else 0
  {
    hide Params, PublicPart, Entry, Representable, RepresentableParts, Start;
    PrintedIsRead(f, v);
    var ps := PrintFields(f);
    var t := ps + mid + [c];
    CommandParts(ps, mid, c);
    ParamPartChars(ps);
    var rest := mid + [c];
    assert t == ps + rest;
    assert mid != "" ==> rest[0] == mid[0] && IsInter(mid[0]);
    SpanOf(ps, rest);
    assert t[..|ps|] == ps;
    if ps != "" {
      FirstPublic(ps);
      assert t[0] == ps[0];
    }
    assert !IsPrivate(t[0]);
    KeptOf(t, ps);
  }

  // ---------------------------------------------------------------- strip_ctrl_codes

  /** The last character of an operating system command, searched from offset i on. */
  function OscEnd(t: string, i: nat): (r: Option<nat>)
    ensures r.Some? ==> i <= r.value < |t|
    decreases |t| - i
  {
    if i >= |t| then None
    else if t[i] == BEL then Some(i)
    else if t[i] == ESC && i + 1 < |t| && t[i + 1] == '\\' then Some(i + 1)
    else OscEnd(t, i + 1)
  }

  /** The length of the control sequence at the start of the text. */
  function SequenceLength(t: string): (n: nat)
    requires t != ""
    ensures 1 <= n <= |t|
  {
    if |t| == 1 then 1
    else if t[1] == '[' || t[1] == '(' then 2 + Reach(t[2..], 0)
    else if t[1] == ']' && OscEnd(t, 1).Some? then OscEnd(t, 1).value + 1
    else 2
  }

  /** The text without control sequences and characters that cannot be printed. */
  function Stripped(t: string, printable: char -> bool): string
    decreases |t|
  {
    if t == "" then ""
    else if t[0] == ESC then Stripped(t[SequenceLength(t)..], printable)
    else (if printable(t[0]) then [t[0]] else "") + Stripped(t[1..], printable)
  }

  /** All that is left is printable and no escape character. */
  lemma {:induction false} StrippedClean(t: string, printable: char -> bool)
    ensures forall c :: c in Stripped(t, printable) ==> printable(c) && c != ESC && c in t
    decreases |t|
  {
    hide SequenceLength;
    if t == "" {
    } else if t[0] == ESC {
      StrippedClean(t[SequenceLength(t)..], printable);
    } else {
      StrippedClean(t[1..], printable);
    }
  }

  lemma {:induction false} CleanStays(u: string, printable: char -> bool)
    requires forall c :: c in u ==> printable(c) && c != ESC
    ensures Stripped(u, printable) == u
    decreases |u|
  {
    if u != "" {
      assert u[0] in u && forall c :: c in u[1..] ==> c in u;
      CleanStays(u[1..], printable);
      assert u == [u[0]] + u[1..];
    }
  }

  /** Stripping twice changes nothing more. */
  lemma StripIdempotent(t: string, printable: char -> bool)
    ensures Stripped(Stripped(t, printable), printable) == Stripped(t, printable)
  {
    StrippedClean(t, printable);
    CleanStays(Stripped(t, printable), printable);
  }

  /** u is what is left of t after deletions. */
  predicate Subsequence(u: string, t: string)
    decreases |t|
  {
    u == "" || (t != "" && ((u[0] == t[0] && Subsequence(u[1..], t[1..])) || Subsequence(u, t[1..])))
  }

  lemma {:induction false} SkipOne(u: string, t: string, n: nat)
    requires n <= |t| && Subsequence(u, t[n..])
    ensures Subsequence(u, t)
    decreases n
  {
    if n > 0 {
      assert t[1..][n - 1..] == t[n..];
      SkipOne(u, t[1..], n - 1);
    } else {
      assert t[0..] == t;
    }
  }

  /** The order of the characters is kept. */
  lemma {:induction false} StrippedSubsequence(t: string, printable: char -> bool)
    ensures Subsequence(Stripped(t, printable), t)
    decreases |t|
  {
    hide SequenceLength;
    var u := Stripped(t, printable);
    if t == "" {
    } else if t[0] == ESC {
      var n := SequenceLength(t);
      StrippedSubsequence(t[n..], printable);
      SkipOne(u, t, n);
    } else {
      StrippedSubsequence(t[1..], printable);
      var v := Stripped(t[1..], printable);
      if printable(t[0]) {
        assert u == [t[0]] + v && u[1..] == v;
      } else {
        assert u == v;
      }
    }
  }

  /** A complete command goes as a whole, whatever follows it. */
  lemma CommandGoes(open: char, t: string, rest: string, printable: char -> bool)
    requires (open == '[' || open == '(') && IsCommand(t)
    ensures Stripped([ESC, open] + (t + rest), printable) == Stripped(rest, printable)
  {
    hide IsCommand;
    var all := [ESC, open] + (t + rest);
    assert all[2..] == t + rest && (t + rest)[..|t|] == t;
    assert t != "" by { CommandGrammar(t); }
    StopIsReach(t + rest, 0, |t|, true);
    assert all[2 + |t|..] == rest;
  }

  /** Of a sequence that is no command, what could still be the beginning of one goes; the first byte after
      which no command is possible stays. */
  lemma BrokenGoes(open: char, x: string, c: char, rest: string, printable: char -> bool)
    requires (open == '[' || open == '(') && Start(x) && !Start(x + [c]) && !IsCommand(x + [c])
    ensures Stripped([ESC, open] + (x + [c] + rest), printable) == Stripped([c] + rest, printable)
    ensures Stripped([ESC, open] + x, printable) == ""
  {
    hide IsCommand, Start, Stop, Reach, Stripped;
    var u := x + [c] + rest;
    BrokenStop(x, c, rest);
    StopIsReach(u, 0, |x|, false);
    SequenceGoes(open, u, |x|, printable);
    assert u[|x|..] == [c] + rest;
    StopIsReach(x, 0, |x|, false);
    SequenceGoes(open, x, |x|, printable);
    NothingLeft(x, printable);
  }

  lemma BrokenStop(x: string, c: char, rest: string)
    requires Start(x) && !Start(x + [c]) && !IsCommand(x + [c])
    ensures Stop(x + [c] + rest, |x|, false) && Stop(x, |x|, false)
  {
    hide IsCommand, Start;
    var u := x + [c] + rest;
    assert u[..|x|] == x && u[..|x| + 1] == x + [c] && x[..|x|] == x;
  }

  /** A control sequence goes as far as the parser gets. */
  lemma SequenceGoes(open: char, u: string, n: nat, printable: char -> bool)
    requires (open == '[' || open == '(') && n <= |u| && Reach(u, 0) == n
    ensures Stripped([ESC, open] + u, printable) == Stripped(u[n..], printable)
  {
    hide Reach;
    var all := [ESC, open] + u;
    assert all[2..] == u && all[2 + n..] == u[n..];
  }

  lemma NothingLeft(x: string, printable: char -> bool)
    ensures Stripped(x[|x|..], printable) == ""
  {
  }

  /** Before any other character an escape goes with that character only, at the end alone. */
  lemma EscapeGoes(c: char, rest: string, printable: char -> bool)
    requires c !in "[(]"
    ensures Stripped([ESC, c] + rest, printable) == Stripped(rest, printable)
    ensures Stripped([ESC], printable) == ""
  {
    var all := [ESC, c] + rest;
    assert all[2..] == rest;
    assert [ESC][1..] == "";
  }

  /** Text without an escape stays, but for what cannot be printed. */
  function Printables(t: string, printable: char -> bool): string
  {
    if t == "" then "" else (if printable(t[0]) then [t[0]] else "") + Printables(t[1..], printable)
  }

  lemma {:induction false} TextStays(t: string, rest: string, printable: char -> bool)
    requires ESC !in t
    ensures Stripped(t + rest, printable) == Printables(t, printable) + Stripped(rest, printable)
    decreases |t|
  {
    hide SequenceLength;
    if t == "" {
      assert t + rest == rest;
    } else {
      assert t[0] in t;
      assert (t + rest)[1..] == t[1..] + rest;
      TextStays(t[1..], rest, printable);
    }
  }

  /** No end of an operating system command: no BEL, and no escape before a backslash. */
  predicate NoOscEnd(t: string)
  {
    BEL !in t && forall j :: 0 <= j < |t| - 1 && t[j] == ESC ==> t[j + 1] != '\\'
  }

  /** A title or another operating system command goes, closed by BEL or ESC \\. */
  lemma OscGoes(t: string, close: string, rest: string, printable: char -> bool)
    requires NoOscEnd(t) && (close == [BEL] || close == [ESC, '\\'])
    ensures Stripped([ESC, ']'] + t + close + rest, printable) == Stripped(rest, printable)
  {
    var all := [ESC, ']'] + t + close + rest;
    forall j | 1 <= j < 2 + |t|
      ensures all[j] != BEL && (all[j] == ESC ==> all[j + 1] != '\\')
    {
      if j > 1 {
        assert all[j] == t[j - 2] && t[j - 2] in t;
        assert j < |t| + 1 ==> all[j + 1] == t[j - 1];
        assert j == |t| + 1 ==> all[j + 1] == close[0];
      }
    }
    OscFound(all, 1, 2 + |t|, |close|);
    assert all[2 + |t| + |close|..] == rest;
  }

  /** One that is not closed goes with its bracket only. */
  lemma OscOpen(t: string, printable: char -> bool)
    requires NoOscEnd(t)
    ensures Stripped([ESC, ']'] + t, printable) == Stripped(t, printable)
  {
    var all := [ESC, ']'] + t;
    forall j | 1 <= j < |all|
      ensures all[j] != BEL && (all[j] == ESC && j + 1 < |all| ==> all[j + 1] != '\\')
    {
      if j > 1 {
        assert all[j] == t[j - 2] && t[j - 2] in t;
        assert j + 1 < |all| ==> all[j + 1] == t[j - 1];
      }
    }
    OscNotFound(all, 1);
    assert all[2..] == t;
  }

  lemma {:induction false} OscNotFound(s: string, i: nat)
    requires forall j :: i <= j < |s| ==> s[j] != BEL && (s[j] == ESC && j + 1 < |s| ==> s[j + 1] != '\\')
    ensures OscEnd(s, i) == None
    decreases |s| - i
  {
    if i < |s| {
      OscNotFound(s, i + 1);
    }
  }

  lemma {:induction false} OscFound(s: string, i: nat, k: nat, n: nat)
    requires i <= k && 0 < n && k + n <= |s| && (s[k..k + n] == [BEL] || s[k..k + n] == [ESC, '\\'])
    requires forall j :: i <= j < k ==> s[j] != BEL && (s[j] == ESC ==> s[j + 1] != '\\')
    ensures OscEnd(s, i) == Some(k + n - 1)
    decreases k - i
  {
    if i < k {
      OscFound(s, i + 1, k, n);
    } else {
      assert s[k] == s[k..k + n][0];
      assert n == 2 ==> s[k + 1] == s[k..k + n][1];
    }
  }

  lemma NoNul(t: string)
    requires NUL !in t
    ensures forall i :: 0 <= i < |t| ==> t[i] != NUL
  {
    forall i | 0 <= i < |t| ensures t[i] != NUL {
      assert t[i] in t;
    }
  }

  /** The search for the end of an operating system command; r is the offset of its bracket. */
  method SkipOsc(a: array<char>, base: nat, r: nat, ghost t: string) returns (r': nat)
    requires r < |t| && base + |t| < a.Length && a[base + |t|] == NUL && NUL !in t
    requires forall i :: r <= i < |t| ==> a[base + i] == t[i]
    ensures r' == if OscEnd(t, r).Some? then OscEnd(t, r).value else r
  {
    NoNul(t);
    r' := r;
    var newR := r;
    while a[base + newR] != NUL
      invariant r <= newR <= |t| && OscEnd(t, newR) == OscEnd(t, r)
      decreases |t| - newR
    {
      if a[base + newR] == BEL {
        return newR;
      }
      if a[base + newR] == ESC && a[base + newR + 1] == '\\' {
        return newR + 1;
      }
      newR := newR + 1;
    }
  }

  /** The control sequence at offset r of the text. */
  method SkipSequence(a: array<char>, base: nat, r: nat, end: nat, ghost t: string) returns (r': nat)
    requires r < |t| && end == base + |t| < a.Length && a[end] == NUL && NUL !in t && t[r] == ESC
    requires forall i :: r <= i < |t| ==> a[base + i] == t[i]
    ensures r' == r + SequenceLength(t[r..])
  {
    hide Stop, Reach, OscEnd;
    NoNul(t);
    ghost var u := t[r..];
    r' := r + 1;
    assert r' < |t| ==> u[1] == t[r'];
    if a[base + r'] == '[' || a[base + r'] == '(' {
      r' := r' + 1;
      var ok, s := ParseCsi(null, a, base + r', end);
      assert a[base + r'..end] == u[2..];
      StopIsReach(u[2..], 0, s - base - r', ok);
      return s - base;
    }
    if a[base + r'] == ']' {
      r' := SkipOsc(a, base, r', t);
      OscShift(t, r, 1);
      assert u[1] == ']';
    }
    assert r' < |t| ==> a[base + r'] == t[r'] && t[r'] != NUL;
    if a[base + r'] != NUL {
      r' := r' + 1;
    }
  }

  lemma {:induction false} OscShift(t: string, r: nat, i: nat)
    requires r + i <= |t|
    ensures OscEnd(t[r..], i) == match OscEnd(t, r + i) case None => None case Some(k) => Some((k - r) as nat)
    decreases |t| - i
  {
    if r + i < |t| {
      OscShift(t, r, i + 1);
    }
  }

  /** strip_ctrl_codes, where every character is one byte. Nothing is written behind the result: what
      has not been read yet is never overwritten. */
  method StripCtrlCodes(a: array<char>, base: nat, ghost t: string, printable: char -> bool)
    requires Holds(a, base, t)
    modifies a
    ensures Holds(a, base, Stripped(t, printable)) && |Stripped(t, printable)| <= |t|
    ensures a[..base] == old(a[..base])
    ensures forall i :: base + |Stripped(t, printable)| < i < a.Length ==> a[i] == old(a[i])
  {
    hide SequenceLength, Stripped, Holds;
    HoldsAll(a, base, t);
    var n := StrLen(a, base, base, t);
    var w: nat, r: nat := 0, 0;
    ghost var out := "";
    StripEnds(t, printable);
    while a[base + r] != NUL
      invariant |out| == w <= r <= |t|
      invariant out + Stripped(t[r..], printable) == Stripped(t, printable)
      invariant forall i :: base <= i < base + w ==> a[i] == out[i - base]
      invariant forall i :: 0 <= i < a.Length && !(base <= i < base + w) ==> a[i] == old(a[i])
      decreases |t| - r
    {
      StripStep(out, t, r, printable);
      if a[base + r] == ESC {
        r := SkipSequence(a, base, r, base + n, t);
      } else {
        if printable(a[base + r]) {
          a[base + w] := a[base + r];
          out := out + [t[r]];
          w := w + 1;
        }
        r := r + 1;
      }
    }
    StripEnds(t, printable);
    assert r == |t|;
    a[base + w] := NUL;
    assert out + "" == out;
    StrippedClean(t, printable);
    HoldsFrom(a, base, out);
  }

  lemma StripEnds(t: string, printable: char -> bool)
    ensures "" + Stripped(t[0..], printable) == Stripped(t, printable) && Stripped(t[|t|..], printable) == ""
  {
    assert t[0..] == t;
  }

  lemma StripStep(out: string, t: string, r: nat, printable: char -> bool)
    requires r < |t|
    ensures out + Stripped(t[r..], printable) ==
            if t[r] == ESC then out + Stripped(t[r + SequenceLength(t[r..])..], printable)
            else if printable(t[r]) then (out + [t[r]]) + Stripped(t[r + 1..], printable)
            else out + Stripped(t[r + 1..], printable)
  {
    hide SequenceLength;
    var u := t[r..];
    assert u[1..] == t[r + 1..];
    assert u[SequenceLength(u)..] == t[r + SequenceLength(u)..];
  }
}
