/**
 save_file_position and load_file_position of lib/util.c: one text line for every file, the last
 saved one first, kept up to a limit.
 */
module FilePos {
  import opened Options
  import opened Decimal

  const MAX_SAVED_BOOKMARKS := 10
  const UINTMAX_RANGE := 0x1_0000_0000_0000_0000
  const NL: char := '\n'

  /** The arguments of one call of save_file_position. */
  datatype Position = Position(name: string, line: int, column: int, offset: int, bookmarks: Option<seq<nat>>)

  /** What load_file_position hands back. */
  datatype Loaded = Loaded(line: int, column: int, offset: int, bookmarks: seq<nat>)

  const DEFAULTS := Loaded(1, 0, 0, [])

  /** Values of the C types, and a name without a line break. */
  predicate Valid(p: Position)
  {
    && NL !in p.name && IsLong(p.line) && IsLong(p.column) && IsLong(p.offset)
    && (p.bookmarks.Some? ==> forall i :: 0 <= i < |p.bookmarks.value| ==> p.bookmarks.value[i] < UINTMAX_RANGE)
  }

  // ---------------------------------------------------------------- one line

  function FirstTen(b: seq<nat>): (r: seq<nat>)
    ensures |r| <= MAX_SAVED_BOOKMARKS
  {
    if |b| > MAX_SAVED_BOOKMARKS then b[..MAX_SAVED_BOOKMARKS] else b
  }

  function SavedBookmarks(p: Position): seq<nat>
  {
    if p.bookmarks.Some? then FirstTen(p.bookmarks.value) else []
  }

  function BookmarksText(b: seq<nat>): string
  {
    if b == [] then "" else ";" + Digits(b[0]) + BookmarksText(b[1..])
  }

  /** An off_t cast to uintmax_t. */
  function ToUnsigned(n: int): nat
    requires IsLong(n)
  {
    if n < 0 then n + UINTMAX_RANGE else n
  }

  /** The fields of a line, up to its end. */
  function Body(p: Position): string
    requires Valid(p)
  {
    Signed(p.line) + ";" + Signed(p.column) + ";" + Digits(ToUnsigned(p.offset))
      + BookmarksText(SavedBookmarks(p)) + [NL]
  }

  function Record(p: Position): string
    requires Valid(p)
  {
    p.name + " " + Body(p)
  }

  /** The line belongs to the name: the name, one space, and no space after that. */
  predicate Matches(name: string, line: string)
  {
    |name| < |line| && name <= line && line[|name|] == ' ' && ' ' !in line[|name| + 1..]
  }

  /** A call with the values of a new file and without bookmarks only forgets the old record. */
  predicate Forgets(p: Position)
  {
    p.line == 1 && p.column == 0 && p.bookmarks.None?
  }

  // ---------------------------------------------------------------- saving

  function Others(lines: seq<string>, name: string): (r: seq<string>)
    ensures |r| <= |lines|
  {
    if lines == [] then []
    else (if Matches(name, lines[0]) then [] else [lines[0]]) + Others(lines[1..], name)
  }

  function Min(a: nat, b: nat): nat
  {
    if a < b then a else b
  }

  /** The number of old lines kept: the limit is looked at after a line is written. */
  function Kept(max: nat): nat
  {
    if max == 0 then 1 else max
  }

  function Take<T>(s: seq<T>, n: nat): (r: seq<T>)
    ensures r <= s && |r| <= n
  {
    if |s| <= n then s else s[..n]
  }

  function NewLines(p: Position): seq<string>
    requires Valid(p)
  {
    if Forgets(p) then [] else [Record(p)]
  }

  /** The file after a call; a file that does not exist yet is only created. */
  function Saved(file: Option<seq<string>>, p: Position, max: nat): Option<seq<string>>
    requires Valid(p)
  {
    match file
    case None => Some([])
    case Some(lines) => Some(NewLines(p) + Take(Others(lines, p.name), Kept(max)))
  }

  // ---------------------------------------------------------------- loading

  /** g_strsplit on ";" into at most k parts, for a text that is not empty. */
  function SplitUpTo(s: string, k: nat): (r: seq<string>)
    requires k > 0
    ensures 0 < |r| <= k
  {
    var i := SemicolonAt(s);
    if k == 1 || i == |s| then [s] else [s[..i]] + SplitUpTo(s[i + 1..], k - 1)
  }

  function SemicolonAt(s: string): (k: nat)
    ensures k <= |s| && (forall i :: 0 <= i < k ==> s[i] != ';') && (k < |s| ==> s[k] == ';')
  {
    if s == "" || s[0] == ';' then 0 else 1 + SemicolonAt(s[1..])
  }

  function Tokens(s: string): (r: seq<string>)
    ensures |r| <= 3 + MAX_SAVED_BOOKMARKS
  {
    if s == "" then [] else SplitUpTo(s, 3 + MAX_SAVED_BOOKMARKS)
  }

  /** strtoul: as strtol, but a number above its range gives the greatest one, and a sign wraps. */
  function StrToUL(s: string): (n: nat)
    ensures n < UINTMAX_RANGE
  {
    var t := SkipSpace(s);
    var signed := t != "" && (t[0] == '-' || t[0] == '+');
    var u := if signed then t[1..] else t;
    var n := Number(u[..DigitSpan(u)]);
    if n >= UINTMAX_RANGE then UINTMAX_RANGE - 1
    else if signed && t[0] == '-' && n > 0 then UINTMAX_RANGE - n
    else n
  }

  function Bookmarks(tokens: seq<string>): seq<nat>
  {
    if tokens == [] then [] else [StrToUL(tokens[0])] + Bookmarks(tokens[1..])
  }

  /** What a matching line with these fields does to the values read so far. */
  function ReadFields(tokens: seq<string>, wanted: bool, r: Loaded): Loaded
  {
    if |tokens| == 0 then Loaded(1, 0, 0, r.bookmarks)
    else if |tokens| == 1 then Loaded(StrToL(tokens[0]), 0, 0, r.bookmarks)
    else if |tokens| == 2 then Loaded(StrToL(tokens[0]), StrToL(tokens[1]), 0, r.bookmarks)
    else if wanted then
      Loaded(StrToL(tokens[0]), StrToL(tokens[1]), StrToL(tokens[2]), r.bookmarks + Bookmarks(tokens[3..]))
    else Loaded(StrToL(tokens[0]), StrToL(tokens[1]), r.offset, r.bookmarks)
  }

  function ReadLine(line: string, name: string, wanted: bool, r: Loaded): Loaded
  {
    if Matches(name, line) then ReadFields(Tokens(line[|name| + 1..]), wanted, r) else r
  }

  function ReadLines(lines: seq<string>, name: string, wanted: bool, r: Loaded): Loaded
  {
    if lines == [] then r else ReadLines(lines[1..], name, wanted, ReadLine(lines[0], name, wanted, r))
  }

  function LoadedFrom(file: Option<seq<string>>, name: string, wanted: bool): Loaded
  {
    match file
    case None => DEFAULTS
    case Some(lines) => ReadLines(lines, name, wanted, DEFAULTS)
  }

  class FilePositions {
    var file: Option<seq<string>>
    const maxSavedEntries: nat

    constructor (file: Option<seq<string>>, maxSavedEntries: nat)
      ensures this.file == file && this.maxSavedEntries == maxSavedEntries
    {
      this.file, this.maxSavedEntries := file, maxSavedEntries;
    }

    /** save_file_position */
    method Save(p: Position)
      requires Valid(p)
      modifies this
      ensures file == Saved(old(file), p, maxSavedEntries)
    {
      hide Others, Take, Record;
      var backup := file;
      var f: seq<string> := [];
      if backup.Some? {
        if p.line != 1 || p.column != 0 || p.bookmarks.Some? {
          var record := WriteRecord(p);
          f := [record];
        }
        f := KeepOthers(f, backup.value, p.name, maxSavedEntries);
      }
      file := Some(f);
    }

    /** load_file_position: bookmarks are only given when they are wanted. */
    method Load(name: string, wanted: bool) returns (r: Loaded)
      ensures r == LoadedFrom(file, name, wanted)
    {
      hide Matches, Tokens, StrToL, StrToUL;
      r := DEFAULTS;
      if file.None? {
        return;
      }
      var lines := file.value;
      var k := 0;
      assert lines[0..] == lines;
      while k < |lines|
        invariant 0 <= k <= |lines|
        invariant ReadLines(lines[k..], name, wanted, r) == ReadLines(lines, name, wanted, DEFAULTS)
      {
        var buf := lines[k];
        assert lines[k..][1..] == lines[k + 1..];
        k := k + 1;
        if !Matches(name, buf) {
          continue;
        }
        MatchLength(name, buf);
        var tokens := Tokens(buf[|name| + 1..]);
        if |tokens| == 0 {
          r := r.(line := 1, column := 0, offset := 0);
        } else {
          r := r.(line := StrToL(tokens[0]));
          if |tokens| == 1 {
            r := r.(column := 0, offset := 0);
          } else {
            r := r.(column := StrToL(tokens[1]));
            if |tokens| == 2 {
              r := r.(offset := 0);
            } else if wanted {
              var b := ReadBookmarks(tokens);
              r := r.(offset := StrToL(tokens[2]), bookmarks := r.bookmarks + b);
            }
          }
        }
      }
    }
  }

  /** The new record. */
  method WriteRecord(p: Position) returns (record: string)
    requires Valid(p)
    ensures record == Record(p)
  {
    record := p.name + " " + Signed(p.line) + ";" + Signed(p.column) + ";" + Digits(ToUnsigned(p.offset));
    ghost var head := record;
    RecordText(p, head);
    hide Record, Signed, Digits;
    if p.bookmarks.Some? {
      var b, k := p.bookmarks.value, 0;
      BookmarksUpTo(b, 0);
      while k < |b| && k < MAX_SAVED_BOOKMARKS
        invariant 0 <= k <= |b| && k <= MAX_SAVED_BOOKMARKS
        invariant record == head + BookmarksText(b[..k])
      {
        BookmarksUpTo(b, k);
        record := record + ";" + Digits(b[k]);
        k := k + 1;
      }
      assert b[..k] == FirstTen(b);
    }
    record := record + [NL];
  }

  /** The old lines of other names, up to the limit. */
  method KeepOthers(f: seq<string>, lines: seq<string>, name: string, max: nat) returns (g: seq<string>)
    ensures g == f + Take(Others(lines, name), Kept(max))
  {
    hide Matches, Take;
    g := f;
    var i, k := 1, 0;
    assert lines[..0] == [];
    while k < |lines|
      invariant 0 <= k <= |lines| && 1 <= i <= Kept(max)
      invariant g == f + Others(lines[..k], name) && i == 1 + |Others(lines[..k], name)|
    {
      var buf := lines[k];
      OthersSnoc(lines[..k], buf, name);
      assert lines[..k + 1] == lines[..k] + [buf];
      k := k + 1;
      if !Matches(name, buf) {
        g := g + [buf];
        assert g == f + Others(lines[..k], name);
        i := i + 1;
        if i > max {
          break;
        }
      }
    }
    OthersTaken(lines, k, name, Kept(max));
  }

  lemma MatchLength(name: string, line: string)
    requires Matches(name, line)
    ensures |name| + 1 <= |line|
  {
  }

  method ReadBookmarks(tokens: seq<string>) returns (b: seq<nat>)
    requires 3 <= |tokens| <= 3 + MAX_SAVED_BOOKMARKS
    ensures b == Bookmarks(tokens[3..])
  {
    hide StrToUL;
    b := [];
    var i := 0;
    while i < MAX_SAVED_BOOKMARKS && 3 + i < |tokens|
      invariant 0 <= i && 3 + i <= |tokens|
      invariant b + Bookmarks(tokens[3 + i..]) == Bookmarks(tokens[3..])
    {
      assert tokens[3 + i..][1..] == tokens[4 + i..];
      var val := StrToUL(tokens[3 + i]);
      b := b + [val];
      i := i + 1;
    }
  }

  // ---------------------------------------------------------------- lemmas for the methods

  lemma BookmarksUpTo(b: seq<nat>, k: nat)
    requires k <= |b|
    ensures BookmarksText(b[..0]) == ""
    ensures k < |b| ==> BookmarksText(b[..k + 1]) == BookmarksText(b[..k]) + ";" + Digits(b[k])
  {
    if k < |b| {
      BookmarksSnoc(b[..k], b[k]);
      assert b[..k + 1] == b[..k] + [b[k]];
    }
  }

  lemma {:induction false} BookmarksSnoc(b: seq<nat>, n: nat)
    ensures BookmarksText(b + [n]) == BookmarksText(b) + ";" + Digits(n)
    decreases |b|
  {
    hide Digits;
    if b == [] {
      assert b + [n] == [n] && [n][1..] == [];
    } else {
      BookmarksSnoc(b[1..], n);
      assert (b + [n])[1..] == b[1..] + [n];
    }
  }

  lemma RecordText(p: Position, head: string)
    requires Valid(p)
    requires head == p.name + " " + Signed(p.line) + ";" + Signed(p.column) + ";" + Digits(ToUnsigned(p.offset))
    ensures Record(p) == head + BookmarksText(SavedBookmarks(p)) + [NL]
    ensures BookmarksText([]) == ""
  {
    hide Signed, Digits;
  }

  lemma {:induction false} OthersConcat(a: seq<string>, b: seq<string>, name: string)
    ensures Others(a + b, name) == Others(a, name) + Others(b, name)
    decreases |a|
  {
    hide Matches, Others;
    if a == [] {
      OthersNone(name);
      assert a + b == b;
    } else {
      var x, more := a[0], a[1..];
      OthersConcat(more, b, name);
      OthersHead(x, more + b, name);
      OthersHead(x, more, name);
      assert a == [x] + more;
      assert a + b == [x] + (more + b);
    }
  }

  lemma OthersNone(name: string)
    ensures Others([], name) == []
  {
  }

  lemma OthersHead(x: string, lines: seq<string>, name: string)
    ensures Others([x] + lines, name) == (if Matches(name, x) then [] else [x]) + Others(lines, name)
  {
    hide Matches;
    assert ([x] + lines)[1..] == lines;
  }

  lemma OthersSnoc(lines: seq<string>, x: string, name: string)
    ensures Others(lines + [x], name) == Others(lines, name) + if Matches(name, x) then [] else [x]
  {
    hide Matches;
    OthersConcat(lines, [x], name);
    OthersHead(x, [], name);
    assert [x] + [] == [x];
  }

  lemma OthersTaken(lines: seq<string>, k: nat, name: string, n: nat)
    requires k <= |lines| && |Others(lines[..k], name)| <= n
    requires k < |lines| ==> |Others(lines[..k], name)| == n
    ensures Take(Others(lines, name), n) == Others(lines[..k], name)
  {
    hide Others;
    if k == |lines| {
      assert lines[..k] == lines;
    } else {
      assert lines == lines[..k] + lines[k..];
      OthersConcat(lines[..k], lines[k..], name);
    }
  }

  // ---------------------------------------------------------------- one line is read back

  predicate Plain(s: string)
  {
    ' ' !in s && ';' !in s && NL !in s
  }

  lemma DigitsPlain(n: nat)
    ensures Plain(Digits(n)) && AllDigits(Digits(n))
  {
    NumberDigits(n);
  }

  lemma SignedPlain(n: int)
    ensures Plain(Signed(n))
  {
    DigitsPlain(if n < 0 then -n else n);
  }

  lemma {:induction false} BookmarksNoSpace(b: seq<nat>)
    ensures ' ' !in BookmarksText(b) && NL !in BookmarksText(b)
  {
    hide Digits;
    if b != [] {
      DigitsPlain(b[0]);
      BookmarksNoSpace(b[1..]);
    }
  }

  lemma BodyNoSpace(p: Position)
    requires Valid(p)
    ensures ' ' !in Body(p) && Body(p) != ""
  {
    hide Signed, Digits, BookmarksText, SavedBookmarks;
    SignedPlain(p.line);
    SignedPlain(p.column);
    DigitsPlain(ToUnsigned(p.offset));
    BookmarksNoSpace(SavedBookmarks(p));
  }

  /** The space after the name is the last one of the line. */
  lemma MatchedAt(name: string, line: string)
    ensures Matches(name, line) <==>
            |name| < |line| && line[..|name|] == name && line[|name|] == ' '
            && forall i :: |name| < i < |line| ==> line[i] != ' '
  {
    if |name| < |line| {
      var rest := line[|name| + 1..];
      assert forall i :: |name| < i < |line| ==> line[i] == rest[i - |name| - 1];
      assert forall j :: 0 <= j < |rest| ==> rest[j] == line[|name| + 1 + j];
    }
  }

  /** A record belongs to one name only, also where names have spaces or start alike. */
  lemma RecordMatches(p: Position, name: string)
    requires Valid(p)
    ensures Matches(name, Record(p)) <==> name == p.name
    ensures Record(p)[|p.name| + 1..] == Body(p)
  {
    hide Matches, Body;
    BodyNoSpace(p);
    var line, n := Record(p), |p.name|;
    assert line[n + 1..] == Body(p) && line[n] == ' ' && line[..n] == p.name;
    assert forall i :: n < i < |line| ==> line[i] == Body(p)[i - n - 1];
    MatchedAt(name, line);
  }

  lemma {:induction false} SemicolonAfter(f: string, rest: string)
    requires ';' !in f
    ensures SemicolonAt(f + rest) == |f| + SemicolonAt(rest)
    decreases |f|
  {
    if f == "" {
      assert f + rest == rest;
    } else {
      assert f[0] in f && forall c :: c in f[1..] ==> c in f;
      SemicolonAfter(f[1..], rest);
      assert (f + rest)[1..] == f[1..] + rest;
    }
  }

  lemma SplitStep(f: string, rest: string, k: nat)
    requires k > 0 && ';' !in f
    ensures SplitUpTo(f, k) == [f]
    ensures k > 1 ==> SplitUpTo(f + (";" + rest), k) == [f] + SplitUpTo(rest, k - 1)
  {
    hide SemicolonAt;
    assert SemicolonAt("") == 0;
    SemicolonAfter(f, "");
    assert f + "" == f;
    SemicolonAfter(f, ";" + rest);
    AtSemicolon(rest);
    var s := f + (";" + rest);
    assert s[..|f|] == f && s[|f| + 1..] == rest;
  }

  lemma AtSemicolon(rest: string)
    ensures SemicolonAt(";" + rest) == 0
  {
  }

  lemma StrToULDigits(n: nat, rest: string)
    requires n < UINTMAX_RANGE && (rest == "" || !IsDigit(rest[0]))
    ensures StrToUL(Digits(n) + rest) == n
  {
    var ds := Digits(n);
    NumberDigits(n);
    hide Digits, Number, DigitSpan;
    Decimal.SpanOf(ds, rest);
    assert (ds + rest)[..|ds|] == ds;
    assert IsDigit(ds[0]) && (ds + rest)[0] == ds[0];
    NotSpace(ds + rest);
  }

  /** A number and the bookmarks after it are split and read back. */
  lemma {:induction false} TailRead(d: nat, b: seq<nat>, k: nat)
    requires |b| < k && d < UINTMAX_RANGE && forall i :: 0 <= i < |b| ==> b[i] < UINTMAX_RANGE
    ensures var r := SplitUpTo(Digits(d) + BookmarksText(b) + [NL], k);
            |r| == |b| + 1 && StrToL(r[0]) == Clamp(d) && Bookmarks(r[1..]) == b && StrToUL(r[0]) == d
    decreases |b|
  {
    hide Digits, StrToL, StrToUL, Clamp, SplitUpTo;
    DigitsPlain(d);
    var ds := Digits(d);
    if b == [] {
      assert ds + BookmarksText(b) + [NL] == ds + [NL];
      SplitStep(ds + [NL], "", k);
      StrToLDigits(d, [NL]);
      StrToULDigits(d, [NL]);
    } else {
      var rest := Digits(b[0]) + BookmarksText(b[1..]) + [NL];
      assert ds + BookmarksText(b) + [NL] == ds + (";" + rest);
      SplitStep(ds, rest, k);
      StrToLDigits(d, "");
      StrToULDigits(d, "");
      assert ds + "" == ds;
      TailRead(b[0], b[1..], k - 1);
      var r := SplitUpTo(rest, k - 1);
      assert ([ds] + r)[1..] == r;
      assert b == [b[0]] + b[1..];
    }
  }

  /** What can be read back of a call: an offset is never negative. */
  function Restored(p: Position, wanted: bool): Loaded
  {
    if wanted then Loaded(p.line, p.column, if p.offset < 0 then LONG_MAX else p.offset, SavedBookmarks(p))
    else Loaded(p.line, p.column, 0, [])
  }

  lemma BodyParts(p: Position)
    requires Valid(p)
    ensures var tail := Digits(ToUnsigned(p.offset)) + BookmarksText(SavedBookmarks(p)) + [NL];
            Body(p) == Signed(p.line) + (";" + (Signed(p.column) + (";" + tail)))
  {
    hide Signed, Digits, BookmarksText, SavedBookmarks;
    Regroup(Signed(p.line), Signed(p.column), Digits(ToUnsigned(p.offset)), BookmarksText(SavedBookmarks(p)));
  }

  lemma Regroup(a: string, b: string, c: string, d: string)
    ensures a + ";" + b + ";" + c + d + [NL] == a + (";" + (b + (";" + (c + d + [NL]))))
  {
  }

  lemma BodySplit(p: Position)
    requires Valid(p)
    ensures var d, b := ToUnsigned(p.offset), SavedBookmarks(p);
            Tokens(Body(p))
            == [Signed(p.line)] + ([Signed(p.column)] + SplitUpTo(Digits(d) + BookmarksText(b) + [NL], 11))
  {
    var d, b := ToUnsigned(p.offset), SavedBookmarks(p);
    hide Signed, Digits, BookmarksText, SplitUpTo, SavedBookmarks, Body, ToUnsigned;
    SignedPlain(p.line);
    SignedPlain(p.column);
    var tail := Digits(d) + BookmarksText(b) + [NL];
    BodyParts(p);
    SplitStep(Signed(p.line), Signed(p.column) + (";" + tail), 13);
    SplitStep(Signed(p.column), tail, 12);
  }

  /** The record of a call gives back its values. */
  lemma RecordRead(p: Position, name: string, wanted: bool, r: Loaded)
    requires Valid(p)
    ensures name != p.name ==> ReadLine(Record(p), name, wanted, r) == r
    ensures name == p.name && r == DEFAULTS ==> ReadLine(Record(p), name, wanted, r) == Restored(p, wanted)
  {
    hide Record, Body, Tokens, Signed, Digits, StrToL, StrToUL, BookmarksText, SplitUpTo, Matches, Bookmarks;
    RecordMatches(p, name);
    BodySplit(p);
    var d, b := ToUnsigned(p.offset), SavedBookmarks(p);
    TailRead(d, b, 11);
    StrToLSigned(p.line, "");
    StrToLSigned(p.column, "");
    assert Signed(p.line) + "" == Signed(p.line) && Signed(p.column) + "" == Signed(p.column);
    var tail := SplitUpTo(Digits(d) + BookmarksText(b) + [NL], 11);
    var tokens := [Signed(p.line)] + ([Signed(p.column)] + tail);
    assert tokens[2] == tail[0] && tokens[3..] == tail[1..];
    assert [] + b == b;
  }

  // ---------------------------------------------------------------- runs

  predicate AllValid(r: seq<Position>)
  {
    forall i :: 0 <= i < |r| ==> Valid(r[i])
  }

  /** The file after a run of calls, which starts with an empty file. */
  function Store(r: seq<Position>, max: nat): Option<seq<string>>
    requires AllValid(r)
    decreases |r|
  {
    if r == [] then Some([]) else Saved(Store(r[..|r| - 1], max), r[|r| - 1], max)
  }

  function Without(ps: seq<Position>, name: string): (q: seq<Position>)
    ensures |q| <= |ps|
    decreases |ps|
  {
    if ps == [] then [] else (if ps[0].name == name then [] else [ps[0]]) + Without(ps[1..], name)
  }

  /** The calls of a run that are in force, without any limit: the last one first. */
  function InForce(r: seq<Position>): seq<Position>
    decreases |r|
  {
    if r == [] then []
    else
      var p := r[|r| - 1];
      (if Forgets(p) then [] else [p]) + Without(InForce(r[..|r| - 1]), p.name)
  }

  function Lines(ps: seq<Position>): (l: seq<string>)
    requires AllValid(ps)
    ensures |l| == |ps| && forall i :: 0 <= i < |ps| ==> l[i] == Record(ps[i])
  {
    if ps == [] then [] else [Record(ps[0])] + Lines(ps[1..])
  }

  lemma {:induction false} WithoutSome(ps: seq<Position>, name: string)
    ensures forall p :: p in Without(ps, name) <==> p in ps && p.name != name
    decreases |ps|
  {
    if ps != [] {
      WithoutSome(ps[1..], name);
      assert ps == [ps[0]] + ps[1..];
    }
  }

  lemma {:induction false} InForceFrom(r: seq<Position>)
    ensures forall p :: p in InForce(r) ==> p in r
    decreases |r|
  {
    if r != [] {
      var q := r[..|r| - 1];
      InForceFrom(q);
      WithoutSome(InForce(q), r[|r| - 1].name);
      assert forall p :: p in q ==> p in r;
    }
  }

  lemma InForceValid(r: seq<Position>)
    requires AllValid(r)
    ensures AllValid(InForce(r))
  {
    InForceFrom(r);
    forall i | 0 <= i < |InForce(r)| ensures Valid(InForce(r)[i]) {
      assert InForce(r)[i] in InForce(r);
    }
  }

  /** Forgetting a name in the lines is forgetting it in the calls. */
  lemma {:induction false} OthersOfLines(ps: seq<Position>, name: string)
    requires AllValid(ps)
    ensures AllValid(Without(ps, name)) && Others(Lines(ps), name) == Lines(Without(ps, name))
    decreases |ps|
  {
    hide Record, Matches, Valid;
    if ps != [] {
      var more := ps[1..];
      assert forall i :: 0 <= i < |more| ==> more[i] == ps[i + 1];
      OthersOfLines(more, name);
      RecordMatches(ps[0], name);
      assert Lines(ps) == [Record(ps[0])] + Lines(more);
      assert ([Record(ps[0])] + Lines(more))[1..] == Lines(more);
      var w := Without(more, name);
      assert ([ps[0]] + w)[1..] == w;
    }
  }

  lemma {:induction false} WithoutPrefix(ps: seq<Position>, n: nat, name: string) returns (m: nat)
    requires n <= |ps|
    ensures m <= |Without(ps, name)| && m <= n && Without(ps[..n], name) == Without(ps, name)[..m]
    ensures n == |ps| ==> m == |Without(ps, name)|
    decreases n
  {
    if n == 0 {
      m := 0;
      if ps == [] {
      }
    } else {
      var k := WithoutPrefix(ps[1..], n - 1, name);
      assert ps[..n][1..] == ps[1..][..n - 1] && ps[..n][0] == ps[0];
      m := if ps[0].name == name then k else k + 1;
      var w := Without(ps[1..], name);
      assert ps[0].name != name ==> ([ps[0]] + w)[..k + 1] == [ps[0]] + w[..k];
    }
  }

  lemma LinesPrefix(ps: seq<Position>, n: nat)
    requires n <= |ps| && AllValid(ps)
    ensures AllValid(ps[..n]) && Lines(ps)[..n] == Lines(ps[..n])
  {
    hide Record, Valid;
  }

  lemma LinesConcat(ps: seq<Position>, qs: seq<Position>)
    requires AllValid(ps) && AllValid(qs)
    ensures AllValid(ps + qs) && Lines(ps + qs) == Lines(ps) + Lines(qs)
  {
    hide Record, Valid;
  }

  /** One call keeps the file a beginning of the calls in force. */
  lemma SaveKeepsPrefix(ps: seq<Position>, n: nat, p: Position, max: nat) returns (m: nat)
    requires AllValid(ps) && Valid(p) && n <= |ps|
    ensures AllValid(ps[..n])
    ensures var qs := (if Forgets(p) then [] else [p]) + Without(ps, p.name);
            && m <= |qs| && m <= Kept(max) + 1 && AllValid(qs) && AllValid(qs[..m])
            && Saved(Some(Lines(ps[..n])), p, max) == Some(Lines(qs[..m]))
            && (n == |ps| && |Without(ps, p.name)| <= Kept(max) ==> m == |qs|)
            && m == |NewLines(p)| + Min(|Without(ps[..n], p.name)|, Kept(max))
  {
    hide Record, Valid, Forgets, Others, Without, Lines;
    LinesPrefix(ps, n);
    OthersOfLines(ps[..n], p.name);
    OthersOfLines(ps, p.name);
    var k := WithoutPrefix(ps, n, p.name);
    var w, head := Without(ps, p.name), if Forgets(p) then [] else [p];
    var j := Min(k, Kept(max));
    LinesPrefix(w, k);
    LinesPrefix(w[..k], j);
    assert w[..k][..j] == w[..j];
    LinesPrefix(w, j);
    assert Take(Lines(w[..k]), Kept(max)) == Lines(w[..j]);
    LinesConcat(head, w[..j]);
    LinesConcat(head, w);
    OneLine(p);
    assert NewLines(p) == Lines(head);
    m := |head| + j;
    assert (head + w)[..m] == head + w[..j];
    LinesPrefix(head + w, m);
  }

  lemma OneLine(p: Position)
    requires Valid(p)
    ensures Lines([p]) == [Record(p)] && Lines([]) == []
  {
  }

  ghost predicate DistinctPositions(ps: seq<Position>)
  {
    forall i, j :: 0 <= i < j < |ps| ==> ps[i].name != ps[j].name
  }

  predicate HasName(ps: seq<Position>, name: string)
  {
    exists i :: 0 <= i < |ps| && ps[i].name == name
  }

  /** Of distinct names, forgetting one takes away one entry or none. */
  lemma {:induction false} WithoutLength(ps: seq<Position>, name: string)
    requires DistinctPositions(ps)
    ensures |Without(ps, name)| == |ps| - if HasName(ps, name) then 1 else 0
    decreases |ps|
  {
    if ps != [] {
      var more := ps[1..];
      assert forall i :: 0 <= i < |more| ==> more[i] == ps[i + 1];
      WithoutLength(more, name);
      if ps[0].name == name {
        assert !HasName(more, name);
      } else {
        assert HasName(ps, name) ==> HasName(more, name) by {
          if i :| 0 <= i < |ps| && ps[i].name == name {
            assert more[i - 1].name == name;
          }
        }
      }
    }
  }

  /** The calls of a run that only forget a name. */
  function Forgotten(r: seq<Position>): nat
    decreases |r|
  {
    if r == [] then 0 else Forgotten(r[..|r| - 1]) + if Forgets(r[|r| - 1]) then 1 else 0
  }

  lemma {:induction false} NothingForgotten(r: seq<Position>)
    requires forall i :: 0 <= i < |r| ==> !Forgets(r[i])
    ensures Forgotten(r) == 0
    decreases |r|
  {
    if r != [] {
      NothingForgotten(r[..|r| - 1]);
    }
  }

  /** How far the number of records may stay behind: a call that forgets a name adds at most one. */
  lemma CountStep(ps: seq<Position>, n: nat, p: Position, max: nat, m: nat, behind: nat)
    requires Valid(p) && DistinctPositions(ps) && n <= |ps| && n <= Kept(max) + 1
    requires n + behind >= Min(|ps|, Kept(max) + 1)
    requires m == |NewLines(p)| + Min(|Without(ps[..n], p.name)|, Kept(max))
    ensures m + behind + (if Forgets(p) then 1 else 0) >=
            Min(|(if Forgets(p) then [] else [p]) + Without(ps, p.name)|, Kept(max) + 1)
  {
    hide Record, Forgets, Valid, Without, Kept;
    var front := ps[..n];
    assert DistinctPositions(front);
    WithoutLength(ps, p.name);
    WithoutLength(front, p.name);
    if i :| 0 <= i < |front| && front[i].name == p.name {
      assert ps[i].name == p.name;
    }
  }

  function Names(r: seq<Position>): set<string>
  {
    set p | p in r :: p.name
  }

  lemma {:induction false} DistinctLength(ps: seq<Position>, names: set<string>)
    requires forall i, j :: 0 <= i < j < |ps| ==> ps[i].name != ps[j].name
    requires forall i :: 0 <= i < |ps| ==> ps[i].name in names
    ensures |ps| <= |names|
    decreases |ps|
  {
    if ps != [] {
      var more := ps[1..];
      assert forall i :: 0 <= i < |more| ==> more[i] == ps[i + 1];
      DistinctLength(more, names - {ps[0].name});
    }
  }

  /** The last call of a run for a name, or -1. */
  function LastCall(r: seq<Position>, name: string): (k: int)
    ensures -1 <= k < |r| && (k >= 0 ==> r[k].name == name)
    ensures forall i :: k < i < |r| ==> r[i].name != name
    decreases |r|
  {
    if r == [] then -1
    else if r[|r| - 1].name == name then |r| - 1
    else LastCall(r[..|r| - 1], name)
  }

  /** The calls in force are the last ones of their names, in the order from the last to the first. */
  ghost predicate LastFirst(r: seq<Position>, ps: seq<Position>)
  {
    && (forall i :: 0 <= i < |ps| ==> IsLast(r, ps[i]))
    && forall i, j :: 0 <= i < j < |ps| ==> LastCall(r, ps[i].name) > LastCall(r, ps[j].name)
  }

  ghost predicate IsLast(r: seq<Position>, p: Position)
  {
    LastCall(r, p.name) >= 0 && r[LastCall(r, p.name)] == p && !Forgets(p)
  }

  lemma LastCallSnoc(r: seq<Position>, p: Position, name: string)
    ensures LastCall(r + [p], name) == if p.name == name then |r| else LastCall(r, name)
  {
    assert (r + [p])[..|r|] == r;
  }

  lemma IsLastSnoc(r: seq<Position>, p: Position, q: Position)
    ensures IsLast(r + [p], q) <==> if q.name == p.name then q == p && !Forgets(p) else IsLast(r, q)
  {
    hide Forgets, LastCall;
    LastCallSnoc(r, p, q.name);
  }

  lemma LastFirstCons(r: seq<Position>, p: Position, w: seq<Position>)
    requires IsLast(r, p) && LastFirst(r, w)
    requires forall x :: x in w ==> LastCall(r, p.name) > LastCall(r, x.name)
    ensures LastFirst(r, [p] + w)
  {
    hide LastCall, IsLast;
    var ps := [p] + w;
    assert forall i :: 0 < i < |ps| ==> ps[i] == w[i - 1];
    forall j | 0 < j < |ps| ensures LastCall(r, ps[0].name) > LastCall(r, ps[j].name) {
      assert w[j - 1] in w;
    }
  }

  lemma LastFirstTail(r: seq<Position>, ps: seq<Position>)
    requires LastFirst(r, ps) && ps != []
    ensures IsLast(r, ps[0]) && LastFirst(r, ps[1..])
    ensures forall x :: x in ps[1..] ==> LastCall(r, ps[0].name) > LastCall(r, x.name)
  {
    hide LastCall, IsLast;
    var more := ps[1..];
    assert forall i :: 0 <= i < |more| ==> more[i] == ps[i + 1];
  }

  lemma {:induction false} WithoutOrder(r: seq<Position>, ps: seq<Position>, name: string)
    requires LastFirst(r, ps)
    ensures LastFirst(r, Without(ps, name))
    decreases |ps|
  {
    hide LastCall, IsLast, LastFirst;
    if ps == [] {
    } else {
      LastFirstTail(r, ps);
      WithoutOrder(r, ps[1..], name);
      WithoutSome(ps[1..], name);
      var w := Without(ps[1..], name);
      LastFirstCons(r, ps[0], w);
      assert [] + w == w;
    }
  }

  lemma InForceSnoc(r: seq<Position>, p: Position)
    ensures InForce(r + [p]) == (if Forgets(p) then [] else [p]) + Without(InForce(r), p.name)
  {
    assert (r + [p])[..|r|] == r;
  }

  /** A call is in force exactly when it is the last one for its name and does not forget it. */
  lemma {:induction false} InForceIsLast(r: seq<Position>)
    ensures LastFirst(r, InForce(r)) && forall p :: p in InForce(r) <==> IsLast(r, p)
    decreases |r|
  {
    hide Forgets, LastCall, IsLast;
    if r == [] {
      NoLast();
    } else {
      var q, p := r[..|r| - 1], r[|r| - 1];
      assert r == q + [p];
      InForceIsLast(q);
      InForceSnoc(q, p);
      WithoutOrder(q, InForce(q), p.name);
      var w := Without(InForce(q), p.name);
      WithoutSome(InForce(q), p.name);
      forall x ensures x in InForce(r) <==> IsLast(r, x) {
        IsLastSnoc(q, p, x);
      }
      OrderSnoc(q, p, w);
    }
  }

  lemma NoLast()
    ensures forall p :: !IsLast([], p)
  {
  }

  lemma OrderSnoc(q: seq<Position>, p: Position, w: seq<Position>)
    requires LastFirst(q, w) && forall x :: x in w ==> x.name != p.name
    ensures LastFirst(q + [p], (if Forgets(p) then [] else [p]) + w)
  {
    hide Forgets, LastCall, IsLast;
    var ps := (if Forgets(p) then [] else [p]) + w;
    forall i | 0 <= i < |ps| ensures IsLast(q + [p], ps[i]) {
      IsLastSnoc(q, p, ps[i]);
      assert ps[i] == p || ps[i] in w;
    }
    forall i, j | 0 <= i < j < |ps| ensures LastCall(q + [p], ps[i].name) > LastCall(q + [p], ps[j].name) {
      LastCallSnoc(q, p, ps[i].name);
      LastCallSnoc(q, p, ps[j].name);
      assert ps[j] in w;
      assert LastCall(q, ps[j].name) < |q|;
    }
  }

  // ---------------------------------------------------------------- the main results

  /** Over any run the file is the text of the first n calls in force. There are at most one more than
      the limit, and exactly that many or all of them if no call forgets a name; every call that does
      can leave one fewer. Nothing is lost as long as the names are no more than that. */
  lemma {:induction false} StoreOverRuns(r: seq<Position>, max: nat) returns (n: nat)
    requires AllValid(r)
    ensures AllValid(InForce(r)) && n <= |InForce(r)| && n <= Kept(max) + 1 && AllValid(InForce(r)[..n])
    ensures Store(r, max) == Some(Lines(InForce(r)[..n]))
    ensures LastFirst(r, InForce(r)[..n])
    ensures |Names(r)| <= Kept(max) + 1 ==> n == |InForce(r)|
    ensures n + Forgotten(r) >= Min(|InForce(r)|, Kept(max) + 1)
    ensures (forall i :: 0 <= i < |r| ==> !Forgets(r[i])) ==> n == Min(|InForce(r)|, Kept(max) + 1)
    decreases |r|
  {
    hide Valid, Forgets, LastFirst, Names, Record, Without, Kept, Lines, Saved;
    InForceValid(r);
    if r == [] {
      n := 0;
    } else {
      var q, p := r[..|r| - 1], r[|r| - 1];
      assert r == q + [p];
      var k := StoreOverRuns(q, max);
      n := SaveKeepsPrefix(InForce(q), k, p, max);
      InForceSnoc(q, p);
      InForceIsLast(q);
      DistinctNames(q, InForce(q));
      CountStep(InForce(q), k, p, max, n, Forgotten(q));
      if |Names(r)| <= Kept(max) + 1 {
        NamesGrow(q, p);
        OthersFit(q, p.name, Names(r));
      }
    }
    InForceIsLast(r);
    LastFirstPrefix(r, InForce(r), n);
    if forall i :: 0 <= i < |r| ==> !Forgets(r[i]) {
      NothingForgotten(r);
    }
  }

  lemma NamesGrow(q: seq<Position>, p: Position)
    ensures Names(q + [p]) == Names(q) + {p.name} && |Names(q)| <= |Names(q + [p])|
  {
    var r := q + [p];
    assert p in r && forall x :: x in q ==> x in r;
    assert forall x :: x in r ==> x in q || x == p;
    Smaller(Names(q), Names(r));
  }

  lemma {:induction false} Smaller(a: set<string>, b: set<string>)
    requires a <= b
    ensures |a| <= |b|
    decreases |a|
  {
    if x :| x in a {
      Smaller(a - {x}, b - {x});
    }
  }

  lemma LastFirstPrefix(r: seq<Position>, ps: seq<Position>, n: nat)
    requires LastFirst(r, ps) && n <= |ps|
    ensures LastFirst(r, ps[..n])
  {
    hide IsLast, LastCall;
  }

  /** The other names in force are fewer than all names of the run. */
  lemma OthersFit(q: seq<Position>, name: string, names: set<string>)
    requires Names(q) + {name} == names
    ensures |Without(InForce(q), name)| <= |names| - 1
  {
    hide LastFirst, IsLast, InForce;
    InForceIsLast(q);
    InForceFrom(q);
    var w := Without(InForce(q), name);
    WithoutSome(InForce(q), name);
    WithoutOrder(q, InForce(q), name);
    DistinctNames(q, w);
    forall i | 0 <= i < |w| ensures w[i].name in names - {name} {
      assert w[i] in w;
      assert w[i] in q;
    }
    DistinctLength(w, names - {name});
  }

  lemma DistinctNames(r: seq<Position>, ps: seq<Position>)
    requires LastFirst(r, ps)
    ensures DistinctPositions(ps)
  {
    hide LastCall, IsLast;
  }

  /** Lines of other names change nothing. */
  lemma {:induction false} ReadOthers(ps: seq<Position>, name: string, wanted: bool, r: Loaded)
    requires AllValid(ps) && forall i :: 0 <= i < |ps| ==> ps[i].name != name
    ensures ReadLines(Lines(ps), name, wanted, r) == r
    decreases |ps|
  {
    hide Record, ReadLine, Valid;
    if ps != [] {
      var more := ps[1..];
      assert forall i :: 0 <= i < |more| ==> more[i] == ps[i + 1];
      RecordRead(ps[0], name, wanted, r);
      assert Lines(ps)[1..] == Lines(more);
      ReadOthers(more, name, wanted, r);
    }
  }

  lemma {:induction false} ReadFound(ps: seq<Position>, k: nat, wanted: bool)
    requires AllValid(ps) && k < |ps|
    requires forall i, j :: 0 <= i < j < |ps| ==> ps[i].name != ps[j].name
    ensures ReadLines(Lines(ps), ps[k].name, wanted, DEFAULTS) == Restored(ps[k], wanted)
    decreases |ps|
  {
    hide Record, ReadLine, Valid;
    var more := ps[1..];
    assert forall i :: 0 <= i < |more| ==> more[i] == ps[i + 1];
    RecordRead(ps[0], ps[k].name, wanted, DEFAULTS);
    assert Lines(ps)[1..] == Lines(more);
    if k == 0 {
      ReadOthers(more, ps[0].name, wanted, Restored(ps[0], wanted));
    } else {
      assert ps[0].name != ps[k].name;
      ReadFound(more, k - 1, wanted);
    }
  }

  /** Loading after any run: a name with a record gives the values of its last call, every other name
      gives the values of a new file. */
  lemma LoadOverRuns(r: seq<Position>, max: nat, name: string, wanted: bool) returns (n: nat)
    requires AllValid(r)
    ensures n <= |InForce(r)| && AllValid(InForce(r)[..n])
    ensures Store(r, max) == Some(Lines(InForce(r)[..n]))
    ensures if exists i :: 0 <= i < n && InForce(r)[i].name == name then
              && LastCall(r, name) >= 0
              && LoadedFrom(Store(r, max), name, wanted) == Restored(r[LastCall(r, name)], wanted)
            else LoadedFrom(Store(r, max), name, wanted) == DEFAULTS
  {
    hide Valid, InForce, Store, Lines, LastCall, ReadLines, Restored;
    n := StoreOverRuns(r, max);
    var ps := InForce(r)[..n];
    DistinctNames(r, ps);
    if i :| 0 <= i < n && InForce(r)[i].name == name {
      assert IsLast(r, ps[i]);
      ReadFound(ps, i, wanted);
    } else {
      assert forall i :: 0 <= i < n ==> ps[i] == InForce(r)[i];
      ReadOthers(ps, name, wanted, DEFAULTS);
    }
  }

  /** With no more names than fit, every name comes back with the values of its last call, whatever
      was saved in between. */
  lemma NothingLost(r: seq<Position>, max: nat, name: string, wanted: bool)
    requires AllValid(r) && |Names(r)| <= Kept(max) + 1
    ensures var k := LastCall(r, name);
            LoadedFrom(Store(r, max), name, wanted) ==
            if k >= 0 && !Forgets(r[k]) then Restored(r[k], wanted) else DEFAULTS
  {
    hide Valid, InForce, Store, Lines, LastCall, ReadLines, Restored, Forgets, LastFirst;
    var n := StoreOverRuns(r, max);
    InForceIsLast(r);
    var ps := InForce(r);
    assert ps[..n] == ps;
    DistinctNames(r, ps);
    var k := LastCall(r, name);
    if k >= 0 && !Forgets(r[k]) {
      assert IsLast(r, r[k]);
      var i :| 0 <= i < |ps| && ps[i] == r[k];
      ReadFound(ps, i, wanted);
    } else {
      forall i | 0 <= i < |ps| ensures ps[i].name != name {
        assert ps[i] in ps;
        assert IsLast(r, ps[i]);
      }
      ReadOthers(ps, name, wanted, DEFAULTS);
    }
  }

  // ---------------------------------------------------------------- one call on any file

  lemma {:induction false} OthersMatchNone(lines: seq<string>, name: string)
    ensures forall i :: 0 <= i < |Others(lines, name)| ==> !Matches(name, Others(lines, name)[i])
    decreases |lines|
  {
    hide Matches;
    if lines != [] {
      OthersMatchNone(lines[1..], name);
    }
  }

  lemma {:induction false} ReadNothing(lines: seq<string>, name: string, wanted: bool, r: Loaded)
    requires forall i :: 0 <= i < |lines| ==> !Matches(name, lines[i])
    ensures ReadLines(lines, name, wanted, r) == r
    decreases |lines|
  {
    hide Matches;
    if lines != [] {
      var more := lines[1..];
      assert forall i :: 0 <= i < |more| ==> more[i] == lines[i + 1];
      ReadNothing(more, name, wanted, r);
    }
  }

  lemma ReadFirst(line: string, lines: seq<string>, name: string, wanted: bool, r: Loaded)
    ensures ReadLines([line] + lines, name, wanted, r)
            == ReadLines(lines, name, wanted, ReadLine(line, name, wanted, r))
  {
    hide ReadLine;
    assert ([line] + lines)[1..] == lines;
  }

  /** A call followed by loading, on any file: the values come back unless the call forgets the name
      or the file was missing, and then those of a new file do. */
  lemma SaveThenLoad(file: Option<seq<string>>, p: Position, max: nat, wanted: bool)
    requires Valid(p)
    ensures LoadedFrom(Saved(file, p, max), p.name, wanted) ==
            if file.None? || Forgets(p) then DEFAULTS else Restored(p, wanted)
  {
    hide Record, ReadLine, Others, Forgets, Restored, Matches, Valid, Kept;
    if file.Some? {
      var rest := Take(Others(file.value, p.name), Kept(max));
      OthersMatchNone(file.value, p.name);
      if Forgets(p) {
        assert [] + rest == rest;
        ReadNothing(rest, p.name, wanted, DEFAULTS);
      } else {
        ReadFirst(Record(p), rest, p.name, wanted, DEFAULTS);
        RecordRead(p, p.name, wanted, DEFAULTS);
        ReadNothing(rest, p.name, wanted, Restored(p, wanted));
      }
    }
  }

  /** So a position is stored exactly if the file exists, or if there is nothing to store. */
  lemma StoredIff(file: Option<seq<string>>, p: Position, max: nat, wanted: bool)
    requires Valid(p) && !Forgets(p)
    ensures LoadedFrom(Saved(file, p, max), p.name, wanted) == Restored(p, wanted)
            <==> file.Some? || Restored(p, wanted) == DEFAULTS
  {
    hide LoadedFrom, Saved, Restored, Forgets, Valid;
    SaveThenLoad(file, p, max, wanted);
  }

  /** On a file that exists, line and column always come back. What is asked for comes back too, unless
      there was nothing but an offset to record. */
  lemma PositionComesBack(lines: seq<string>, p: Position, max: nat, wanted: bool)
    requires Valid(p)
    ensures var r := LoadedFrom(Saved(Some(lines), p, max), p.name, wanted);
            && r.line == p.line && r.column == p.column
            && (wanted && (p.line != 1 || p.column != 0 || p.bookmarks.Some?) ==>
                  && r.offset == (if p.offset < 0 then 0x7FFF_FFFF_FFFF_FFFF else p.offset)
                  && r.bookmarks == (if p.bookmarks.None? then []
                                     else if |p.bookmarks.value| > 10 then p.bookmarks.value[..10]
                                     else p.bookmarks.value))
  {
    hide LoadedFrom, Saved, Valid;
    SaveThenLoad(Some(lines), p, max, wanted);
  }

  /** The new file has a line for the name exactly if there was more than an offset to record. */
  lemma RecordedIff(lines: seq<string>, p: Position, max: nat)
    requires Valid(p)
    ensures (exists line :: line in Saved(Some(lines), p, max).value && Matches(p.name, line))
            <==> p.line != 1 || p.column != 0 || p.bookmarks.Some?
  {
    hide Record, Others, Matches, Valid, Kept;
    var rest := Take(Others(lines, p.name), Kept(max));
    OthersMatchNone(lines, p.name);
    if p.line != 1 || p.column != 0 || p.bookmarks.Some? {
      RecordMatches(p, p.name);
      assert Record(p) in Saved(Some(lines), p, max).value;
    } else {
      assert [] + rest == rest;
    }
  }

  /** The text of a record, as lib/util.c prints it. */
  lemma RecordsPrinted()
    ensures Record(Position("f", 1, 5, 40, None)) == "f 1;5;40\n"
    ensures Record(Position("a b", -2, 13, 0, Some([7, 0]))) == "a b -2;13;0;7;0\n"
  {
    SmallNumbers();
    hide Digits, Signed;
    assert BookmarksText([0]) == ";0" + BookmarksText([0][1..]);
    assert BookmarksText([7, 0]) == ";7" + BookmarksText([7, 0][1..]);
    assert Body(Position("f", 1, 5, 40, None)) == "1;5;40\n";
    assert Body(Position("a b", -2, 13, 0, Some([7, 0]))) == "-2;13;0;7;0\n";
  }

  lemma SmallNumbers()
    ensures Signed(1) == "1" && Signed(5) == "5" && Signed(-2) == "-2" && Signed(13) == "13"
    ensures Digits(0) == "0" && Digits(7) == "7" && Digits(40) == "40"
  {
    assert Digits(1) == "1" && Digits(2) == "2" && Digits(5) == "5";
    assert Digits(13) == "13" && Digits(40) == "40";
  }

  /** A line may end early: what it lacks has the value of a new file. */
  lemma ShortLine(name: string, line: int, column: int, wanted: bool)
    requires IsLong(line) && IsLong(column)
    ensures ReadLine(name + " ", name, wanted, DEFAULTS) == Loaded(1, 0, 0, [])
    ensures ReadLine(name + " " + (Signed(line) + "\n"), name, wanted, DEFAULTS) == Loaded(line, 0, 0, [])
    ensures ReadLine(name + " " + (Signed(line) + (";" + (Signed(column) + "\n"))), name, wanted, DEFAULTS)
            == Loaded(line, column, 0, [])
  {
    hide Signed, StrToL, SplitUpTo, Matches;
    SignedPlain(line);
    SignedPlain(column);
    var l, c := Signed(line), Signed(column);
    SplitStep(l + "\n", "", 13);
    SplitStep(c + "\n", "", 12);
    SplitStep(l, c + "\n", 13);
    StrToLSigned(line, "\n");
    StrToLSigned(line, "");
    assert l + "" == l;
    StrToLSigned(column, "\n");
    FieldsOf(name, "");
    FieldsOf(name, l + "\n");
    FieldsOf(name, l + (";" + (c + "\n")));
  }

  lemma FieldsOf(name: string, fields: string)
    requires ' ' !in fields
    ensures Matches(name, name + " " + fields) && (name + " " + fields)[|name| + 1..] == fields
  {
    var line := name + " " + fields;
    assert line[..|name|] == name && line[|name| + 1..] == fields;
  }

  /** A line belongs to one name at most. */
  lemma OneName(line: string, name: string, other: string)
    requires Matches(name, line) && Matches(other, line)
    ensures name == other
  {
    MatchedAt(name, line);
    MatchedAt(other, line);
  }

  lemma {:induction false} OthersRead(lines: seq<string>, name: string, other: string, wanted: bool, r: Loaded)
    requires name != other
    ensures ReadLines(Others(lines, name), other, wanted, r) == ReadLines(lines, other, wanted, r)
    decreases |lines|
  {
    hide Matches, ReadFields, Tokens;
    if lines != [] {
      var x, more := lines[0], lines[1..];
      assert lines == [x] + more;
      ReadFirst(x, more, other, wanted, r);
      OthersRead(more, name, other, wanted, ReadLine(x, other, wanted, r));
      if Matches(name, x) {
        if Matches(other, x) {
          OneName(x, name, other);
        }
        assert [] + Others(more, name) == Others(more, name);
      } else {
        ReadFirst(x, Others(more, name), other, wanted, r);
      }
    }
  }

  /** What is loaded for another name stays as it was when all old lines are kept. */
  lemma OtherNamesStay(lines: seq<string>, p: Position, max: nat, name: string, wanted: bool)
    requires Valid(p) && name != p.name && |Others(lines, p.name)| <= Kept(max)
    ensures LoadedFrom(Saved(Some(lines), p, max), name, wanted) == LoadedFrom(Some(lines), name, wanted)
  {
    hide Record, ReadLine, Others, Forgets, Matches, Valid, Kept;
    var rest := Others(lines, p.name);
    OthersRead(lines, p.name, name, wanted, DEFAULTS);
    if Forgets(p) {
      assert [] + rest == rest;
    } else {
      ReadFirst(Record(p), rest, name, wanted, DEFAULTS);
      RecordRead(p, name, wanted, DEFAULTS);
    }
  }

  /** The limit is exceeded, by one record, exactly if a record is added to as many others. */
  lemma LimitExceeded(lines: seq<string>, p: Position, max: nat)
    requires Valid(p)
    ensures max > 0 ==>
              (|Saved(Some(lines), p, max).value| > max <==> !Forgets(p) && |Others(lines, p.name)| >= max)
    ensures var limit, others := if max == 0 then 1 else max, |Others(lines, p.name)|;
            |Saved(Some(lines), p, max).value| ==
            (if p.line != 1 || p.column != 0 || p.bookmarks.Some? then 1 else 0)
            + if others < limit then others else limit
  {
    hide Record, Others, Valid;
  }
}
