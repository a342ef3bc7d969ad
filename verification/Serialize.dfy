/**
 lib/serialize.c: strings and configurations written as one line of text, and the automaton
 that reads them back.
 */
module Serialize {
  import opened Options
  import opened Decimal
  import opened Sequences

  const DELIM: char := ':'
  const BUF_TINY := 64
  const SIZE_RANGE := 0x1_0000_0000_0000_0000

  datatype StrError =
    | NullOrEmpty
    | WrongPrefix
    | NoDelimiter
    | LengthTooLong
    | LengthExceedsData(wanted: nat, actual: nat)

  datatype Result<+T, +E> = Ok(value: T) | Err(error: E)

  /** A group of keys with their values, in the order of their first appearance. */
  datatype Group = Group(name: string, params: seq<(string, string)>)

  type Config = seq<Group>

  datatype ConfigError = ConfigError(position: nat, cause: StrError)

  // ---------------------------------------------------------------- one string

  /** mc_serialize_str on a string; without one it fails. */
  function SerializeStr(prefix: char, data: Option<string>): Option<string>
  {
    match data
    case None => None
    case Some(t) => Some(Token(prefix, t))
  }

  function Token(prefix: char, t: string): string
  {
    [prefix] + Digits(|t|) + [DELIM] + t
  }

  /** strchr: the first delimiter, or the length of the text. */
  function DelimAt(s: string): (k: nat)
    ensures k <= |s| && (forall i :: 0 <= i < k ==> s[i] != DELIM) && (k < |s| ==> s[k] == DELIM)
  {
    if s == "" || s[0] == DELIM then 0 else 1 + DelimAt(s[1..])
  }

  /** A long, as size_t. */
  function ToSize(n: int): nat
    requires IsLong(n)
  {
    if n < 0 then n + SIZE_RANGE else n
  }

  /** mc_deserialize_str */
  function DeserializeStr(prefix: char, data: string): Result<string, StrError>
  {
    if data == "" then Err(NullOrEmpty)
    else if data[0] != prefix then Err(WrongPrefix)
    else
      var k := DelimAt(data[1..]);
      if k == |data| - 1 then Err(NoDelimiter)
      else if k >= BUF_TINY then Err(LengthTooLong)
      else
        var len := ToSize(StrToL(data[1..k + 1]));
        var rest := data[k + 2..];
        if len > |rest| then Err(LengthExceedsData(len, |rest|)) else Ok(rest[..len])
  }

  /** go_to_end_of_serialized_string: the length of the token, or None when nothing follows it. */
  function NextToken(data: string, part: string): Option<nat>
    requires data != ""
  {
    var offset := DelimAt(data[1..]) + 2 + |part|;
    if offset >= |data| then None else Some(offset)
  }

  // ---------------------------------------------------------------- configurations

  function SetParam(ps: seq<(string, string)>, key: string, value: string): seq<(string, string)>
  {
    if ps == [] then [(key, value)]
    else if ps[0].0 == key then [(key, value)] + ps[1..]
    else [ps[0]] + SetParam(ps[1..], key, value)
  }

  /** mc_config_set_string: a new group or key goes to the end, a known key gets the new value. */
  function SetString(c: Config, group: string, key: string, value: string): Config
  {
    if c == [] then [Group(group, [(key, value)])]
    else if c[0].name == group then [Group(group, SetParam(c[0].params, key, value))] + c[1..]
    else [c[0]] + SetString(c[1..], group, key, value)
  }

  function ParamsText(ps: seq<(string, string)>): string
  {
    if ps == [] then "" else Token('p', ps[0].0) + Token('v', ps[0].1) + ParamsText(ps[1..])
  }

  function ConfigText(c: Config): string
  {
    if c == [] then "" else Token('g', c[0].name) + ParamsText(c[0].params) + ConfigText(c[1..])
  }

  /** mc_serialize_config. A configuration has no missing texts, so no token fails. */
  method SerializeConfig(c: Config) returns (buffer: string)
    ensures buffer == ConfigText(c)
  {
    hide Token;
    buffer := "";
    var i := 0;
    assert c[0..] == c;
    while i < |c|
      invariant 0 <= i <= |c| && buffer + ConfigText(c[i..]) == ConfigText(c)
    {
      var g := c[i];
      ghost var after := ConfigText(c[i + 1..]);
      assert c[i..][1..] == c[i + 1..];
      Assoc(buffer, Token('g', g.name), ParamsText(g.params) + after);
      Assoc(Token('g', g.name), ParamsText(g.params), after);
      buffer := buffer + SerializeStr('g', Some(g.name)).value;
      var j := 0;
      assert g.params[0..] == g.params;
      while j < |g.params|
        invariant 0 <= j <= |g.params|
        invariant buffer + (ParamsText(g.params[j..]) + after) == ConfigText(c)
      {
        var p := g.params[j];
        ghost var more := ParamsText(g.params[j + 1..]);
        assert g.params[j..][1..] == g.params[j + 1..];
        Assoc(Token('p', p.0) + Token('v', p.1), more, after);
        Assoc(buffer, Token('p', p.0) + Token('v', p.1), more + after);
        Assoc(buffer, Token('p', p.0), Token('v', p.1));
        buffer := buffer + SerializeStr('p', Some(p.0)).value;
        buffer := buffer + SerializeStr('v', Some(p.1)).value;
        j := j + 1;
      }
      assert "" + after == after;
      i := i + 1;
    }
  }

  datatype Status = WaitGroup | WaitParam | WaitValue

  /** A parameter may follow a value directly: its group is still the current one. */
  function Adjusted(st: Status, data: string, group: Option<string>): Status
  {
    if st.WaitGroup? && data != "" && data[0] == 'p' && group.Some? then WaitParam else st
  }

  function Wanted(st: Status): char
  {
    match st
    case WaitGroup => 'g'
    case WaitParam => 'p'
    case WaitValue => 'v'
  }

  /** The automaton on the rest of the text, which starts at offset pos. */
  function Automaton(data: string, pos: nat, st: Status, group: Option<string>, param: string, c: Config)
    : Result<Config, ConfigError>
    requires st != WaitGroup ==> group.Some?
    decreases |data|
  {
    var now := Adjusted(st, data, group);
    match DeserializeStr(Wanted(now), data)
    case Err(e) => Err(ConfigError(pos + 1, e))
    case Ok(t) =>
      var c' := if now.WaitValue? then SetString(c, group.value, param, t) else c;
      match NextToken(data, t)
      case None => Ok(c')
      case Some(n) =>
        match now
        case WaitGroup => Automaton(data[n..], pos + n, WaitParam, Some(t), param, c')
        case WaitParam => Automaton(data[n..], pos + n, WaitValue, group, t, c')
        case WaitValue => Automaton(data[n..], pos + n, WaitGroup, group, param, c')
  }

  /** mc_deserialize_config. The position of an error counts from 1. */
  method DeserializeConfig(input: Option<string>) returns (r: Result<Config, ConfigError>)
    ensures input.None? ==> r == Ok([])
    ensures input.Some? ==> r == Automaton(input.value, 0, WaitGroup, None, "", [])
  {
    hide DeserializeStr, NextToken, SetString;
    var c: Config := [];
    if input.None? {
      return Ok(c);
    }
    var data, currentPosition: nat, status := input.value, 0, WaitGroup;
    var group: Option<string>, param := None, "";
    while true
      invariant status != WaitGroup ==> group.Some?
      invariant Automaton(data, currentPosition, status, group, param, c)
             == Automaton(input.value, 0, WaitGroup, None, "", [])
      decreases |data|
    {
      NextShorter(data);
      if status.WaitGroup? && data != "" && data[0] == 'p' && group.Some? {
        status := WaitParam;
      }
      var text := DeserializeStr(Wanted(status), data);
      if text.Err? {
        return Err(ConfigError(currentPosition + 1, text.error));
      }
      match status {
        case WaitGroup =>
          group, status := Some(text.value), WaitParam;
        case WaitParam =>
          param, status := text.value, WaitValue;
        case WaitValue =>
          c := SetString(c, group.value, param, text.value);
          status := WaitGroup;
      }
      OkNonempty(data);
      var next := NextToken(data, text.value);
      if next.None? {
        return Ok(c);
      }
      data, currentPosition := data[next.value..], currentPosition + next.value;
    }
  }

  lemma NextShorter(data: string)
    ensures data != "" ==> forall t {:trigger NextToken(data, t)} ::
              NextToken(data, t).Some? ==> 2 <= NextToken(data, t).value < |data|
  {
  }

  lemma OkNonempty(data: string)
    ensures forall p {:trigger DeserializeStr(p, data)} :: DeserializeStr(p, data).Ok? ==> data != ""
  {
  }

  // ---------------------------------------------------------------- round trip of one string

  /** Sizes that a C object can have. */
  predicate Fits(t: string)
  {
    |t| <= LONG_MAX
  }

  lemma {:induction false} DelimAfter(ds: string, rest: string)
    requires forall i :: 0 <= i < |ds| ==> ds[i] != DELIM
    ensures DelimAt(ds + ([DELIM] + rest)) == |ds|
    decreases |ds|
  {
    var s := ds + ([DELIM] + rest);
    if ds != "" {
      DelimAfter(ds[1..], rest);
      assert s[1..] == ds[1..] + ([DELIM] + rest);
    }
  }

  lemma LengthIsShort(n: nat)
    requires n <= LONG_MAX
    ensures |Digits(n)| < BUF_TINY
  {
    hide Digits;
    assert Pow10(5) == 100000 by {
      assert Pow10(2) == 100 && Pow10(3) == 1000 && Pow10(4) == 10000;
    }
    assert Pow10(10) == 10000000000 by {
      assert Pow10(7) == 10000000 && Pow10(8) == 100000000 && Pow10(9) == 1000000000;
    }
    assert Pow10(15) == 1000000000000000 by {
      assert Pow10(12) == 1000000000000 && Pow10(13) == 10000000000000 && Pow10(14) == 100000000000000;
    }
    assert Pow10(19) == 10000000000000000000 by {
      assert Pow10(17) == 100000000000000000 && Pow10(18) == 1000000000000000000;
    }
    DigitsLength(n, 19);
  }

  lemma TokenParts(prefix: char, t: string, rest: string)
    ensures var s, k := Token(prefix, t) + rest, |Digits(|t|)|;
            s != "" && s[0] == prefix && |s| == k + 2 + |t| + |rest|
            && s[1..] == Digits(|t|) + ([DELIM] + (t + rest))
            && s[1..k + 1] == Digits(|t|) && s[k + 2..] == t + rest
  {
    hide Digits;
    var ds := Digits(|t|);
    var s := Token(prefix, t) + rest;
    assert s == [prefix] + (ds + ([DELIM] + (t + rest)));
    assert s[1..] == ds + ([DELIM] + (t + rest));
    assert s[1..][..|ds|] == ds;
    assert s[|ds| + 2..] == s[1..][|ds| + 1..];
  }

  /** A token is read back, whatever follows it, and the reader then stands behind it. */
  lemma TokenRead(prefix: char, t: string, rest: string)
    requires Fits(t)
    ensures var s := Token(prefix, t) + rest;
            DeserializeStr(prefix, s) == Ok(t)
            && NextToken(s, t) == if rest == "" then None else Some(|Token(prefix, t)|)
    ensures (Token(prefix, t) + rest)[|Token(prefix, t)|..] == rest
  {
    hide Digits, StrToL, Token, DelimAt;
    var s, ds := Token(prefix, t) + rest, Digits(|t|);
    TokenParts(prefix, t, rest);
    TokenParts(prefix, t, "");
    assert Token(prefix, t) + "" == Token(prefix, t);
    NumberDigits(|t|);
    DelimAfter(ds, t + rest);
    LengthIsShort(|t|);
    StrToLSigned(|t|, "");
    assert ds + "" == ds;
    assert (t + rest)[..|t|] == t;
  }

  /** A string is serialized unless it is missing, and what is written is read back. */
  lemma StrRoundTrip(prefix: char, data: Option<string>)
    requires data.Some? ==> Fits(data.value)
    ensures SerializeStr(prefix, data).Some? <==> data.Some?
    ensures data.Some? ==> DeserializeStr(prefix, SerializeStr(prefix, data).value) == Ok(data.value)
  {
    hide Token, DeserializeStr, NextToken;
    if data.Some? {
      TokenRead(prefix, data.value, "");
      assert Token(prefix, data.value) + "" == Token(prefix, data.value);
    }
  }

  /** What becomes of any text: nothing between the prefix and the first colon matters but the number it
      stands for, as the text after the colon is cut to that length. */
  lemma StrAnswers(prefix: char, c: char, x: string, t: string)
    requires ':' !in x
    ensures DeserializeStr(prefix, "") == Err(NullOrEmpty)
    ensures c != prefix ==> DeserializeStr(prefix, [c] + x) == Err(WrongPrefix)
    ensures DeserializeStr(prefix, [prefix] + x) == Err(NoDelimiter)
    ensures var data, n := [prefix] + x + ":" + t, StrToL(x);
            DeserializeStr(prefix, data) ==
            if |x| >= 64 then Err(LengthTooLong)
            else if n < 0 then
              (if n + 0x1_0000_0000_0000_0000 > |t|
               then Err(LengthExceedsData((n + 0x1_0000_0000_0000_0000) as nat, |t|))
               else Ok(t[..n + 0x1_0000_0000_0000_0000]))
            else if n > |t| then Err(LengthExceedsData(n as nat, |t|)) else Ok(t[..n])
  {
    hide StrToL, DelimAt;
    var data := [prefix] + x + ":" + t;
    assert data[1..] == x + ([DELIM] + t);
    DelimAfter(x, t);
    assert data[1..|x| + 1] == x && data[|x| + 2..] == t;
    assert ([c] + x)[1..] == x && ([prefix] + x)[1..] == x;
    NoDelim(x);
  }

  lemma {:induction false} NoDelim(x: string)
    requires DELIM !in x
    ensures DelimAt(x) == |x|
    decreases |x|
  {
    if x != "" {
      assert x[0] in x && forall c :: c in x[1..] ==> c in x;
      NoDelim(x[1..]);
    }
  }

  lemma TokenStarts(prefix: char, t: string, rest: string)
    ensures Token(prefix, t) + rest != "" && (Token(prefix, t) + rest)[0] == prefix
  {
  }

  // ---------------------------------------------------------------- round trip of a configuration

  predicate DistinctKeys(ps: seq<(string, string)>)
  {
    forall i, j :: 0 <= i < j < |ps| ==> ps[i].0 != ps[j].0
  }

  /** A configuration: every name and key once, and nothing larger than an object can be. */
  predicate ValidConfig(c: Config)
  {
    && (forall i, j :: 0 <= i < j < |c| ==> c[i].name != c[j].name)
    && (forall i :: 0 <= i < |c| ==> ValidGroup(c[i]))
  }

  predicate ValidGroup(g: Group)
  {
    && Fits(g.name) && DistinctKeys(g.params)
    && forall i :: 0 <= i < |g.params| ==> Fits(g.params[i].0) && Fits(g.params[i].1)
  }

  function SetAll(c: Config, group: string, ps: seq<(string, string)>): Config
    decreases |ps|
  {
    if ps == [] then c else SetAll(SetString(c, group, ps[0].0, ps[0].1), group, ps[1..])
  }

  /** Where a parameter may stand, a key and its value are read and set. */
  lemma ParamRead(
      key: string, value: string, more: string, pos: nat, st: Status, group: string, param: string, c: Config)
    requires st != WaitValue && Fits(key) && Fits(value)
    ensures Automaton(Token('p', key) + (Token('v', value) + more), pos, st, Some(group), param, c)
            == if more == "" then Ok(SetString(c, group, key, value))
               else Automaton(more, pos + |Token('p', key)| + |Token('v', value)|, WaitGroup, Some(group), key,
                              SetString(c, group, key, value))
  {
    hide Token, DeserializeStr, NextToken, SetString, Fits;
    var tp, tv := Token('p', key), Token('v', value);
    TokenRead('p', key, tv + more);
    TokenStarts('p', key, tv + more);
    TokenStarts('v', value, more);
    TokenRead('v', value, more);
    assert Automaton(tp + (tv + more), pos, st, Some(group), param, c)
        == Automaton(tv + more, pos + |tp|, WaitValue, Some(group), key, c);
  }

  lemma ParamsStep(ps: seq<(string, string)>, rest: string)
    requires ps != []
    ensures ParamsText(ps) + rest == Token('p', ps[0].0) + (Token('v', ps[0].1) + (ParamsText(ps[1..]) + rest))
    ensures |ParamsText(ps)| == |Token('p', ps[0].0)| + |Token('v', ps[0].1)| + |ParamsText(ps[1..])|
  {
    hide Token;
    var tp, tv, tail := Token('p', ps[0].0), Token('v', ps[0].1), ParamsText(ps[1..]);
    assert ParamsText(ps) == tp + tv + tail;
    hide ParamsText;
    Assoc(tp + tv, tail, rest);
    Assoc(tp, tv, tail + rest);
  }

  /** The automaton reads the parameters of a group into it. */
  lemma {:induction false} ReadParams(ps: seq<(string, string)>, rest: string, pos: nat, st: Status, group: string,
                                      param: string, c: Config) returns (last: string)
    requires ps != [] && st != WaitValue
    requires forall i :: 0 <= i < |ps| ==> Fits(ps[i].0) && Fits(ps[i].1)
    ensures Automaton(ParamsText(ps) + rest, pos, st, Some(group), param, c)
            == if rest == "" then Ok(SetAll(c, group, ps))
               else Automaton(rest, pos + |ParamsText(ps)|, WaitGroup, Some(group), last, SetAll(c, group, ps))
    decreases |ps|
  {
    hide Token, DeserializeStr, NextToken, SetString, Automaton, Fits, ParamsText;
    var key, value, more := ps[0].0, ps[0].1, ParamsText(ps[1..]) + rest;
    ParamsStep(ps, rest);
    ParamRead(key, value, more, pos, st, group, param, c);
    last := key;
    if |ps| > 1 {
      ParamsNonempty(ps[1..], rest);
      last := ReadParams(ps[1..], rest, pos + |Token('p', key)| + |Token('v', value)|, WaitGroup, group, key,
                         SetString(c, group, key, value));
    } else {
      EmptyText();
      assert ps[1..] == [];
      assert more == rest;
    }
  }

  lemma ParamsNonempty(ps: seq<(string, string)>, rest: string)
    requires ps != []
    ensures ParamsText(ps) + rest != ""
  {
  }

  lemma {:induction false} SetParamAppends(ps: seq<(string, string)>, key: string, value: string)
    requires forall i :: 0 <= i < |ps| ==> ps[i].0 != key
    ensures SetParam(ps, key, value) == ps + [(key, value)]
    decreases |ps|
  {
    if ps != [] {
      assert ps[0].0 != key;
      SetParamAppends(ps[1..], key, value);
      assert ps == [ps[0]] + ps[1..];
    }
  }

  lemma {:induction false} SetStringLast(
      c: Config, group: string, ps: seq<(string, string)>, key: string, value: string)
    requires forall i :: 0 <= i < |c| ==> c[i].name != group
    requires forall i :: 0 <= i < |ps| ==> ps[i].0 != key
    ensures SetString(c + if ps == [] then [] else [Group(group, ps)], group, key, value)
            == c + [Group(group, ps + [(key, value)])]
    decreases |c|
  {
    SetParamAppends(ps, key, value);
    var d := c + if ps == [] then [] else [Group(group, ps)];
    if c == [] {
      assert ps != [] ==> d[1..] == [];
    } else {
      assert c[0].name != group;
      SetStringLast(c[1..], group, ps, key, value);
      assert d[1..] == c[1..] + if ps == [] then [] else [Group(group, ps)];
      assert c + [Group(group, ps + [(key, value)])] == [c[0]] + (c[1..] + [Group(group, ps + [(key, value)])]);
    }
  }

  /** Parameters with distinct keys make up a new group at the end. */
  lemma {:induction false} SetAllAppends(
      c: Config, group: string, done: seq<(string, string)>, ps: seq<(string, string)>)
    requires DistinctKeys(done + ps) && forall i :: 0 <= i < |c| ==> c[i].name != group
    ensures SetAll(c + if done == [] then [] else [Group(group, done)], group, ps)
            == c + if done + ps == [] then [] else [Group(group, done + ps)]
    decreases |ps|
  {
    if ps == [] {
      assert done + ps == done;
    } else {
      var all := done + ps;
      forall i | 0 <= i < |done| ensures done[i].0 != ps[0].0 {
        assert all[i] == done[i] && all[|done|] == ps[0];
      }
      SetStringLast(c, group, done, ps[0].0, ps[0].1);
      var d := done + [(ps[0].0, ps[0].1)];
      assert d + ps[1..] == all;
      SetAllAppends(c, group, d, ps[1..]);
    }
  }

  lemma ConfigStarts(c: Config)
    requires c != []
    ensures ConfigText(c) != "" && ConfigText(c)[0] == 'g'
  {
  }

  /** A group without keys is lost: the text ends after it, or a group stands where a key has to. */
  lemma EmptyGroupFails(cs: Config, pos: nat, group: Option<string>, param: string, c: Config)
    requires cs != [] && ValidConfig(c + cs) && cs[0].params == []
    ensures Automaton(ConfigText(cs), pos, WaitGroup, group, param, c) != Ok(c + cs)
  {
    hide *;
    var g, rest := cs[0], cs[1..];
    var tail := ConfigText(rest);
    FirstOf(c, cs);
    TextOf(cs);
    EmptyText();
    assert "" + tail == tail;
    GroupRead(g.name, tail, pos, group, param, c);
    if rest == [] {
      assert c + cs != c;
    } else {
      ConfigStarts(rest);
      WrongStart(tail, pos + |Token('g', g.name)|, g.name, param, c);
    }
  }

  /** A group with keys is read and added at the end. */
  lemma FullGroupRead(cs: Config, pos: nat, group: Option<string>, param: string, c: Config) returns (last: string)
    requires cs != [] && ValidConfig(c + cs) && cs[0].params != []
    ensures var after := pos + |Token('g', cs[0].name)| + |ParamsText(cs[0].params)|;
            Automaton(ConfigText(cs), pos, WaitGroup, group, param, c)
            == if cs[1..] == [] then Ok(c + [cs[0]])
               else Automaton(ConfigText(cs[1..]), after, WaitGroup, Some(cs[0].name), last, c + [cs[0]])
  {
    hide Token, DeserializeStr, NextToken, SetString, SetAll, ConfigText, Automaton;
    hide ParamsText, ValidConfig, DistinctKeys;
    var g, rest := cs[0], cs[1..];
    var text, tail := ParamsText(g.params), ConfigText(rest);
    FirstOf(c, cs);
    TextOf(cs);
    ParamsNonempty(g.params, tail);
    GroupRead(g.name, text + tail, pos, group, param, c);
    var p := pos + |Token('g', g.name)|;
    last := ReadParams(g.params, tail, p, WaitParam, g.name, param, c);
    assert [] + g.params == g.params && c + [] == c;
    SetAllAppends(c, g.name, [], g.params);
    assert Group(g.name, g.params) == g;
    if rest == [] {
      EmptyText();
    } else {
      ConfigStarts(rest);
    }
  }

  /** The automaton adds the groups of a written configuration to those read before exactly when none
      of them is empty. */
  lemma {:induction false} ReadGroups(cs: Config, pos: nat, group: Option<string>, param: string, c: Config)
    requires cs != [] && ValidConfig(c + cs)
    ensures Automaton(ConfigText(cs), pos, WaitGroup, group, param, c) == Ok(c + cs)
            <==> forall i :: 0 <= i < |cs| ==> cs[i].params != []
    decreases |cs|
  {
    hide *;
    var g, rest := cs[0], cs[1..];
    if g.params == [] {
      EmptyGroupFails(cs, pos, group, param, c);
    } else {
      var last := FullGroupRead(cs, pos, group, param, c);
      assert c + [g] + rest == c + cs;
      FirstOf(c, cs);
      if rest == [] {
        assert cs == [g];
      } else {
        ReadGroups(rest, pos + |Token('g', g.name)| + |ParamsText(g.params)|, Some(g.name), last, c + [g]);
        assert forall i :: 0 <= i < |rest| ==> rest[i] == cs[i + 1];
        assert forall i :: 0 < i < |cs| ==> cs[i] == rest[i - 1];
      }
    }
  }

  /** The token of a group is read, whatever follows it. */
  lemma GroupRead(name: string, more: string, pos: nat, group: Option<string>, param: string, c: Config)
    requires Fits(name)
    ensures Automaton(Token('g', name) + more, pos, WaitGroup, group, param, c)
            == if more == "" then Ok(c)
               else Automaton(more, pos + |Token('g', name)|, WaitParam, Some(name), param, c)
  {
    hide *;
    TokenRead('g', name, more);
    TokenStarts('g', name, more);
    GroupStep(Token('g', name) + more, pos, group, param, c, name);
  }

  lemma EmptyText()
    ensures ConfigText([]) == "" && ParamsText([]) == ""
  {
  }

  lemma TextOf(cs: Config)
    requires cs != []
    ensures ConfigText(cs) == Token('g', cs[0].name) + (ParamsText(cs[0].params) + ConfigText(cs[1..]))
  {
    hide Token, ParamsText;
    Assoc(Token('g', cs[0].name), ParamsText(cs[0].params), ConfigText(cs[1..]));
  }

  lemma FirstOf(c: Config, cs: Config)
    requires cs != [] && ValidConfig(c + cs)
    ensures ValidGroup(cs[0]) && forall i :: 0 <= i < |c| ==> c[i].name != cs[0].name
    ensures ValidConfig((c + [cs[0]]) + cs[1..])
  {
    var all := c + cs;
    assert all[|c|] == cs[0];
    assert forall i :: 0 <= i < |c| ==> all[i] == c[i];
    assert (c + [cs[0]]) + cs[1..] == all;
  }

  /** A group token is read. */
  lemma GroupStep(data: string, pos: nat, group: Option<string>, param: string, c: Config, name: string)
    requires data != "" && data[0] == 'g' && DeserializeStr('g', data) == Ok(name)
    ensures Automaton(data, pos, WaitGroup, group, param, c) ==
            match NextToken(data, name)
            case None => Ok(c)
            case Some(n) => Automaton(data[n..], pos + n, WaitParam, Some(name), param, c)
  {
    hide DeserializeStr, NextToken, SetString;
  }

  /** Where a parameter has to follow, a group does not do. */
  lemma WrongStart(data: string, pos: nat, group: string, param: string, c: Config)
    requires data != "" && data[0] == 'g'
    ensures Automaton(data, pos, WaitParam, Some(group), param, c) == Err(ConfigError(pos + 1, WrongPrefix))
  {
  }

  /** Reading back what was written gives the configuration exactly when it has a group and a key in
      every group. */
  lemma ConfigRoundTrip(c: Config)
    requires ValidConfig(c)
    ensures Automaton(ConfigText(c), 0, WaitGroup, None, "", []) == Ok(c)
            <==> c != [] && forall i :: 0 <= i < |c| ==> c[i].params != []
  {
    if c == [] {
      EmptyText();
      assert Automaton("", 0, WaitGroup, None, "", []) == Err(ConfigError(1, NullOrEmpty));
    } else {
      assert [] + c == c;
      ReadGroups(c, 0, None, "", []);
    }
  }

  // ---------------------------------------------------------------- repeated groups and keys

  /** The value of a key, or None. */
  function ValueOf(ps: seq<(string, string)>, key: string): Option<string>
  {
    if ps == [] then None else if ps[0].0 == key then Some(ps[0].1) else ValueOf(ps[1..], key)
  }

  function Lookup(c: Config, group: string, key: string): Option<string>
  {
    if c == [] then None
    else if c[0].name == group then ValueOf(c[0].params, key)
    else Lookup(c[1..], group, key)
  }

  /** The last value that a list of parameters, or of groups, gives to a key. */
  function LastValue(ps: seq<(string, string)>, key: string): Option<string>
    decreases |ps|
  {
    if ps == [] then None
    else if ps[|ps| - 1].0 == key then Some(ps[|ps| - 1].1)
    else LastValue(ps[..|ps| - 1], key)
  }

  function LastGiven(cs: Config, group: string, key: string): Option<string>
    decreases |cs|
  {
    if cs == [] then None
    else
      var g := cs[|cs| - 1];
      if g.name == group && LastValue(g.params, key).Some? then LastValue(g.params, key)
      else LastGiven(cs[..|cs| - 1], group, key)
  }

  lemma {:induction false} ValueSet(ps: seq<(string, string)>, key: string, value: string, other: string)
    ensures ValueOf(SetParam(ps, key, value), other) == if other == key then Some(value) else ValueOf(ps, other)
    decreases |ps|
  {
    if ps != [] && ps[0].0 != key {
      ValueSet(ps[1..], key, value, other);
    }
  }

  /** Setting a value changes what is looked up for this key and for no other. */
  lemma {:induction false} LookupSet(
      c: Config, group: string, key: string, value: string, group': string, key': string)
    ensures Lookup(SetString(c, group, key, value), group', key')
            == if group' == group && key' == key then Some(value) else Lookup(c, group', key')
    decreases |c|
  {
    hide ValueOf, SetParam;
    var d := SetString(c, group, key, value);
    if c == [] {
      assert d == [Group(group, [(key, value)])];
      OneValue(key, value, key');
      LookupFirst(d, group', key');
      LookupNothing(group', key');
    } else if c[0].name == group {
      assert d[1..] == c[1..] && d[0] == Group(group, SetParam(c[0].params, key, value));
      ValueSet(c[0].params, key, value, key');
      LookupFirst(c, group', key');
      LookupFirst(d, group', key');
    } else {
      assert d[1..] == SetString(c[1..], group, key, value) && d[0] == c[0];
      LookupSet(c[1..], group, key, value, group', key');
      LookupFirst(c, group', key');
      LookupFirst(d, group', key');
    }
  }

  lemma OneValue(key: string, value: string, other: string)
    ensures ValueOf([(key, value)], other) == if other == key then Some(value) else None
  {
    assert [(key, value)][1..] == [];
  }

  lemma LookupFirst(c: Config, group: string, key: string)
    requires c != []
    ensures Lookup(c, group, key) ==
            if c[0].name == group then ValueOf(c[0].params, key) else Lookup(c[1..], group, key)
  {
  }

  lemma LookupNothing(group: string, key: string)
    ensures Lookup([], group, key) == None
  {
  }

  /** The configuration c with all that cs gives set in it. */
  function Merged(c: Config, cs: Config): Config
    decreases |cs|
  {
    if cs == [] then c else Merged(SetAll(c, cs[0].name, cs[0].params), cs[1..])
  }

  lemma {:induction false} LookupSetAll(
      c: Config, group: string, ps: seq<(string, string)>, group': string, key: string)
    ensures Lookup(SetAll(c, group, ps), group', key)
            == if group' == group && LastValue(ps, key).Some? then LastValue(ps, key) else Lookup(c, group', key)
    decreases |ps|
  {
    hide SetString, Lookup;
    if ps != [] {
      var d := SetString(c, group, ps[0].0, ps[0].1);
      LookupSetAll(d, group, ps[1..], group', key);
      LookupSet(c, group, ps[0].0, ps[0].1, group', key);
      LastFirst(ps, key);
    }
  }

  lemma {:induction false} LastFirst(ps: seq<(string, string)>, key: string)
    requires ps != []
    ensures LastValue(ps, key) ==
            if LastValue(ps[1..], key).Some? then LastValue(ps[1..], key)
            else if ps[0].0 == key then Some(ps[0].1) else None
    decreases |ps|
  {
    if |ps| > 1 {
      var front := ps[..|ps| - 1];
      assert ps[1..][..|ps| - 2] == front[1..];
      LastFirst(front, key);
    }
  }

  lemma {:induction false} GivenFirst(cs: Config, group: string, key: string)
    requires cs != []
    ensures LastGiven(cs, group, key) ==
            if LastGiven(cs[1..], group, key).Some? then LastGiven(cs[1..], group, key)
            else if cs[0].name == group then LastValue(cs[0].params, key) else None
    decreases |cs|
  {
    if |cs| > 1 {
      var front := cs[..|cs| - 1];
      assert cs[1..][..|cs| - 2] == front[1..];
      GivenFirst(front, group, key);
    } else {
      assert cs[1..] == [] && cs[..0] == [];
    }
  }

  lemma {:induction false} LookupMerged(c: Config, cs: Config, group: string, key: string)
    ensures Lookup(Merged(c, cs), group, key)
            == if LastGiven(cs, group, key).Some? then LastGiven(cs, group, key) else Lookup(c, group, key)
    decreases |cs|
  {
    hide SetAll, Lookup, LastValue;
    if cs != [] {
      LookupMerged(SetAll(c, cs[0].name, cs[0].params), cs[1..], group, key);
      LookupSetAll(c, cs[0].name, cs[0].params, group, key);
      GivenFirst(cs, group, key);
    }
  }

  /** Groups that can be read: each with a key, in any order and however often. */
  predicate Readable(cs: Config)
  {
    forall i :: 0 <= i < |cs| ==>
      Fits(cs[i].name) && cs[i].params != []
      && forall j :: 0 <= j < |cs[i].params| ==> Fits(cs[i].params[j].0) && Fits(cs[i].params[j].1)
  }

  lemma {:induction false} ReadMerges(cs: Config, pos: nat, group: Option<string>, param: string, c: Config)
    requires cs != [] && Readable(cs)
    ensures Automaton(ConfigText(cs), pos, WaitGroup, group, param, c) == Ok(Merged(c, cs))
    decreases |cs|
  {
    hide Token, DeserializeStr, NextToken, SetString, SetAll, ConfigText, Automaton, ParamsText, Fits;
    var g, rest := cs[0], cs[1..];
    var text, tail := ParamsText(g.params), ConfigText(rest);
    TextOf(cs);
    ParamsNonempty(g.params, tail);
    GroupRead(g.name, text + tail, pos, group, param, c);
    var p := pos + |Token('g', g.name)|;
    var last := ReadParams(g.params, tail, p, WaitParam, g.name, param, c);
    if rest == [] {
      EmptyText();
    } else {
      ConfigStarts(rest);
      ReadMerges(rest, p + |text|, Some(g.name), last, SetAll(c, g.name, g.params));
    }
  }

  /** Texts of configurations one after the other are read as one in which the last value of a key counts. */
  lemma LastValueCounts(cs: Config, group: string, key: string)
    requires cs != [] && Readable(cs)
    ensures var r := Automaton(ConfigText(cs), 0, WaitGroup, None, "", []);
            r.Ok? && Lookup(r.value, group, key) == LastGiven(cs, group, key)
  {
    hide Automaton, ConfigText, Merged, LastGiven;
    ReadMerges(cs, 0, None, "", []);
    LookupMerged([], cs, group, key);
  }

  // ---------------------------------------------------------------- error positions

  /** From offset i of s on, tokens follow each other up to offset j. */
  ghost predicate Tokens(s: string, i: nat, j: nat)
    requires i <= |s|
    decreases |s| - i
  {
    i == j ||
    exists p, n: nat :: TokenAt(s, i, p, n) && Tokens(s, i + n, j)
  }

  /** A well-formed token with prefix p and n characters. */
  ghost predicate TokenAt(s: string, i: nat, p: char, n: nat)
    requires i <= |s|
  {
    0 < n < |s| - i && DeserializeStr(p, s[i..]).Ok? && NextToken(s[i..], DeserializeStr(p, s[i..]).value) == Some(n)
  }

  /** One step of the automaton. */
  lemma AutomatonStep(data: string, pos: nat, st: Status, group: Option<string>, param: string, c: Config)
    returns (now: Status, group': Option<string>, param': string, c': Config, st': Status)
    requires st != WaitGroup ==> group.Some?
    ensures now == Adjusted(st, data, group) && (st' != WaitGroup ==> group'.Some?)
    ensures Automaton(data, pos, st, group, param, c) ==
            match DeserializeStr(Wanted(now), data)
            case Err(e) => Err(ConfigError(pos + 1, e))
            case Ok(t) =>
              match NextToken(data, t)
              case None => Ok(c')
              case Some(n) => Automaton(data[n..], pos + n, st', group', param', c')
  {
    hide DeserializeStr, NextToken, SetString;
    now, group', param', c', st' := Adjusted(st, data, group), group, param, c, WaitGroup;
    OkNonempty(data);
    var t := DeserializeStr(Wanted(now), data);
    if t.Ok? {
      match now {
        case WaitGroup => group', st' := Some(t.value), WaitParam;
        case WaitParam => param', st' := t.value, WaitValue;
        case WaitValue => c' := SetString(c, group.value, param, t.value);
      }
    }
  }

  /** On any input, an error is reported one past the offset of a token that cannot be read, with
      readable tokens all the way up to it. */
  lemma {:induction false} ErrorPosition(s: string, i: nat, st: Status, group: Option<string>, param: string, c: Config)
    requires i <= |s| && (st != WaitGroup ==> group.Some?)
    ensures var r := Automaton(s[i..], i, st, group, param, c);
            r.Err? ==> var at := r.error.position - 1;
                       0 <= at <= |s| && Tokens(s, i, at)
                       && exists p :: p in "gpv" && DeserializeStr(p, s[at..]) == Err(r.error.cause)
    decreases |s| - i
  {
    hide DeserializeStr, NextToken, Automaton, Adjusted;
    var data := s[i..];
    var now, group', param', c', st' := AutomatonStep(data, i, st, group, param, c);
    var t := DeserializeStr(Wanted(now), data);
    OkNonempty(data);
    match t {
      case Err(e) =>
        assert Wanted(now) in "gpv";
      case Ok(text) =>
        NextShorter(data);
        if NextToken(data, text).Some? {
          var n := NextToken(data, text).value;
          assert TokenAt(s, i, Wanted(now), n);
          assert data[n..] == s[i + n..];
          ErrorPosition(s, i + n, st', group', param', c');
        }
    }
  }
}
