/**
 lib/mcconfig/history.c: the history of an input line, kept in a group of the configuration, and
 list_append_unique of lib/util.c.
 */
module History {
  import opened Options
  import opened Decimal

  // ---------------------------------------------------------------- lists without repetition

  function Without(ts: seq<string>, text: string): (r: seq<string>)
    ensures |r| <= |ts|
    decreases |ts|
  {
    if ts == [] then [] else (if ts[0] == text then [] else [ts[0]]) + Without(ts[1..], text)
  }

  class TextList {
    var items: seq<string>

    constructor ()
      ensures items == []
    {
      items := [];
    }

    /** list_append_unique */
    method AppendUnique(text: string)
      modifies this
      ensures items == Without(old(items), text) + [text]
    {
      hide Without;
      ghost var was := items;
      items := items + [text];
      var link := |items| - 1;
      NoStep(was, text);
      while link > 0
        invariant 0 <= link <= |was|
        invariant items == was[..link] + (Without(was[link..], text) + [text])
      {
        link := link - 1;
        ghost var rest := Without(was[link + 1..], text) + [text];
        Step(was, link, text);
        AtEnd(was[..link], was[link], rest);
        if items[link] == text {
          items := items[..link] + items[link + 1..];
        }
      }
    }
  }

  lemma NoStep(was: seq<string>, text: string)
    ensures was + [text] == was[..|was|] + (Without(was[|was|..], text) + [text])
    ensures was[..0] == [] && was[0..] == was
    ensures forall s: seq<string> :: [] + s == s
  {
  }

  lemma AtEnd(a: seq<string>, x: string, b: seq<string>)
    ensures a + [x] + b == a + ([x] + b)
    ensures var s := a + [x] + b; s[|a|] == x && s[..|a|] + s[|a| + 1..] == a + b
  {
  }

  lemma Step(was: seq<string>, k: nat, text: string)
    requires k < |was|
    ensures was[..k + 1] == was[..k] + [was[k]]
    ensures Without(was[k..], text) + [text]
            == (if was[k] == text then [] else [was[k]]) + (Without(was[k + 1..], text) + [text])
  {
    assert was[k..][1..] == was[k + 1..];
  }

  /** The list that appending these texts one by one gives. */
  function Appended(ts: seq<string>): seq<string>
    decreases |ts|
  {
    if ts == [] then [] else Without(Appended(ts[..|ts| - 1]), ts[|ts| - 1]) + [ts[|ts| - 1]]
  }

  /** Only the last occurrence of each text, in order. */
  function LastOnly(ts: seq<string>): (r: seq<string>)
    ensures |r| <= |ts|
    decreases |ts|
  {
    if ts == [] then [] else (if ts[0] in ts[1..] then [] else [ts[0]]) + LastOnly(ts[1..])
  }

  predicate Distinct(ts: seq<string>)
  {
    forall i, j :: 0 <= i < j < |ts| ==> ts[i] != ts[j]
  }

  lemma {:induction false} LastOnlySame(ts: seq<string>)
    ensures forall t :: t in LastOnly(ts) <==> t in ts
    decreases |ts|
  {
    if ts != [] {
      LastOnlySame(ts[1..]);
      assert ts == [ts[0]] + ts[1..];
    }
  }

  lemma WithoutHead(x: string, w: seq<string>, t: string)
    ensures Without([x] + w, t) == (if x == t then [] else [x]) + Without(w, t)
  {
    assert ([x] + w)[1..] == w;
  }

  /** One more text at the end takes away the same text before it. */
  lemma {:induction false} LastOnlySnoc(ts: seq<string>, t: string)
    ensures LastOnly(ts + [t]) == Without(LastOnly(ts), t) + [t]
    decreases |ts|
  {
    if ts == [] {
      assert ts + [t] == [t] && [t][1..] == [];
    } else {
      var x, more := ts[0], ts[1..];
      LastOnlySnoc(more, t);
      assert (ts + [t])[1..] == more + [t];
      assert x in more + [t] <==> x in more || x == t;
      var w := LastOnly(more);
      WithoutHead(x, w, t);
      if x !in more {
        assert LastOnly(ts) == [x] + w;
        if x != t {
          assert [x] + (Without(w, t) + [t]) == ([x] + Without(w, t)) + [t];
        } else {
          assert [] + Without(w, t) == Without(w, t);
        }
      } else {
        assert LastOnly(ts) == w;
      }
    }
  }

  /** Appending one by one keeps the last occurrence of each text. */
  lemma {:induction false} AppendedLastOnly(ts: seq<string>)
    ensures Appended(ts) == LastOnly(ts)
    decreases |ts|
  {
    if ts != [] {
      AppendedLastOnly(ts[..|ts| - 1]);
      assert ts == ts[..|ts| - 1] + [ts[|ts| - 1]];
      LastOnlySnoc(ts[..|ts| - 1], ts[|ts| - 1]);
    }
  }

  lemma DistinctHead(x: string, w: seq<string>)
    ensures Distinct([x] + w) <==> Distinct(w) && x !in w
  {
    var ts := [x] + w;
    assert forall i :: 0 <= i < |w| ==> ts[i + 1] == w[i];
    if x in w {
      var i :| 0 <= i < |w| && w[i] == x;
      assert ts[0] == ts[i + 1];
    }
    if Distinct(ts) {
      forall i, j | 0 <= i < j < |w| ensures w[i] != w[j] {
        assert ts[i + 1] != ts[j + 1];
      }
    } else if x !in w {
      var i, j :| 0 <= i < j < |ts| && ts[i] == ts[j];
      assert ts[j] == w[j - 1];
      assert i > 0 ==> ts[i] == w[i - 1];
    }
  }

  lemma {:induction false} LastOnlyDistinct(ts: seq<string>)
    ensures Distinct(LastOnly(ts))
    ensures Distinct(ts) ==> LastOnly(ts) == ts
    decreases |ts|
  {
    if ts == [] {
    } else {
      hide Distinct;
      var x, more := ts[0], ts[1..];
      assert ts == [x] + more;
      LastOnlyDistinct(more);
      LastOnlySame(more);
      DistinctHead(x, more);
      DistinctHead(x, LastOnly(more));
      assert [] + LastOnly(more) == LastOnly(more);
    }
  }

  // ---------------------------------------------------------------- saving

  type Groups = map<string, map<string, string>>

  /** The entries that are recorded: as many as the setting says, but at least the last one. */
  function Recorded(h: seq<Option<string>>, num: int): (r: seq<Option<string>>)
    ensures h != [] ==> r != []
  {
    var n := if num < 1 then 1 else num;
    if |h| <= n then h else h[|h| - n..]
  }

  /** The texts of a list: entries without one do not count. */
  function Texts(h: seq<Option<string>>): (r: seq<string>)
    ensures |r| <= |h|
  {
    if h == [] then [] else (if h[0].Some? then [h[0].value] else []) + Texts(h[1..])
  }

  /** A group with the keys "0", "1" and so on. */
  function Numbered(ts: seq<string>): map<string, string>
    decreases |ts|
  {
    if ts == [] then map[] else Numbered(ts[..|ts| - 1])[Digits(|ts| - 1) := ts[|ts| - 1]]
  }

  function SavedGroups(groups: Groups, name: string, h: seq<Option<string>>, num: int): Groups
  {
    if name == "" || h == [] then groups
    else
      var ts := Texts(Recorded(h, num));
      GroupAdded(groups - {name}, name, ts)
  }

  function GroupAdded(rest: Groups, name: string, ts: seq<string>): Groups
  {
    if ts == [] then rest else rest[name := Numbered(ts)]
  }

  // ---------------------------------------------------------------- loading

  function KeyCount(groups: Groups, name: string): nat
  {
    if name in groups then |groups[name]| else 0
  }

  /** mc_config_get_string_raw with an empty default: a missing key is added to the group. */
  function Entry(groups: Groups, name: string, key: string): string
  {
    if name in groups && key in groups[name] then groups[name][key] else ""
  }

  function WithEntry(groups: Groups, name: string, key: string): Groups
  {
    if name !in groups then groups[name := map[key := ""]]
    else if key !in groups[name] then groups[name := groups[name][key := ""]]
    else groups
  }

  /** The first n entries of a group, and the configuration after they were asked for. */
  function Entries(groups: Groups, name: string, n: nat): seq<string>
  {
    if n == 0 then [] else Entries(groups, name, n - 1) + [Entry(Asked(groups, name, n - 1), name, Digits(n - 1))]
  }

  function Asked(groups: Groups, name: string, n: nat): Groups
  {
    if n == 0 then groups else WithEntry(Asked(groups, name, n - 1), name, Digits(n - 1))
  }

  function LoadedHistory(groups: Groups, name: string): seq<string>
  {
    if name == "" then [] else Appended(Entries(groups, name, KeyCount(groups, name)))
  }

  class Config {
    var groups: Groups

    constructor (groups: Groups)
      ensures this.groups == groups
    {
      this.groups := groups;
    }

    method GetStringRaw(name: string, key: string) returns (value: string)
      modifies this
      ensures value == Entry(old(groups), name, key) && groups == WithEntry(old(groups), name, key)
    {
      if name !in groups || key !in groups[name] {
        SetStringRaw(name, key, "");
        return "";
      }
      return groups[name][key];
    }

    method SetStringRaw(name: string, key: string, value: string)
      modifies this
      ensures groups == old(groups)[name := (if name in old(groups) then old(groups)[name] else map[])[key := value]]
    {
      var g := if name in groups then groups[name] else map[];
      groups := groups[name := g[key := value]];
    }

    /** mc_config_history_save */
    method HistorySave(name: string, list: seq<Option<string>>, numHistoryItemsRecorded: int)
      modifies this
      ensures groups == SavedGroups(old(groups), name, list, numHistoryItemsRecorded)
    {
      hide Digits;
      if name == "" || list == [] {
        return;
      }
      var h := |list| - 1;
      var i: int := 0;
      while i < numHistoryItemsRecorded - 1 && h > 0
        invariant 0 <= h && h + i == |list| - 1 && 0 <= i
        invariant i == 0 || i <= numHistoryItemsRecorded - 1
      {
        h := h - 1;
        i := i + 1;
      }
      assert list[h..] == Recorded(list, numHistoryItemsRecorded);
      groups := groups - {name};
      Dump(name, list, h);
    }

    /** Writing the entries from offset first on into a new group. */
    method Dump(name: string, list: seq<Option<string>>, first: nat)
      requires name !in groups && first <= |list|
      modifies this
      ensures groups == GroupAdded(old(groups), name, Texts(list[first..]))
    {
      hide Digits, Texts, GroupAdded;
      var h, i: nat := first, 0;
      assert list[h..h] == [];
      GroupEmpty(groups, name);
      while h < |list|
        invariant first <= h <= |list|
        invariant i == |Texts(list[first..h])|
        invariant groups == GroupAdded(old(groups), name, Texts(list[first..h]))
      {
        TextsSnoc(list[first..h], list[h]);
        assert list[first..h + 1] == list[first..h] + [list[h]];
        if list[h].Some? {
          GroupStep(old(groups), name, Texts(list[first..h]), list[h].value);
          SetStringRaw(name, Digits(i), list[h].value);
          i := i + 1;
        } else {
          assert Texts(list[first..h]) + [] == Texts(list[first..h]);
        }
        h := h + 1;
      }
      assert list[first..h] == list[first..];
    }

    /** mc_config_history_load */
    method HistoryLoad(name: string) returns (hist: TextList)
      modifies this
      ensures fresh(hist) && hist.items == LoadedHistory(old(groups), name)
      ensures groups == if name == "" then old(groups) else Asked(old(groups), name, KeyCount(old(groups), name))
    {
      hide Digits, Entry, WithEntry;
      hist := new TextList();
      if name == "" {
        return;
      }
      var keysNum := if name in groups then |groups[name]| else 0;
      var i: nat := 0;
      while i < keysNum
        invariant i <= keysNum && fresh(hist)
        invariant groups == Asked(old(groups), name, i)
        invariant hist.items == Appended(Entries(old(groups), name, i))
      {
        var thisEntry := GetStringRaw(name, Digits(i));
        ghost var before := Entries(old(groups), name, i);
        assert (before + [thisEntry])[..|before|] == before;
        hist.AppendUnique(thisEntry);
        i := i + 1;
      }
    }
  }

  lemma {:induction false} TextsSnoc(h: seq<Option<string>>, x: Option<string>)
    ensures Texts(h + [x]) == Texts(h) + if x.Some? then [x.value] else []
    decreases |h|
  {
    if h == [] {
      assert h + [x] == [x] && [x][1..] == [];
    } else {
      TextsSnoc(h[1..], x);
      assert (h + [x])[1..] == h[1..] + [x];
    }
  }

  lemma GroupEmpty(rest: Groups, name: string)
    ensures GroupAdded(rest, name, Texts([])) == rest && |Texts([])| == 0
  {
  }

  lemma GroupStep(rest: Groups, name: string, ts: seq<string>, t: string)
    requires name !in rest
    ensures var g := GroupAdded(rest, name, ts);
            g[name := (if name in g then g[name] else map[])[Digits(|ts|) := t]] == GroupAdded(rest, name, ts + [t])
  {
    hide Digits;
    NumberedSnoc(ts, t);
    hide Numbered;
    NumberedNone();
  }

  lemma NumberedNone()
    ensures Numbered([]) == map[]
  {
  }

  lemma NumberedSnoc(ts: seq<string>, t: string)
    ensures Numbered(ts + [t]) == Numbered(ts)[Digits(|ts|) := t]
  {
    hide Digits;
    assert (ts + [t])[..|ts|] == ts;
  }

  // ---------------------------------------------------------------- the main results

  lemma {:induction false} NumberedKeys(ts: seq<string>)
    ensures forall k: nat :: Digits(k) in Numbered(ts) <==> k < |ts|
    ensures forall k: nat :: k < |ts| ==> Numbered(ts)[Digits(k)] == ts[k]
    ensures |Numbered(ts)| == |ts|
    decreases |ts|
  {
    hide Digits;
    if ts != [] {
      var u, n: nat := ts[..|ts| - 1], |ts| - 1;
      NumberedKeys(u);
      assert Digits(n) !in Numbered(u);
      forall k: nat ensures Digits(k) == Digits(n) <==> k == n {
        if Digits(k) == Digits(n) {
          DigitsInjective(k, n);
        }
      }
      assert Numbered(ts).Keys == Numbered(u).Keys + {Digits(n)};
    }
  }

  lemma EntryNumbered(groups: Groups, name: string, ts: seq<string>, k: nat)
    requires k < |ts| && name in groups && groups[name] == Numbered(ts)
    ensures Entry(groups, name, Digits(k)) == ts[k] && WithEntry(groups, name, Digits(k)) == groups
  {
    hide Digits, Numbered;
    NumberedKeys(ts);
  }

  lemma {:induction false} EntriesNumbered(groups: Groups, name: string, ts: seq<string>, n: nat)
    requires n <= |ts| && name in groups && groups[name] == Numbered(ts)
    ensures Asked(groups, name, n) == groups && Entries(groups, name, n) == ts[..n]
    decreases n
  {
    hide Digits, Numbered, Entry, WithEntry;
    if n > 0 {
      EntriesNumbered(groups, name, ts, n - 1);
      EntryNumbered(groups, name, ts, n - 1);
      assert ts[..n] == ts[..n - 1] + [ts[n - 1]];
    }
  }

  /** What was saved comes back: of the recorded entries the last occurrence of each text, in order.
      Loading leaves the configuration as it is. */
  lemma SaveThenLoad(groups: Groups, name: string, h: seq<Option<string>>, num: int)
    requires name != "" && h != []
    ensures var g := SavedGroups(groups, name, h, num);
            LoadedHistory(g, name) == LastOnly(Texts(Recorded(h, num))) && Asked(g, name, KeyCount(g, name)) == g
  {
    hide Digits, Entries, Appended, Asked, Numbered;
    var ts := Texts(Recorded(h, num));
    var g := SavedGroups(groups, name, h, num);
    AppendedLastOnly(ts);
    if ts == [] {
      assert name !in g;
      NoEntries(g, name);
    } else {
      NumberedKeys(ts);
      EntriesNumbered(g, name, ts, |ts|);
      assert ts[..|ts|] == ts;
    }
  }

  /** A missing key is taken for an empty text, and is in the group afterwards; nothing else changes. */
  lemma {:induction false} AskedAdds(groups: Groups, name: string, n: nat)
    requires name in groups
    ensures var g := Asked(groups, name, n);
            && g.Keys == groups.Keys && (forall other :: other in groups && other != name ==> g[other] == groups[other])
            && (forall k :: k in groups[name] ==> k in g[name] && g[name][k] == groups[name][k])
            && (forall k :: k in g[name] && k !in groups[name] ==> g[name][k] == "")
            && g[name].Keys == groups[name].Keys + Keys(n)
  {
    hide Digits, Keys;
    if n == 0 {
      assert Keys(0) == {} by { NoKeys(); }
    } else {
      AskedAdds(groups, name, n - 1);
      KeysStep(n);
    }
  }

  /** The numbers below n as keys. */
  function Keys(n: nat): set<string>
  {
    set i | 0 <= i < n :: Digits(i)
  }

  lemma NoKeys()
    ensures Keys(0) == {}
  {
  }

  lemma KeysStep(n: nat)
    requires n > 0
    ensures Keys(n) == Keys(n - 1) + {Digits(n - 1)}
  {
    hide Digits;
  }

  lemma {:induction false} EntriesAre(groups: Groups, name: string, n: nat)
    requires name in groups
    ensures |Entries(groups, name, n)| == n
    ensures forall i :: 0 <= i < n ==>
              Entries(groups, name, n)[i] == if Digits(i) in groups[name] then groups[name][Digits(i)] else ""
  {
    hide Digits, Asked, Entries;
    EntriesStep(groups, name, n);
    if n > 0 {
      EntriesAre(groups, name, n - 1);
      EntryAsked(groups, name, n - 1);
    }
  }

  lemma EntriesStep(groups: Groups, name: string, n: nat)
    ensures Entries(groups, name, n) ==
            if n == 0 then []
            else Entries(groups, name, n - 1) + [Entry(Asked(groups, name, n - 1), name, Digits(n - 1))]
  {
  }

  lemma EntryAsked(groups: Groups, name: string, n: nat)
    requires name in groups
    ensures Entry(Asked(groups, name, n), name, Digits(n))
            == if Digits(n) in groups[name] then groups[name][Digits(n)] else ""
  {
    hide Digits, Asked;
    AskedAdds(groups, name, n);
  }

  /** Any group with n keys is loaded as the texts under the numbers below n, "" for the missing ones, each
      text once at the place of its last occurrence. */
  lemma LoadedIs(groups: Groups, name: string, ts: seq<string>)
    requires name != "" && name in groups && |ts| == |groups[name]|
    requires forall i :: 0 <= i < |ts| ==> ts[i] == if Digits(i) in groups[name] then groups[name][Digits(i)] else ""
    ensures LoadedHistory(groups, name) == LastOnly(ts)
    ensures LoadedHistory(groups, "") == []
  {
    hide Digits, Entries, Appended, LastOnly;
    EntriesAre(groups, name, |ts|);
    assert Entries(groups, name, |ts|) == ts;
    AppendedLastOnly(ts);
  }

  /** Saving changes one group only. Its keys are the numbers from 0 on. */
  lemma SavedIs(groups: Groups, name: string, h: seq<Option<string>>, num: int)
    ensures name == "" || h == [] ==> SavedGroups(groups, name, h, num) == groups
    ensures var g := SavedGroups(groups, name, h, num);
            forall other :: other != name ==>
              (other in g <==> other in groups) && (other in g ==> g[other] == groups[other])
    ensures name != "" && h != [] ==>
              var g, n := SavedGroups(groups, name, h, num), if num < 1 then 1 else num;
              var ts := Texts(if |h| <= n then h else h[|h| - n..]);
              && (name in g <==> ts != [])
              && (ts != [] ==> |g[name]| == |ts|
                               && forall i :: 0 <= i < |ts| ==> Digits(i) in g[name] && g[name][Digits(i)] == ts[i])
  {
    hide Digits, Numbered, Texts;
    if name != "" && h != [] {
      NumberedIs(Texts(Recorded(h, num)));
    }
  }

  lemma {:induction false} NumberedIs(ts: seq<string>)
    ensures var m := Numbered(ts);
            && |m| == |ts| && (forall i :: 0 <= i < |ts| ==> Digits(i) in m && m[Digits(i)] == ts[i])
            && m.Keys == Keys(|ts|)
    decreases |ts|
  {
    hide Digits, Numbered, Keys;
    NumberedStep(ts);
    if ts == [] {
      NoKeys();
    } else {
      var n := |ts| - 1;
      var m := Numbered(ts[..n]);
      NumberedIs(ts[..n]);
      NewNumber(ts[..n], m);
      KeysStep(|ts|);
      assert Numbered(ts).Keys == m.Keys + {Digits(n)};
    }
  }

  lemma NumberedStep(ts: seq<string>)
    ensures Numbered(ts) ==
            if ts == [] then map[] else Numbered(ts[..|ts| - 1])[Digits(|ts| - 1) := ts[|ts| - 1]]
  {
  }

  lemma NewNumber(ts: seq<string>, m: map<string, string>)
    requires m.Keys == Keys(|ts|)
    ensures Digits(|ts|) !in m && forall i :: 0 <= i < |ts| ==> Digits(i) != Digits(|ts|)
  {
    hide Digits;
    forall i | 0 <= i < |ts| ensures Digits(i) != Digits(|ts|) {
      if Digits(i) == Digits(|ts|) {
        DigitsInjective(i, |ts|);
      }
    }
  }

  lemma NoEntries(groups: Groups, name: string)
    ensures Asked(groups, name, 0) == groups && Entries(groups, name, 0) == []
  {
  }

  function Somes(ts: seq<string>): (h: seq<Option<string>>)
    ensures |h| == |ts|
  {
    if ts == [] then [] else [Some(ts[0])] + Somes(ts[1..])
  }

  lemma {:induction false} TextsOfSomes(ts: seq<string>)
    ensures Texts(Somes(ts)) == ts
    decreases |ts|
  {
    if ts != [] {
      TextsOfSomes(ts[1..]);
    }
  }

  lemma {:induction false} SomesSuffix(ts: seq<string>, k: nat)
    requires k <= |ts|
    ensures Somes(ts)[k..] == Somes(ts[k..])
    decreases k
  {
    if k > 0 {
      SomesSuffix(ts[1..], k - 1);
      assert Somes(ts)[k..] == Somes(ts[1..])[k - 1..];
      assert ts[1..][k - 1..] == ts[k..];
    } else {
      assert ts[0..] == ts;
    }
  }

  function Suffix(ts: seq<string>, num: int): seq<string>
  {
    var n := if num < 1 then 1 else num;
    if |ts| <= n then ts else ts[|ts| - n..]
  }

  lemma SuffixRecorded(ts: seq<string>, num: int)
    ensures Texts(Recorded(Somes(ts), num)) == Suffix(ts, num)
    ensures Distinct(ts) ==> Distinct(Suffix(ts, num))
  {
    hide Texts, Somes;
    var n := if num < 1 then 1 else num;
    if |ts| <= n {
      TextsOfSomes(ts);
    } else {
      SomesSuffix(ts, |ts| - n);
      TextsOfSomes(ts[|ts| - n..]);
    }
  }

  /** A list without repetition comes back as its last entries. */
  lemma DistinctComesBack(groups: Groups, name: string, ts: seq<string>, num: int)
    requires name != "" && ts != [] && Distinct(ts)
    ensures LoadedHistory(SavedGroups(groups, name, Somes(ts), num), name) == Suffix(ts, num)
  {
    hide *;
    assert Somes(ts) != [] by { assert |Somes(ts)| == |ts|; }
    SaveThenLoad(groups, name, Somes(ts), num);
    SuffixRecorded(ts, num);
    LastOnlyDistinct(Suffix(ts, num));
  }

  lemma RecordedShort(h: seq<Option<string>>, num: int)
    ensures |Recorded(h, num)| <= if num < 1 then 1 else num
  {
  }

  /** Saving and loading a second time changes nothing. */
  lemma SecondRound(groups: Groups, name: string, h: seq<Option<string>>, num: int)
    requires name != "" && h != []
    ensures var g := SavedGroups(groups, name, h, num);
            var once := LoadedHistory(g, name);
            LoadedHistory(SavedGroups(g, name, Somes(once), num), name) == once
  {
    hide SavedGroups, LoadedHistory, Somes, Texts, Recorded, LastOnly;
    SaveThenLoad(groups, name, h, num);
    var g := SavedGroups(groups, name, h, num);
    var once := LoadedHistory(g, name);
    RecordedShort(h, num);
    LastOnlyDistinct(Texts(Recorded(h, num)));
    if once == [] {
      NothingSaved(g, name, num);
    } else {
      DistinctComesBack(g, name, once, num);
    }
  }

  lemma NothingSaved(groups: Groups, name: string, num: int)
    ensures SavedGroups(groups, name, Somes([]), num) == groups
  {
  }
}
