/**
 * The keyboard tray applet's layout groups (`XKBMixin` of
 * keyboard_tray/core.py): the group names parsed from the XKB symbols atom
 * (for instance `pc+us+ru:2+inet(evdev)` gives `us`, `ru`), the tray labels
 * and theme icon names drawn for them, and the switch to the next group.
 * The X server calls that read the atom and the current group and latch the
 * new one are left to the caller: their results are parameters.
 */
module Keyboard {
  import opened Wrappers
  import Text
  import Bytes
  import Utf8

  // ---------------------------------------------------------------------------
  // _parse_group_names
  // ---------------------------------------------------------------------------

  /** The characters of `[a-z0-9():\-]`. */
  predicate IsWordChar(c: char)
  {
    'a' <= c <= 'z' || Text.IsDigit(c) || c == '(' || c == ')' || c == ':' || c == '-'
  }

  predicate AllWordChars(s: string)
  {
    forall k :: 0 <= k < |s| ==> IsWordChar(s[k])
  }

  /** What one match of `[a-z0-9():\-]+(?:_[0-9])?` can be. */
  predicate IsToken(t: string)
  {
    (|t| > 0 && AllWordChars(t))
    || (|t| >= 3 && AllWordChars(t[..|t| - 2]) && t[|t| - 2] == '_' && Text.IsDigit(t[|t| - 1]))
  }

  /** The greedy `[a-z0-9():\-]*` at the start of `s`. */
  function WordRun(s: string): (w: string)
    ensures AllWordChars(w) && |w| <= |s| && w == s[..|w|]
    ensures |w| < |s| ==> !IsWordChar(s[|w|])
    decreases |s|
  {
    if |s| > 0 && IsWordChar(s[0]) then [s[0]] + WordRun(s[1..]) else ""
  }

  /** The match of the token pattern at the start of `s`, which starts with a word character. */
  function TokenAt(s: string): (t: string)
    requires |s| > 0 && IsWordChar(s[0])
    ensures IsToken(t) && |t| <= |s| && t == s[..|t|]
  {
    var w := WordRun(s);
    if |w| + 2 <= |s| && s[|w|] == '_' && Text.IsDigit(s[|w| + 1]) then
      assert s[..|w| + 2][..|w|] == w;
      s[..|w| + 2]
    else w
  }

  /** `re.findall` of the token pattern: the matches from left to right. */
  function Tokens(s: string): (ts: seq<string>)
    ensures forall k :: 0 <= k < |ts| ==> IsToken(ts[k])
    decreases |s|
  {
    if |s| == 0 then []
    else if !IsWordChar(s[0]) then Tokens(s[1..])
    else
      var t := TokenAt(s);
      [t] + Tokens(s[|t|..])
  }

  /** `re.sub(r'^pc[+_]', '', s)`. */
  function StripPc(s: string): (r: string)
    ensures Text.StartsWith(s, "pc+") || Text.StartsWith(s, "pc_") ==> s == s[..3] + r
    ensures !(Text.StartsWith(s, "pc+") || Text.StartsWith(s, "pc_")) ==> r == s
  {
    if |s| >= 3 && s[..2] == "pc" && (s[2] == '+' || s[2] == '_') then s[3..] else s
  }

  /** `re.search(r'[_:][0-9]$', k)`: the token carries a group suffix such as `:2`. */
  predicate HasPostfix(k: string)
  {
    |k| >= 2 && (k[|k| - 2] == '_' || k[|k| - 2] == ':') && Text.IsDigit(k[|k| - 1])
  }

  /** `re.sub(r'[_:][0-9]$', '', k)` for a token that carries the suffix. */
  function DropPostfix(k: string): (r: string)
    requires HasPostfix(k)
    ensures |r| == |k| - 2 && r == k[..|r|]
  {
    k[..|k| - 2]
  }

  /** The loop over the tokens: the suffixed ones, in order, without their suffix. */
  function PostfixNames(ks: seq<string>): (r: seq<string>)
    ensures |r| <= |ks|
    decreases |ks|
  {
    if |ks| == 0 then []
    else if HasPostfix(ks[0]) then [DropPostfix(ks[0])] + PostfixNames(ks[1..])
    else PostfixNames(ks[1..])
  }

  /** A name comes out of the loop exactly when some suffixed token loses its suffix to give it. */
  lemma {:induction false} PostfixNamesMembers(ks: seq<string>, x: string)
    ensures x in PostfixNames(ks) <==> exists k :: k in ks && HasPostfix(k) && DropPostfix(k) == x
    decreases |ks|
  {
    if |ks| > 0 {
      PostfixNamesMembers(ks[1..], x);
      assert forall k :: k in ks <==> k == ks[0] || k in ks[1..];
    }
  }

  /** The loop runs over the tokens in order: it distributes over concatenation. */
  lemma {:induction false} PostfixNamesAppend(a: seq<string>, b: seq<string>)
    ensures PostfixNames(a + b) == PostfixNames(a) + PostfixNames(b)
    decreases |a|
  {
    if |a| > 0 {
      assert (a + b)[1..] == a[1..] + b;
      PostfixNamesAppend(a[1..], b);
    } else {
      assert a + b == b;
    }
  }

  /** Why `_parse_group_names` raises: the atom is not UTF-8, or it holds no token (`kbs[0]`). */
  datatype GroupError = NotUtf8 | NoTokens

  /** At most the first four names: `kb_groups[:4]`. */
  const MaxGroups: nat := 4

  /**
   * `_parse_group_names(atom_name)`: the first token after the `pc+` prefix,
   * then every suffixed token without its suffix, at most four names in all.
   */
  function ParseGroupNames(atom: seq<Bytes.byte>): (r: Result<seq<string>, GroupError>)
    ensures Utf8.DecodeStrict(atom).None? <==> r == Err(NotUtf8)
    ensures r == Err(NoTokens) <==>
      Utf8.DecodeStrict(atom).Some? && Tokens(StripPc(Utf8.DecodeStrict(atom).value)) == []
    ensures r.Ok? ==> var ts := Tokens(StripPc(Utf8.DecodeStrict(atom).value));
      1 <= |r.value| <= MaxGroups && r.value[0] == ts[0]
      && |r.value| == (if 1 + |PostfixNames(ts)| < MaxGroups then 1 + |PostfixNames(ts)| else MaxGroups)
      && r.value[1..] == PostfixNames(ts)[..|r.value| - 1]
  {
    match Utf8.DecodeStrict(atom)
    case None => Err(NotUtf8)
    case Some(s) =>
      var ts := Tokens(StripPc(s));
      if |ts| == 0 then Err(NoTokens)
      else
        var groups := [ts[0]] + PostfixNames(ts);
        Ok(if |groups| > MaxGroups then groups[..MaxGroups] else groups)
  }

  /** `'+'.join(words)`: how the XKB symbols string separates its parts. */
  function JoinPlus(words: seq<string>): string
  {
    Text.Join(words, "+")
  }

  /** A word of word characters is matched whole when a `+` or the end follows it. */
  lemma TokenAtWord(w: string, rest: string)
    requires |w| > 0 && AllWordChars(w)
    requires |rest| > 0 ==> rest[0] == '+'
    ensures TokenAt(w + rest) == w
  {
    WordRunOfConcat(w, rest);
  }

  lemma {:induction false} WordRunOfConcat(w: string, rest: string)
    requires AllWordChars(w)
    requires |rest| > 0 ==> !IsWordChar(rest[0])
    ensures WordRun(w + rest) == w
    decreases |w|
  {
    if |w| > 0 {
      assert (w + rest)[1..] == w[1..] + rest;
      WordRunOfConcat(w[1..], rest);
    } else {
      assert w + rest == rest;
    }
  }

  /** A word followed by `+` is one token, and the scan resumes after the `+`. */
  lemma TokensStep(w: string, tail: string)
    requires |w| > 0 && AllWordChars(w)
    ensures Tokens(w + "+" + tail) == [w] + Tokens(tail)
  {
    var s := w + "+" + tail;
    var rest := "+" + tail;
    assert s == w + rest;
    TokenAtWord(w, rest);
    assert s[|w|..] == rest;
    assert rest[1..] == tail;
  }

  /** Splitting the `+`-joined symbols into tokens gives the words back. */
  lemma {:induction false} TokensOfJoin(words: seq<string>)
    requires forall k :: 0 <= k < |words| ==> |words[k]| > 0 && AllWordChars(words[k])
    ensures Tokens(JoinPlus(words)) == words
    decreases |words|
  {
    if |words| == 1 {
      TokenAtWord(words[0], "");
      assert words[0] + "" == words[0];
      assert words[0][|words[0]|..] == "";
    } else if |words| > 1 {
      assert JoinPlus(words) == words[0] + "+" + JoinPlus(words[1..]);
      TokensStep(words[0], JoinPlus(words[1..]));
      assert forall k :: 0 <= k < |words[1..]| ==> words[1..][k] == words[k + 1];
      TokensOfJoin(words[1..]);
      assert words == [words[0]] + words[1..];
    }
  }

  /** A layout tagged with its group number, the way XKB writes every layout after the first. */
  function Tagged(layout: string, group: char): string
  {
    layout + ":" + [group]
  }

  /** The tagged layouts, then options that carry no group suffix. */
  function TaggedWords(rest: seq<(string, char)>): (r: seq<string>)
    ensures |r| == |rest|
    ensures forall k :: 0 <= k < |r| ==> r[k] == Tagged(rest[k].0, rest[k].1)
  {
    if |rest| == 0 then [] else [Tagged(rest[0].0, rest[0].1)] + TaggedWords(rest[1..])
  }

  function Layouts(rest: seq<(string, char)>): (r: seq<string>)
    ensures |r| == |rest|
    ensures forall k :: 0 <= k < |r| ==> r[k] == rest[k].0
  {
    if |rest| == 0 then [] else [rest[0].0] + Layouts(rest[1..])
  }

  lemma {:induction false} PostfixNamesTagged(rest: seq<(string, char)>)
    requires forall k :: 0 <= k < |rest| ==> Text.IsDigit(rest[k].1)
    ensures PostfixNames(TaggedWords(rest)) == Layouts(rest)
    decreases |rest|
  {
    if |rest| > 0 {
      var t := Tagged(rest[0].0, rest[0].1);
      assert HasPostfix(t) && DropPostfix(t) == rest[0].0;
      assert TaggedWords(rest)[1..] == TaggedWords(rest[1..]);
      PostfixNamesTagged(rest[1..]);
    }
  }

  lemma {:induction false} PostfixNamesPlain(words: seq<string>)
    requires forall k :: 0 <= k < |words| ==> !HasPostfix(words[k])
    ensures PostfixNames(words) == []
    decreases |words|
  {
    if |words| > 0 {
      PostfixNamesPlain(words[1..]);
    }
  }

  /** A layout name as XKB writes it: word characters, no group suffix of its own. */
  predicate IsLayoutName(l: string)
  {
    |l| > 0 && AllWordChars(l) && !HasPostfix(l)
  }

  /** The symbols `pc+w0+w1+...` parse to `w0` and the suffixed words without their suffix. */
  lemma ParseJoined(words: seq<string>)
    requires |words| > 0
    requires forall k :: 0 <= k < |words| ==> |words[k]| > 0 && AllWordChars(words[k])
    ensures var names := [words[0]] + PostfixNames(words);
      ParseGroupNames(Utf8.Encode("pc+" + JoinPlus(words)))
        == Ok(if |names| > MaxGroups then names[..MaxGroups] else names)
  {
    var s := "pc+" + JoinPlus(words);
    Utf8.DecodeStrictEncode(s);
    assert s[..2] == "pc" && s[2] == '+' && s[3..] == JoinPlus(words);
    TokensOfJoin(words);
  }

  /** The words of `l0`, the tagged layouts and the options are all made of word characters. */
  lemma SymbolWords(first: string, rest: seq<(string, char)>, options: seq<string>)
    requires IsLayoutName(first)
    requires forall k :: 0 <= k < |rest| ==> IsLayoutName(rest[k].0) && Text.IsDigit(rest[k].1)
    requires forall k :: 0 <= k < |options| ==> IsLayoutName(options[k])
    ensures var words := [first] + TaggedWords(rest) + options;
      forall k :: 0 <= k < |words| ==> |words[k]| > 0 && AllWordChars(words[k])
  {
    var words := [first] + TaggedWords(rest) + options;
    forall k | 0 <= k < |words|
      ensures |words[k]| > 0 && AllWordChars(words[k])
    {
      if 1 <= k < 1 + |rest| {
        assert words[k] == Tagged(rest[k - 1].0, rest[k - 1].1);
        assert IsWordChar(':') && IsWordChar(rest[k - 1].1);
      } else if k >= 1 + |rest| {
        assert words[k] == options[k - 1 - |rest|];
      }
    }
  }

  /**
   * For symbols `pc+l0+l1:2+...+option...`, the group names are the layouts
   * themselves, in order, cut to four.
   */
  lemma ParseSymbols(first: string, rest: seq<(string, char)>, options: seq<string>)
    requires IsLayoutName(first)
    requires forall k :: 0 <= k < |rest| ==> IsLayoutName(rest[k].0) && Text.IsDigit(rest[k].1)
    requires forall k :: 0 <= k < |options| ==> IsLayoutName(options[k])
    ensures var names := [first] + Layouts(rest);
      ParseGroupNames(Utf8.Encode("pc+" + JoinPlus([first] + TaggedWords(rest) + options)))
        == Ok(if |names| > MaxGroups then names[..MaxGroups] else names)
  {
    var words := [first] + TaggedWords(rest) + options;
    SymbolWords(first, rest, options);
    ParseJoined(words);
    SymbolPostfixNames(first, rest, options);
    assert words[0] == first;
  }

  lemma SymbolPostfixNames(first: string, rest: seq<(string, char)>, options: seq<string>)
    requires IsLayoutName(first)
    requires forall k :: 0 <= k < |rest| ==> Text.IsDigit(rest[k].1)
    requires forall k :: 0 <= k < |options| ==> IsLayoutName(options[k])
    ensures PostfixNames([first] + TaggedWords(rest) + options) == Layouts(rest)
  {
    var tagged := TaggedWords(rest);
    var tail := tagged + options;
    assert [first] + tagged + options == [first] + tail;
    PostfixNamesAppend([first], tail);
    PostfixNamesPlain([first]);
    assert PostfixNames([first] + tail) == PostfixNames(tail);
    PostfixNamesAppend(tagged, options);
    PostfixNamesPlain(options);
    assert PostfixNames(tail) == PostfixNames(tagged);
    PostfixNamesTagged(rest);
  }

  // ---------------------------------------------------------------------------
  // Groups, labels and icons
  // ---------------------------------------------------------------------------

  /** `_get_group_names_simple`: the fixed pair used without XKB access. */
  const SimpleGroups: seq<string> := ["en", "ru"]

  /** `set_next_group`: the group after `group`, wrapping to the first. */
  function NextGroup(group: nat, count: nat): (r: nat)
    ensures r == 0 || r == group + 1
    ensures r == group + 1 <==> group + 1 < count
    ensures count > 0 ==> r < count
  {
    if group + 1 >= count then 0 else group + 1
  }

  /** Pressing the switch `n` times from `group`. */
  function Switches(group: nat, count: nat, n: nat): nat
    decreases n
  {
    if n == 0 then group else Switches(NextGroup(group, count), count, n - 1)
  }

  /** From the first group, `n` switches (fewer than the count) land on group `n`. */
  lemma {:induction false} SwitchesFromFirst(count: nat, start: nat, n: nat)
    requires start + n < count
    ensures Switches(start, count, n) == start + n
    decreases n
  {
    if n > 0 {
      SwitchesFromFirst(count, start + 1, n - 1);
    }
  }

  /** Switching as many times as there are groups comes back to the starting group. */
  lemma SwitchesCycle(group: nat, count: nat)
    requires group < count
    ensures Switches(group, count, count) == group
  {
    SwitchesFromFirst(count, group, count - 1 - group);
    assert Switches(group, count, count - group) == 0 by {
      SwitchesSplit(group, count, count - 1 - group, 1);
    }
    SwitchesSplit(group, count, count - group, group);
    SwitchesFromFirst(count, 0, group);
  }

  lemma {:induction false} SwitchesSplit(group: nat, count: nat, a: nat, b: nat)
    ensures Switches(group, count, a + b) == Switches(Switches(group, count, a), count, b)
    decreases a
  {
    if a > 0 {
      SwitchesSplit(NextGroup(group, count), count, a - 1, b);
    }
  }

  /** `gt[:2]`: the text `_draw_langs_renderer` draws for a group. */
  function Label(group: string): (r: string)
    ensures |r| == (if |group| < 2 then |group| else 2)
    ensures Text.StartsWith(group, r)
  {
    Text.Take(group, 2)
  }

  const IconPrefix := "indicator-keyboard-"

  /** `'indicator-keyboard-' + gt[:2].capitalize()`: the theme icon `_draw_langs_icon_theme` looks up. */
  function IconName(group: string): (r: string)
    ensures Text.StartsWith(r, IconPrefix) && |r| == |IconPrefix| + |Label(group)|
    ensures |group| > 0 ==> r[|IconPrefix|] == Text.UpperChar(group[0])
    ensures |group| > 1 ==> r[|IconPrefix| + 1] == Text.LowerChar(group[1])
  {
    var l := Label(group);
    var c := Text.Capitalize(l);
    assert |l| > 1 ==> c[1] == c[1..][0] == Text.Lower(l[1..])[0];
    IconPrefix + c
  }

  /** One label per group, in group order. */
  function Labels(groups: seq<string>): (r: seq<string>)
    ensures |r| == |groups|
    ensures forall k :: 0 <= k < |r| ==> r[k] == Label(groups[k])
  {
    if |groups| == 0 then [] else [Label(groups[0])] + Labels(groups[1..])
  }

  /** The simple groups are drawn as `en` and `ru`, with icons `...-En` and `...-Ru`. */
  lemma SimpleGroupsDrawn()
    ensures Labels(SimpleGroups) == SimpleGroups
    ensures IconName(SimpleGroups[0]) == "indicator-keyboard-En"
    ensures IconName(SimpleGroups[1]) == "indicator-keyboard-Ru"
  {
    assert Label("en") == "en" && Label("ru") == "ru";
    assert Text.Lower("n") == "n" && Text.Lower("u") == "u";
  }
}
