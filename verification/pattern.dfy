/**
 * The fragment of Python's `re` that the v4l2-ctl output parsers use:
 * patterns that are a sequence of literals and character classes, each
 * class taken once, one-or-more or zero-or-more times, some of them inside
 * a capturing group, searched for at the leftmost position where they match.
 *
 * A repetition here takes the longest run of its class and never gives any
 * back. For a pattern in which every repetition is followed by a literal or
 * class that its own class excludes, or by the end of the pattern, that is
 * the match Python's backtracking matcher finds; every pattern of this model
 * has that shape. The one `.*` that needs backtracking (the frame rate
 * pattern) is handled where it is used.
 */
module Pattern {
  import opened Wrappers
  import Text

  /** The character classes the patterns use; `\s` is the ASCII whitespace of `Text.IsSpace`. */
  datatype Class =
    | Space            // \s
    | Digit            // [0-9]
    | UpperOrDigit     // [A-Z0-9]
    | Letter           // [A-Za-z]
    | LowerOrUnderscore // [a-z_]
    | HexDigit         // [0-9a-f]
    | Lower            // [a-z]
    | MenuText         // [0-9A-Za-z\s]
    | NotNewline       // .

  predicate InClass(c: char, cls: Class)
  {
    match cls
    case Space => Text.IsSpace(c)
    case Digit => Text.IsDigit(c)
    case UpperOrDigit => 'A' <= c <= 'Z' || Text.IsDigit(c)
    case Letter => 'A' <= c <= 'Z' || 'a' <= c <= 'z'
    case LowerOrUnderscore => 'a' <= c <= 'z' || c == '_'
    case HexDigit => Text.IsDigit(c) || 'a' <= c <= 'f'
    case Lower => 'a' <= c <= 'z'
    case MenuText => 'A' <= c <= 'Z' || 'a' <= c <= 'z' || Text.IsDigit(c) || Text.IsSpace(c)
    case NotNewline => c != '\n'
  }

  datatype Item = Lit(text: string) | One(cls: Class) | Plus(cls: Class) | Star(cls: Class)

  /** An item and the capturing group it belongs to (0: none). */
  datatype Part = Part(item: Item, group: nat)

  /** The length of the run of `cls` characters starting at `i`. */
  function RunLength(s: string, i: nat, cls: Class): (n: nat)
    requires i <= |s|
    ensures i + n <= |s|
    ensures forall k :: i <= k < i + n ==> InClass(s[k], cls)
    ensures i + n < |s| ==> !InClass(s[i + n], cls)
    decreases |s| - i
  {
    if i < |s| && InClass(s[i], cls) then 1 + RunLength(s, i + 1, cls) else 0
  }

  /** Where one item ends when it starts at `i`, if it matches there. */
  function ItemEnd(item: Item, s: string, i: nat): (r: Option<nat>)
    requires i <= |s|
    ensures r.Some? ==> i <= r.value <= |s|
    ensures r.Some? && item.Lit? ==> s[i..r.value] == item.text
    ensures r.Some? && !item.Lit? ==> forall k :: i <= k < r.value ==> InClass(s[k], item.cls)
    ensures r.Some? && (item.Plus? || item.Star?) && r.value < |s| ==> !InClass(s[r.value], item.cls)
    ensures r.Some? && (item.One? || item.Plus?) ==> r.value > i
    ensures r.Some? && item.One? ==> r.value == i + 1
    ensures item.Star? ==> r.Some?
    ensures item.Lit? ==> (r.Some? <==> i + |item.text| <= |s| && s[i..i + |item.text|] == item.text)
    ensures item.One? ==> (r.Some? <==> i < |s| && InClass(s[i], item.cls))
    ensures item.Plus? ==> (r.Some? <==> i < |s| && InClass(s[i], item.cls))
  {
    match item
    case Lit(t) => if i + |t| <= |s| && s[i..i + |t|] == t then Some(i + |t|) else None
    case One(cls) => if i < |s| && InClass(s[i], cls) then Some(i + 1) else None
    case Plus(cls) => var n := RunLength(s, i, cls); if n > 0 then Some(i + n) else None
    case Star(cls) => Some(i + RunLength(s, i, cls))
  }

  /** A match: where it ends, and the text each item took with that item's group. */
  datatype Match = Match(end: nat, pieces: seq<(nat, string)>)

  /** The texts of the pieces, in order. */
  function Texts(pieces: seq<(nat, string)>): string
  {
    if |pieces| == 0 then "" else pieces[0].1 + Texts(pieces[1..])
  }

  /** The text of group `g`: the pieces that belong to it, in order. */
  function Group(pieces: seq<(nat, string)>, g: nat): string
  {
    if |pieces| == 0 then ""
    else (if pieces[0].0 == g then pieces[0].1 else "") + Group(pieces[1..], g)
  }

  /** The pattern matched from position `i`: the items one after the other. */
  function MatchAt(p: seq<Part>, s: string, i: nat): (r: Option<Match>)
    requires i <= |s|
    ensures r.Some? ==> i <= r.value.end <= |s| && |r.value.pieces| == |p|
    ensures r.Some? ==> Texts(r.value.pieces) == s[i..r.value.end]
    ensures r.Some? ==> forall k :: 0 <= k < |p| ==> r.value.pieces[k].0 == p[k].group
    decreases |p|
  {
    if |p| == 0 then Some(Match(i, []))
    else
      match ItemEnd(p[0].item, s, i)
      case None => None
      case Some(j) =>
        match MatchAt(p[1..], s, j)
        case None => None
        case Some(m) =>
          assert s[i..m.end] == s[i..j] + s[j..m.end];
          Some(Match(m.end, [(p[0].group, s[i..j])] + m.pieces))
  }

  /** The pattern matches at position `i`. */
  predicate MatchesAt(p: seq<Part>, s: string, i: nat)
  {
    i <= |s| && MatchAt(p, s, i).Some?
  }

  /** `pattern.search(s)` from position `from`: the leftmost position where the pattern matches. */
  function Search(p: seq<Part>, s: string, from: nat): (r: Option<nat>)
    requires from <= |s|
    ensures r.Some? ==> from <= r.value <= |s| && MatchesAt(p, s, r.value)
    ensures r.Some? ==> forall j :: from <= j < r.value ==> !MatchesAt(p, s, j)
    ensures r.None? ==> forall j :: from <= j <= |s| ==> !MatchesAt(p, s, j)
    decreases |s| - from
  {
    if MatchesAt(p, s, from) then Some(from)
    else if from == |s| then None
    else Search(p, s, from + 1)
  }

  /**
   * The last position in `[lo, hi]` where the pattern matches: what a greedy
   * `.*` in front of it settles on, giving back characters from the right
   * until the rest fits.
   */
  function LastMatchIn(p: seq<Part>, s: string, lo: nat, hi: nat): (r: Option<nat>)
    requires lo <= hi <= |s|
    ensures r.Some? ==> lo <= r.value <= hi && MatchesAt(p, s, r.value)
    ensures r.Some? ==> forall j :: r.value < j <= hi ==> !MatchesAt(p, s, j)
    ensures r.None? ==> forall j :: lo <= j <= hi ==> !MatchesAt(p, s, j)
  {
    var test := (j: nat) => MatchesAt(p, s, j);
    assert forall j: nat :: test(j) == MatchesAt(p, s, j);
    LastPassing(test, lo, hi)
  }

  /** The last position in `[lo, hi]` that passes `test`, scanning down from `hi`. */
  function LastPassing(test: nat -> bool, lo: nat, hi: nat): (r: Option<nat>)
    requires lo <= hi
    ensures r.Some? ==> lo <= r.value <= hi && test(r.value)
    ensures r.Some? ==> forall j :: r.value < j <= hi ==> !test(j)
    ensures r.None? ==> forall j :: lo <= j <= hi ==> !test(j)
    decreases hi
  {
    if test(hi) then Some(hi)
    else if hi == lo then None
    else LastPassing(test, lo, hi - 1)
  }

  /** The leftmost match in `s`, or None when the pattern occurs nowhere. */
  function Find(p: seq<Part>, s: string): (r: Option<Match>)
    ensures r.Some? <==> Search(p, s, 0).Some?
    ensures r.Some? ==> r == MatchAt(p, s, Search(p, s, 0).value)
  {
    match Search(p, s, 0)
    case None => None
    case Some(i) => MatchAt(p, s, i)
  }
}
