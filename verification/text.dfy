/**
 * The handful of Python string operations the applets rely on: `str(n)` of an
 * integer, `int()` of a digit string, the `^[0-9]+` prefix that `re.sub` and
 * `re.findall` use, `endswith`, `split`/`join`, `strip` and format padding.
 * Characters are Unicode scalar values; whitespace and digits are the ASCII ones.
 */
module Text {

  predicate IsDigit(c: char)
  {
    '0' <= c <= '9'
  }

  predicate AllDigits(s: string)
  {
    forall i :: 0 <= i < |s| ==> IsDigit(s[i])
  }

  function DigitChar(d: nat): (c: char)
    requires d < 10
    ensures IsDigit(c)
  {
    ('0' as int + d) as char
  }

  function DigitValue(c: char): (d: nat)
    requires IsDigit(c)
    ensures d < 10
  {
    c as int - '0' as int
  }

  /** `str(n)` for a non-negative integer. */
  function NatToString(n: nat): (s: string)
    ensures |s| > 0 && AllDigits(s)
    ensures n >= 10 ==> s[0] != '0'
    ensures n < 10 ==> |s| == 1
    ensures 10 <= n < 100 ==> |s| == 2
    decreases n
  {
    if n < 10 then [DigitChar(n)] else NatToString(n / 10) + [DigitChar(n % 10)]
  }

  /** `str(i)` for any integer. */
  function IntToString(i: int): (s: string)
    ensures |s| > 0
    ensures i >= 0 ==> AllDigits(s)
    ensures i < 0 ==> s[0] == '-' && AllDigits(s[1..])
  {
    if i < 0 then "-" + NatToString(-i) else NatToString(i)
  }

  /** `int(s)` for a non-empty string of ASCII digits (leading zeros allowed). */
  function ParseNat(s: string): (n: nat)
    requires AllDigits(s)
    decreases |s|
  {
    if |s| == 0 then 0
    else ParseNat(s[..|s| - 1]) * 10 + DigitValue(s[|s| - 1])
  }

  /** Parsing the decimal form of a number gives the number back. */
  lemma {:induction false} ParseNatToString(n: nat)
    ensures ParseNat(NatToString(n)) == n
    decreases n
  {
    if n >= 10 {
      var s := NatToString(n);
      assert s[..|s| - 1] == NatToString(n / 10);
      ParseNatToString(n / 10);
    } else {
      assert NatToString(n)[..0] == [];
    }
  }

  /** Two numbers print alike only when they are equal. */
  lemma NatToStringInjective(a: nat, b: nat)
    requires NatToString(a) == NatToString(b)
    ensures a == b
  {
    ParseNatToString(a);
    ParseNatToString(b);
  }

  /** The longest prefix of ASCII digits: what `re.findall(r'^\d+', s)` finds. */
  function LeadingDigits(s: string): (d: string)
    ensures AllDigits(d) && |d| <= |s| && d == s[..|d|]
    ensures |d| < |s| ==> !IsDigit(s[|d|])
    decreases |s|
  {
    if |s| > 0 && IsDigit(s[0]) then [s[0]] + LeadingDigits(s[1..]) else ""
  }

  /** `re.sub('^[0-9]+', '', s)`: the text after the leading digits. */
  function StripLeadingDigits(s: string): (r: string)
    ensures LeadingDigits(s) + r == s
    ensures |r| > 0 ==> !IsDigit(r[0])
  {
    s[|LeadingDigits(s)|..]
  }

  /** A digit string followed by text that starts with a non-digit splits back apart. */
  lemma {:induction false} LeadingDigitsOfConcat(d: string, rest: string)
    requires AllDigits(d)
    requires |rest| > 0 ==> !IsDigit(rest[0])
    ensures LeadingDigits(d + rest) == d
    ensures StripLeadingDigits(d + rest) == rest
    decreases |d|
  {
    if |d| > 0 {
      assert (d + rest)[1..] == d[1..] + rest;
      LeadingDigitsOfConcat(d[1..], rest);
    } else {
      assert d + rest == rest;
    }
  }

  /** The run of digits at the end of `s`. */
  function TrailingDigits(s: string): (d: string)
    ensures |d| <= |s| && d == s[|s| - |d|..] && AllDigits(d)
    ensures |d| < |s| ==> !IsDigit(s[|s| - |d| - 1])
    decreases |s|
  {
    if |s| > 0 && IsDigit(s[|s| - 1]) then TrailingDigits(s[..|s| - 1]) + [s[|s| - 1]] else ""
  }

  /** Digits after a non-digit are exactly the trailing run. */
  lemma {:induction false} TrailingDigitsAfter(pre: string, c: char, d: string)
    requires !IsDigit(c) && AllDigits(d)
    ensures TrailingDigits(pre + [c] + d) == d
    decreases |d|
  {
    var s := pre + [c] + d;
    if |d| == 0 {
      assert s[|s| - 1] == c;
    } else {
      assert s[..|s| - 1] == pre + [c] + d[..|d| - 1];
      TrailingDigitsAfter(pre, c, d[..|d| - 1]);
      assert d[..|d| - 1] + [d[|d| - 1]] == d;
    }
  }

  predicate EndsWith(s: string, suffix: string)
  {
    |suffix| <= |s| && s[|s| - |suffix|..] == suffix
  }

  predicate StartsWith(s: string, prefix: string)
  {
    |prefix| <= |s| && s[..|prefix|] == prefix
  }

  /** `sep` occurs in `s` at position `i`. */
  predicate OccursAt(s: string, sep: string, i: nat)
  {
    i + |sep| <= |s| && s[i..i + |sep|] == sep
  }

  predicate Contains(s: string, sep: string)
  {
    exists i: nat :: i <= |s| && OccursAt(s, sep, i)
  }

  /** Python's `s.split(sep)` with an explicit, non-empty separator. */
  function Split(s: string, sep: string): (parts: seq<string>)
    requires |sep| > 0
    ensures |parts| >= 1
    decreases |s|
  {
    if |s| < |sep| then [s]
    else if s[..|sep|] == sep then [""] + Split(s[|sep|..], sep)
    else
      var rest := Split(s[1..], sep);
      [[s[0]] + rest[0]] + rest[1..]
  }

  /** Python's `sep.join(parts)`. */
  function Join(parts: seq<string>, sep: string): string
  {
    if |parts| == 0 then ""
    else if |parts| == 1 then parts[0]
    else parts[0] + sep + Join(parts[1..], sep)
  }

  /** A string in which `sep` never occurs splits into itself. */
  lemma {:induction false} SplitWithoutSeparator(a: string, sep: string)
    requires |sep| > 0
    requires forall i: nat :: i < |a| ==> !OccursAt(a, sep, i)
    ensures Split(a, sep) == [a]
    decreases |a|
  {
    if |a| >= |sep| {
      assert !OccursAt(a, sep, 0);
      forall i: nat | i < |a[1..]| ensures !OccursAt(a[1..], sep, i) {
        assert !OccursAt(a, sep, i + 1);
        if i + |sep| <= |a[1..]| {
          assert a[1..][i..i + |sep|] == a[i + 1..i + 1 + |sep|];
        }
      }
      SplitWithoutSeparator(a[1..], sep);
      assert [a[0]] + a[1..] == a;
    }
  }

  /** `split` cuts at the first occurrence of the separator. */
  lemma {:induction false} SplitAtFirst(a: string, sep: string, b: string)
    requires |sep| > 0
    requires forall i: nat :: i < |a| ==> !OccursAt(a + sep + b, sep, i)
    ensures Split(a + sep + b, sep) == [a] + Split(b, sep)
    decreases |a|
  {
    var s := a + sep + b;
    if |a| == 0 {
      assert s == sep + b;
      assert s[..|sep|] == sep;
      assert s[|sep|..] == b;
    } else {
      assert !OccursAt(s, sep, 0);
      assert s[1..] == a[1..] + sep + b;
      forall i: nat | i < |a[1..]| ensures !OccursAt(a[1..] + sep + b, sep, i) {
        assert !OccursAt(s, sep, i + 1);
        if i + |sep| <= |s[1..]| {
          assert s[1..][i..i + |sep|] == s[i + 1..i + 1 + |sep|];
        }
      }
      SplitAtFirst(a[1..], sep, b);
      assert [a[0]] + a[1..] == a;
    }
  }

  /** Splitting `a + sep + b` recovers the pair when `sep` occurs nowhere else. */
  lemma SplitPair(a: string, sep: string, b: string)
    requires |sep| > 0
    requires forall i: nat :: i < |a| ==> !OccursAt(a + sep + b, sep, i)
    requires forall i: nat :: i < |b| ==> !OccursAt(b, sep, i)
    ensures Split(a + sep + b, sep) == [a, b]
  {
    SplitAtFirst(a, sep, b);
    SplitWithoutSeparator(b, sep);
  }

  /** A single-character separator that occurs in neither half splits them apart. */
  lemma SplitOnChar(a: string, c: char, b: string)
    requires c !in a && c !in b
    ensures Split(a + [c] + b, [c]) == [a, b]
  {
    var s := a + [c] + b;
    forall i: nat | i < |a| ensures !OccursAt(s, [c], i) {
      assert s[i..i + 1] == [a[i]];
    }
    forall i: nat | i < |b| ensures !OccursAt(b, [c], i) {
      assert b[i..i + 1] == [b[i]];
    }
    SplitPair(a, [c], b);
  }

  /** Splitting `sep.join(parts)` on a one-character separator that no part contains gives the parts back. */
  lemma {:induction false} SplitJoin(parts: seq<string>, c: char)
    requires |parts| > 0
    requires forall k :: 0 <= k < |parts| ==> c !in parts[k]
    ensures Split(Join(parts, [c]), [c]) == parts
    decreases |parts|
  {
    var a := parts[0];
    if |parts| == 1 {
      forall i: nat | i < |a| ensures !OccursAt(a, [c], i) {
        assert a[i..i + 1] == [a[i]];
      }
      SplitWithoutSeparator(a, [c]);
    } else {
      var b := Join(parts[1..], [c]);
      var s := a + [c] + b;
      forall i: nat | i < |a| ensures !OccursAt(s, [c], i) {
        assert s[i..i + 1] == [a[i]];
      }
      SplitAtFirst(a, [c], b);
      SplitJoin(parts[1..], c);
    }
  }

  lemma JoinThree(a: string, b: string, c: string, sep: string)
    ensures Join([a, b, c], sep) == a + sep + b + sep + c
  {
    assert Join([b, c], sep) == b + sep + c by {
      assert [b, c][1..] == [c];
    }
    assert Join([a, b, c], sep) == a + sep + Join([b, c], sep) by {
      assert [a, b, c][1..] == [b, c];
    }
  }

  /** Joining what `split` cut, on the same separator, gives the string back. */
  lemma {:induction false} JoinSplit(s: string, sep: string)
    requires |sep| > 0
    ensures Join(Split(s, sep), sep) == s
    decreases |s|
  {
    if |s| < |sep| {
    } else if s[..|sep|] == sep {
      var t := s[|sep|..];
      var rest := Split(t, sep);
      assert Split(s, sep) == [""] + rest;
      assert Join([""] + rest, sep) == sep + Join(rest, sep) by {
        assert ([""] + rest)[1..] == rest;
      }
      JoinSplit(t, sep);
      assert s == sep + t;
    } else {
      var rest := Split(s[1..], sep);
      var parts := [[s[0]] + rest[0]] + rest[1..];
      assert Split(s, sep) == parts;
      assert Join(parts, sep) == [s[0]] + Join(rest, sep) by {
        assert parts[1..] == rest[1..];
        if |rest| > 1 {
          assert Join(rest, sep) == rest[0] + sep + Join(rest[1..], sep);
        }
      }
      JoinSplit(s[1..], sep);
      assert s == [s[0]] + s[1..];
    }
  }

  /** A character absent from `s` is absent from every part `split` cuts it into. */
  lemma {:induction false} SplitKeepsOut(s: string, sep: string, c: char)
    requires |sep| > 0 && c !in s
    ensures forall k :: 0 <= k < |Split(s, sep)| ==> c !in Split(s, sep)[k]
    decreases |s|
  {
    if |s| < |sep| {
    } else if s[..|sep|] == sep {
      assert c !in s[|sep|..] by { assert forall j :: |sep| <= j < |s| ==> s[|sep|..][j - |sep|] == s[j]; }
      SplitKeepsOut(s[|sep|..], sep, c);
    } else {
      assert c !in s[1..] by { assert forall j :: 1 <= j < |s| ==> s[1..][j - 1] == s[j]; }
      SplitKeepsOut(s[1..], sep, c);
      var rest := Split(s[1..], sep);
      assert c !in [s[0]] + rest[0];
    }
  }

  /** The ASCII characters Python's `str.isspace` accepts: space, `\t` to `\r`, and the separators `\x1c` to `\x1f`. */
  predicate IsSpace(c: char)
  {
    c == ' ' || '\t' <= c <= '\r' || '\U{1C}' <= c <= '\U{1F}'
  }

  /** `s.lstrip()`. */
  function LStrip(s: string): (r: string)
    ensures |r| <= |s| && r == s[|s| - |r|..]
    ensures |r| > 0 ==> !IsSpace(r[0])
    decreases |s|
  {
    if |s| > 0 && IsSpace(s[0]) then LStrip(s[1..]) else s
  }

  /** `s.rstrip()`. */
  function RStrip(s: string): (r: string)
    ensures |r| <= |s| && r == s[..|r|]
    ensures |r| > 0 ==> !IsSpace(r[|r| - 1])
    decreases |s|
  {
    if |s| > 0 && IsSpace(s[|s| - 1]) then RStrip(s[..|s| - 1]) else s
  }

  /** `rstrip` takes off a trailing newline and nothing more from text that ends in a non-space. */
  lemma RStripNewline(s: string)
    requires |s| > 0 && !IsSpace(s[|s| - 1])
    ensures RStrip(s + "\n") == s
  {
    assert (s + "\n")[..|s|] == s;
  }

  /** `s.strip()`. */
  function Strip(s: string): string
  {
    RStrip(LStrip(s))
  }

  /** The longest prefix without whitespace. */
  function NonSpaceRun(s: string): (w: string)
    ensures |w| <= |s| && w == s[..|w|]
    ensures forall k :: 0 <= k < |w| ==> !IsSpace(w[k])
    ensures |w| < |s| ==> IsSpace(s[|w|])
    decreases |s|
  {
    if |s| > 0 && !IsSpace(s[0]) then [s[0]] + NonSpaceRun(s[1..]) else ""
  }

  /** A non-empty run of non-whitespace characters. */
  predicate IsWord(w: string)
  {
    |w| > 0 && forall j :: 0 <= j < |w| ==> !IsSpace(w[j])
  }

  /** `s.split()`: the maximal runs of non-whitespace, in order. */
  function Words(s: string): (ws: seq<string>)
    ensures forall k :: 0 <= k < |ws| ==> IsWord(ws[k])
    decreases |s|
  {
    var t := LStrip(s);
    if |t| == 0 then []
    else
      var w := NonSpaceRun(t);
      [w] + Words(t[|w|..])
  }

  /** `'{:02d}'.format(n)`: at least two digits, zero-padded. */
  function ZeroPad2(n: nat): (s: string)
    ensures AllDigits(s) && |s| >= 2
    ensures n < 100 ==> |s| == 2
  {
    if n < 10 then "0" + NatToString(n) else NatToString(n)
  }

  /** `'{:2d}'.format(n)`: at least two characters, space-padded on the left. */
  function SpacePad2(n: nat): (s: string)
    ensures |s| >= 2
    ensures n < 100 ==> |s| == 2
  {
    if n < 10 then " " + NatToString(n) else NatToString(n)
  }

  /** A two-digit zero-padded number parses back to itself. */
  lemma ParseZeroPad2(n: nat)
    requires n < 100
    ensures ParseNat(ZeroPad2(n)) == n
  {
    ParseNatToString(n);
    if n < 10 {
      var s := ZeroPad2(n);
      assert s[..1] == "0";
      assert ParseNat(s[..1]) == 0 by {
        assert "0"[..0] == [];
      }
    }
  }

  /** The ASCII part of `str.upper` / `str.lower`. */
  function UpperChar(c: char): char
  {
    if 'a' <= c <= 'z' then (c as int - 32) as char else c
  }

  function LowerChar(c: char): char
  {
    if 'A' <= c <= 'Z' then (c as int + 32) as char else c
  }

  function Lower(s: string): (r: string)
    ensures |r| == |s|
  {
    if |s| == 0 then "" else [LowerChar(s[0])] + Lower(s[1..])
  }

  /** `s.capitalize()`: first character upper case, the rest lower case. */
  function Capitalize(s: string): (r: string)
    ensures |r| == |s|
    ensures |s| > 0 ==> r[0] == UpperChar(s[0]) && r[1..] == Lower(s[1..])
  {
    if |s| == 0 then "" else [UpperChar(s[0])] + Lower(s[1..])
  }

  /** Python's `s[:n]` for a non-negative n: at most the first n characters. */
  function Take(s: string, n: nat): (r: string)
    ensures |r| == if n < |s| then n else |s|
    ensures r == s[..|r|]
  {
    if n < |s| then s[..n] else s
  }
}
