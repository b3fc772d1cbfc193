/**
 * The webcam applet's reading of `v4l2-ctl` output (`V4l2Ctl` of
 * webcam/core.py): the current format, the list of supported formats, the
 * controls with their parameters and menus, and the shell script and
 * command lines that set them. The output of each `v4l2-ctl` call is given
 * as its list of lines; which device node exists is the `cam` parameter.
 */
module Webcam {
  import opened Wrappers
  import Text
  import opened Pattern
  import opened Dicts

  // ---------------------------------------------------------------------------
  // The patterns
  // ---------------------------------------------------------------------------

  function P(item: Item): Part { Part(item, 0) }
  function G(item: Item, g: nat): Part { Part(item, g) }

  /** `CTRL_RE`: `\s+([a-z_]+)\s0x[0-9a-f]+\s\(([a-z]+)\)\s+:(.+)`. */
  const CtrlRe: seq<Part> := [
    P(Plus(Space)), G(Plus(LowerOrUnderscore), 1), P(One(Space)), P(Lit("0x")), P(Plus(HexDigit)),
    P(One(Space)), P(Lit("(")), G(Plus(Lower), 2), P(Lit(")")), P(Plus(Space)), P(Lit(":")),
    G(Plus(NotNewline), 3)]

  /** `MENU_RE`: `\s+([0-9]+):\s([0-9A-Za-z\s]+)`. */
  const MenuRe: seq<Part> := [
    P(Plus(Space)), G(Plus(Digit), 1), P(Lit(":")), P(One(Space)), G(Plus(MenuText), 2)]

  /** `PIX_RE`: `\s+\[[0-9]+\]:\s'([A-Z0-9]+)'`. */
  const PixRe: seq<Part> := [
    P(Plus(Space)), P(Lit("[")), P(Plus(Digit)), P(Lit("]:")), P(One(Space)), P(Lit("'")),
    G(Plus(UpperOrDigit), 1), P(Lit("'"))]

  /** `RES_RE`: `\s+Size:\s[A-Za-z]+\s([0-9]+x[0-9]+)`. */
  const ResRe: seq<Part> := [
    P(Plus(Space)), P(Lit("Size:")), P(One(Space)), P(Plus(Letter)), P(One(Space)),
    G(Plus(Digit), 1), G(Lit("x"), 1), G(Plus(Digit), 1)]

  /** The part of `FPS_RE` before its `.*`: `\s+Interval:\s`. */
  const IntervalRe: seq<Part> := [P(Plus(Space)), P(Lit("Interval:")), P(One(Space))]

  /** The part of `FPS_RE` after its `.*`: `\(([0-9]+)\.[0-9]+\sfps\)`. */
  const FpsTailRe: seq<Part> := [
    P(Lit("(")), G(Plus(Digit), 1), P(Lit(".")), P(Plus(Digit)), P(One(Space)), P(Lit("fps)"))]

  /** `PIX_FMT_RE`: `\s+Pixel\sFormat\s*:\s'([A-Z0-9]+)'`. */
  const PixFmtRe: seq<Part> := [
    P(Plus(Space)), P(Lit("Pixel")), P(One(Space)), P(Lit("Format")), P(Star(Space)), P(Lit(":")),
    P(One(Space)), P(Lit("'")), G(Plus(UpperOrDigit), 1), P(Lit("'"))]

  /** `PARM_RE`: `\s+Frames\sper\ssecond\s*:\s([0-9]+)\.`. */
  const ParmRe: seq<Part> := [
    P(Plus(Space)), P(Lit("Frames")), P(One(Space)), P(Lit("per")), P(One(Space)), P(Lit("second")),
    P(Star(Space)), P(Lit(":")), P(One(Space)), G(Plus(Digit), 1), P(Lit("."))]

  /** `m.group(g)` of `pattern.search(s)`, or None without a match. */
  function SearchGroup(p: seq<Part>, s: string, g: nat): (r: Option<string>)
    ensures r.Some? <==> Find(p, s).Some?
  {
    match Find(p, s)
    case None => None
    case Some(m) => Some(Group(m.pieces, g))
  }

  /** `FPS_RE` matched at position `i`: the frame-rate digits, if it matches there. */
  function FpsAt(s: string, i: nat): Option<string>
    requires i <= |s|
  {
    match MatchAt(IntervalRe, s, i)
    case None => None
    case Some(m) =>
      match LastMatchIn(FpsTailRe, s, m.end, m.end + RunLength(s, m.end, NotNewline))
      case None => None
      case Some(p) => Some(Group(MatchAt(FpsTailRe, s, p).value.pieces, 1))
  }

  /** `FPS_RE.search(s).group(1)`: the leftmost position where the whole pattern matches. */
  function FpsSearch(s: string, from: nat): (r: Option<string>)
    requires from <= |s|
    ensures r.None? ==> forall j :: from <= j <= |s| ==> FpsAt(s, j).None?
    decreases |s| - from
  {
    if FpsAt(s, from).Some? then FpsAt(s, from)
    else if from == |s| then None
    else FpsSearch(s, from + 1)
  }

  // ---------------------------------------------------------------------------
  // get_format
  // ---------------------------------------------------------------------------

  /** `[pix, res, fps]`; a field the output did not give stays None. */
  datatype VideoFormat = VideoFormat(pix: Option<string>, res: Option<string>, fps: Option<string>)

  /** Why `get_format` raises on a `Width/Height` line: no `:` (IndexError), or not two `/`-separated parts (ValueError). */
  datatype FormatError = NoColon | NotTwoSizes

  predicate IsSizeLine(l: string)
  {
    Text.StartsWith(Text.LStrip(l), "Width/Height")
  }

  /** `w, h = l.split(':')[1].strip().split('/')` and `f'{w}x{h}'`. */
  function Resolution(l: string): (r: Result<string, FormatError>)
    ensures r == Err(NoColon) <==> |Text.Split(l, ":")| < 2
    ensures r == Err(NotTwoSizes) <==>
      |Text.Split(l, ":")| >= 2 && |Text.Split(Text.Strip(Text.Split(l, ":")[1]), "/")| != 2
    ensures r.Ok? <==>
      |Text.Split(l, ":")| >= 2 && |Text.Split(Text.Strip(Text.Split(l, ":")[1]), "/")| == 2
    ensures r.Ok? ==> var wh := Text.Split(Text.Strip(Text.Split(l, ":")[1]), "/");
      |wh| == 2 && r.value == wh[0] + "x" + wh[1]
  {
    var parts := Text.Split(l, ":");
    if |parts| < 2 then Err(NoColon)
    else
      var wh := Text.Split(Text.Strip(parts[1]), "/");
      if |wh| != 2 then Err(NotTwoSizes) else Ok(wh[0] + "x" + wh[1])
  }

  /** What a `--get-fmt-video` line is to the first loop of `get_format`, tested in its order. */
  datatype FmtLine = SizeLine(res: Result<string, FormatError>) | PixFmtLine(pix: string) | OtherFmtLine

  function FmtClass(l: string): FmtLine
  {
    if IsSizeLine(l) then SizeLine(Resolution(l))
    else
      match SearchGroup(PixFmtRe, l, 1)
      case Some(pix) => PixFmtLine(pix)
      case None => OtherFmtLine
  }

  function FmtClasses(lines: seq<string>): (r: seq<FmtLine>)
    ensures |r| == |lines|
    ensures forall i :: 0 <= i < |lines| ==> r[i] == FmtClass(lines[i])
  {
    if |lines| == 0 then [] else [FmtClass(lines[0])] + FmtClasses(lines[1..])
  }

  /** The first loop of `get_format`: sizes until the first pixel-format line, which ends it. */
  function ScanFormat(kinds: seq<FmtLine>, res: Option<string>): (r: Result<(Option<string>, Option<string>), FormatError>)
    decreases |kinds|
  {
    if |kinds| == 0 then Ok((None, res))
    else
      match kinds[0]
      case SizeLine(Err(e)) => Err(e)
      case SizeLine(Ok(wh)) => ScanFormat(kinds[1..], Some(wh))
      case PixFmtLine(pix) => Ok((Some(pix), res))
      case OtherFmtLine => ScanFormat(kinds[1..], res)
  }

  /** The last value present: the frame rate of the last `--get-parm` line that gives one. */
  function LastSome(xs: seq<Option<string>>): Option<string>
  {
    if |xs| == 0 then None else xs[|xs| - 1].OrElse(LastSome(xs[..|xs| - 1]))
  }

  lemma LastSomeStep(xs: seq<Option<string>>, i: nat)
    requires i < |xs|
    ensures LastSome(xs[..i + 1]) == if xs[i].Some? then xs[i] else LastSome(xs[..i])
  {
    assert xs[..i + 1][..i] == xs[..i];
  }

  function ParmValues(lines: seq<string>): (r: seq<Option<string>>)
    ensures |r| == |lines|
    ensures forall i :: 0 <= i < |lines| ==> r[i] == SearchGroup(ParmRe, lines[i], 1)
  {
    if |lines| == 0 then [] else [SearchGroup(ParmRe, lines[0], 1)] + ParmValues(lines[1..])
  }

  /** `get_format()` on the lines of `--get-fmt-video` and of `--get-parm`. */
  method GetFormat(fmtLines: seq<string>, parmLines: seq<string>) returns (r: Result<VideoFormat, FormatError>)
    ensures r.Err? <==> ScanFormat(FmtClasses(fmtLines), None).Err?
    ensures r.Ok? ==> r.value.pix == ScanFormat(FmtClasses(fmtLines), None).value.0
    ensures r.Ok? ==> r.value.res == ScanFormat(FmtClasses(fmtLines), None).value.1
    ensures r.Ok? ==> r.value.fps == LastSome(ParmValues(parmLines))
  {
    var scanned := ScanFormat(FmtClasses(fmtLines), None);
    if scanned.Err? {
      return Err(scanned.error);
    }
    var values := ParmValues(parmLines);
    var fps: Option<string> := None;
    var i := 0;
    while i < |values|
      invariant 0 <= i <= |values|
      invariant fps == LastSome(values[..i])
    {
      LastSomeStep(values, i);
      if values[i].Some? {
        fps := values[i];
      }
      i := i + 1;
    }
    assert values[..i] == values;
    return Ok(VideoFormat(scanned.value.0, scanned.value.1, fps));
  }

  /**
   * The scan stops at the first pixel-format line: what follows it is never
   * read, and the size carried so far is the result's size.
   */
  lemma {:induction false} ScanStopsAtPixelFormat(kinds: seq<FmtLine>, res: Option<string>, k: nat)
    requires k < |kinds| && kinds[k].PixFmtLine?
    requires forall j :: 0 <= j < k ==> kinds[j].OtherFmtLine?
    ensures ScanFormat(kinds, res) == Ok((Some(kinds[k].pix), res))
    decreases k
  {
    if k > 0 {
      ScanStopsAtPixelFormat(kinds[1..], res, k - 1);
    }
  }

  /** Lines after the first pixel-format line are never read. */
  lemma {:induction false} ScanIgnoresRest(kinds: seq<FmtLine>, more: seq<FmtLine>, res: Option<string>)
    requires exists k :: 0 <= k < |kinds| && kinds[k].PixFmtLine?
    ensures ScanFormat(kinds + more, res) == ScanFormat(kinds, res)
    decreases |kinds|
  {
    assert (kinds + more)[0] == kinds[0];
    if !kinds[0].PixFmtLine? {
      var k :| 0 <= k < |kinds| && kinds[k].PixFmtLine?;
      assert kinds[1..][k - 1].PixFmtLine?;
      assert (kinds + more)[1..] == kinds[1..] + more;
      match kinds[0]
      case SizeLine(Err(_)) =>
      case SizeLine(Ok(wh)) => ScanIgnoresRest(kinds[1..], more, Some(wh));
      case OtherFmtLine => ScanIgnoresRest(kinds[1..], more, res);
    }
  }

  /** A size line that parses replaces the size carried so far. */
  lemma ScanTakesSize(wh: string, rest: seq<FmtLine>, res: Option<string>)
    ensures ScanFormat([SizeLine(Ok(wh))] + rest, res) == ScanFormat(rest, Some(wh))
  {
    assert ([SizeLine(Ok(wh))] + rest)[1..] == rest;
  }

  // ---------------------------------------------------------------------------
  // read_formats
  // ---------------------------------------------------------------------------

  /** The first of the three patterns a `--list-formats-ext` line matches, tried in the order of `read_formats`. */
  datatype FormatLine = PixLine(pix: string) | ResLine(res: string) | IntervalLine(fps: string) | OtherLine

  function Classify(l: string): FormatLine
  {
    match SearchGroup(PixRe, l, 1)
    case Some(p) => PixLine(p)
    case None =>
      match SearchGroup(ResRe, l, 1)
      case Some(r) => ResLine(r)
      case None =>
        match FpsSearch(l, 0)
        case Some(f) => IntervalLine(f)
        case None => OtherLine
  }

  /** The classification of every line, in order. */
  function Classes(lines: seq<string>): (r: seq<FormatLine>)
    ensures |r| == |lines|
    ensures forall i :: 0 <= i < |lines| ==> r[i] == Classify(lines[i])
  {
    if |lines| == 0 then [] else [Classify(lines[0])] + Classes(lines[1..])
  }

  /** One entry of `read_formats`: `[pix, res, fps]`. */
  datatype Format = Format(pix: Option<string>, res: Option<string>, fps: string)

  /** The pixel format of the last pixel-format line, if any. */
  function LastPix(kinds: seq<FormatLine>): Option<string>
  {
    if |kinds| == 0 then None
    else if kinds[|kinds| - 1].PixLine? then Some(kinds[|kinds| - 1].pix)
    else LastPix(kinds[..|kinds| - 1])
  }

  /** The size of the last size line, if any. */
  function LastSize(kinds: seq<FormatLine>): Option<string>
  {
    if |kinds| == 0 then None
    else if kinds[|kinds| - 1].ResLine? then Some(kinds[|kinds| - 1].res)
    else LastSize(kinds[..|kinds| - 1])
  }

  /**
   * The formats the output lists: one for each interval line, with the
   * pixel format and size of the latest such lines above it.
   */
  function Listed(kinds: seq<FormatLine>): seq<Format>
  {
    if |kinds| == 0 then []
    else
      var before := kinds[..|kinds| - 1];
      Listed(before)
        + match kinds[|kinds| - 1]
          case IntervalLine(f) => [Format(LastPix(before), LastSize(before), f)]
          case _ => []
  }

  function CountIntervals(kinds: seq<FormatLine>): nat
  {
    if |kinds| == 0 then 0
    else CountIntervals(kinds[..|kinds| - 1]) + (if kinds[|kinds| - 1].IntervalLine? then 1 else 0)
  }

  /** What one more line adds to the carried pixel format, size and list. */
  lemma ListedStep(kinds: seq<FormatLine>, i: nat)
    requires i < |kinds|
    ensures var before, now := kinds[..i], kinds[..i + 1];
      LastPix(now) == (if kinds[i].PixLine? then Some(kinds[i].pix) else LastPix(before))
      && LastSize(now) == (if kinds[i].ResLine? then Some(kinds[i].res) else LastSize(before))
      && Listed(now) == Listed(before)
        + (if kinds[i].IntervalLine? then [Format(LastPix(before), LastSize(before), kinds[i].fps)] else [])
      && CountIntervals(now) == CountIntervals(before) + (if kinds[i].IntervalLine? then 1 else 0)
  {
    assert kinds[..i + 1][..i] == kinds[..i];
  }

  /** `read_formats()` on the lines of `--list-formats-ext`. */
  method ReadFormats(lines: seq<string>) returns (formats: seq<Format>)
    ensures formats == Listed(Classes(lines))
    ensures |formats| == CountIntervals(Classes(lines))
  {
    formats := ListFormats(Classes(lines));
  }

  /** The loop of `read_formats()` over the classified lines. */
  method ListFormats(kinds: seq<FormatLine>) returns (formats: seq<Format>)
    ensures formats == Listed(kinds)
    ensures |formats| == CountIntervals(kinds)
  {
    var pix: Option<string> := None;
    var res: Option<string> := None;
    formats := [];
    var i := 0;
    while i < |kinds|
      invariant 0 <= i <= |kinds|
      invariant pix == LastPix(kinds[..i]) && res == LastSize(kinds[..i])
      invariant formats == Listed(kinds[..i]) && |formats| == CountIntervals(kinds[..i])
    {
      ListedStep(kinds, i);
      match kinds[i] {
        case PixLine(p) =>
          pix := Some(p);
        case ResLine(r) =>
          res := Some(r);
        case IntervalLine(f) =>
          formats := formats + [Format(pix, res, f)];
        case OtherLine =>
      }
      i := i + 1;
    }
    assert kinds[..i] == kinds;
  }

  // ---------------------------------------------------------------------------
  // read_controls
  // ---------------------------------------------------------------------------

  /** `[type, params]`, with a third element, the menu, for `menu` controls. */
  datatype Control = Control(ctype: string, params: Dict<string>, menu: Option<Dict<string>>)

  /** Why `read_controls` raises: a parameter with more than one `=` (ValueError), or a menu item before any control (KeyError). */
  datatype ControlError = BadParam(token: string) | MenuBeforeControl

  /** A parameter token: it contains `=`. */
  predicate IsParam(w: string)
  {
    '=' in w
  }

  /** The loop over `params.split()`: every token with `=` sets its key. */
  function AddParams(acc: Dict<string>, words: seq<string>): (r: Result<Dict<string>, string>)
    ensures r.Ok? <==> forall w :: w in words && IsParam(w) ==> |Text.Split(w, "=")| == 2
    ensures r.Err? ==> r.error in words && IsParam(r.error) && |Text.Split(r.error, "=")| != 2
    decreases |words|
  {
    if |words| == 0 then Ok(acc)
    else
      var w := words[0];
      assert forall x :: x in words <==> x == w || x in words[1..];
      if !IsParam(w) then AddParams(acc, words[1..])
      else
        var kv := Text.Split(w, "=");
        if |kv| != 2 then Err(w)
        else AddParams(Put(acc, kv[0], kv[1]), words[1..])
  }

  /** Every parameter entry was there before or comes from a token `key=value`. */
  lemma {:induction false} AddParamsFromTokens(acc: Dict<string>, words: seq<string>, e: (string, string))
    requires AddParams(acc, words).Ok? && e in AddParams(acc, words).value
    ensures e in acc || exists w :: w in words && Text.Split(w, "=") == [e.0, e.1]
    decreases |words|
  {
    if |words| > 0 {
      var w := words[0];
      if !IsParam(w) {
        AddParamsFromTokens(acc, words[1..], e);
        if e !in acc {
          var w' :| w' in words[1..] && Text.Split(w', "=") == [e.0, e.1];
          assert w' in words;
        }
      } else {
        var kv := Text.Split(w, "=");
        var next := Put(acc, kv[0], kv[1]);
        AddParamsFromTokens(next, words[1..], e);
        if e in next {
          if e !in acc {
            assert e == (kv[0], kv[1]);
            assert kv == [e.0, e.1];
            assert w in words;
          }
        } else {
          var w' :| w' in words[1..] && Text.Split(w', "=") == [e.0, e.1];
          assert w' in words;
        }
      }
    }
  }

  /** No key is lost, and every token with `=` has set its key. */
  lemma {:induction false} AddParamsKeys(acc: Dict<string>, words: seq<string>)
    requires AddParams(acc, words).Ok?
    ensures forall k :: k in Keys(acc) ==> k in Keys(AddParams(acc, words).value)
    ensures forall i :: 0 <= i < |words| && IsParam(words[i]) ==>
              Text.Split(words[i], "=")[0] in Keys(AddParams(acc, words).value)
    decreases |words|
  {
    if |words| > 0 {
      var w := words[0];
      var r := AddParams(acc, words).value;
      if !IsParam(w) {
        AddParamsKeys(acc, words[1..]);
        forall i | 0 <= i < |words| && IsParam(words[i])
          ensures Text.Split(words[i], "=")[0] in Keys(r)
        {
          assert words[i] == words[1..][i - 1];
        }
      } else {
        var kv := Text.Split(w, "=");
        var next := Put(acc, kv[0], kv[1]);
        AddParamsKeys(next, words[1..]);
        assert kv[0] in Keys(next);
        forall i | 0 <= i < |words| && IsParam(words[i])
          ensures Text.Split(words[i], "=")[0] in Keys(r)
        {
          if i > 0 {
            assert words[i] == words[1..][i - 1];
          }
        }
      }
    }
  }

  /** The state of the loop of `read_controls`: the controls so far and the name of the last one. */
  datatype Controls = Controls(controls: Dict<Control>, last: Option<string>)

  /** Menus belong to menu controls only, and the last control is one of the controls. */
  predicate WellFormed(st: Controls)
  {
    (forall e :: e in st.controls ==> (e.1.menu.Some? <==> e.1.ctype == "menu"))
    && (st.last.Some? ==> st.last.value in Keys(st.controls))
  }

  /** `(name, type, params)` of a control line. */
  function ControlFields(l: string): Option<(string, string, string)>
  {
    match Find(CtrlRe, l)
    case None => None
    case Some(m) => Some((Group(m.pieces, 1), Group(m.pieces, 2), Group(m.pieces, 3)))
  }

  /** `(value, label)` of a menu item line. */
  function MenuFields(l: string): Option<(string, string)>
  {
    match Find(MenuRe, l)
    case None => None
    case Some(m) => Some((Group(m.pieces, 1), Group(m.pieces, 2)))
  }

  /** The body of the loop of `read_controls` for one line. */
  function ControlStep(st: Controls, l: string): (r: Result<Controls, ControlError>)
    requires WellFormed(st)
    ensures r.Ok? ==> WellFormed(r.value)
    ensures ControlFields(l).Some? ==> var (name, ctype, params) := ControlFields(l).value;
      (r.Ok? <==> AddParams([], Text.Words(params)).Ok?)
      && (r.Ok? ==> (r.value.last == Some(name)
          && Lookup(r.value.controls, name) == Some(Control(ctype, AddParams([], Text.Words(params)).value,
               if ctype == "menu" then Some([]) else None))))
    ensures ControlFields(l).None? && st.last.Some? && Lookup(st.controls, st.last.value).value.ctype != "menu" ==>
      r == Ok(st)
    ensures ControlFields(l).None? && MenuFields(l).None? ==> r == Ok(st)
    ensures ControlFields(l).None? && MenuFields(l).Some? && st.last.None? ==> r == Err(MenuBeforeControl)
    ensures (ControlFields(l).None? && MenuFields(l).Some? && st.last.Some?
      && Lookup(st.controls, st.last.value).value.ctype == "menu") ==>
      var c := Lookup(st.controls, st.last.value).value;
      r == Ok(st.(controls := Put(st.controls, st.last.value,
        c.(menu := Some(Put(c.menu.value, MenuFields(l).value.0, MenuFields(l).value.1))))))
  {
    match ControlFields(l)
    case None =>
      if st.last.Some? && Lookup(st.controls, st.last.value).value.ctype != "menu" then Ok(st)
      else (
        match MenuFields(l)
        case None => Ok(st)
        case Some((k, v)) =>
          if st.last.None? then Err(MenuBeforeControl)
          else
            var c := Lookup(st.controls, st.last.value).value;
            var next := Put(st.controls, st.last.value, c.(menu := Some(Put(c.menu.value, k, v))));
            Ok(st.(controls := next)))
    case Some((name, ctype, params)) =>
      match AddParams([], Text.Words(params))
      case Err(w) => Err(BadParam(w))
      case Ok(ps) =>
        var c := Control(ctype, ps, if ctype == "menu" then Some([]) else None);
        Ok(Controls(Put(st.controls, name, c), Some(name)))
  }

  function ControlSteps(st: Controls, lines: seq<string>): (r: Result<Controls, ControlError>)
    requires WellFormed(st)
    ensures r.Ok? ==> WellFormed(r.value)
    decreases |lines|
  {
    if |lines| == 0 then Ok(st)
    else
      match ControlStep(st, lines[0])
      case Err(e) => Err(e)
      case Ok(next) => ControlSteps(next, lines[1..])
  }

  /** `read_controls()` on the lines of `--list-ctrls-menu`. */
  function ReadControls(lines: seq<string>): (r: Result<Dict<Control>, ControlError>)
    ensures r.Ok? ==> forall e :: e in r.value ==> (e.1.menu.Some? <==> e.1.ctype == "menu")
  {
    match ControlSteps(Controls([], None), lines)
    case Err(e) => Err(e)
    case Ok(st) => Ok(st.controls)
  }

  // ---------------------------------------------------------------------------
  // set_format and export_script
  // ---------------------------------------------------------------------------

  const V4lBin := "v4l2-ctl"

  /** `cam_cmd()`: the command prefix for the camera device `cam`. */
  function CamCmd(cam: string): seq<string>
  {
    [V4lBin, "-d", cam]
  }

  /** Why `set_format`/`export_script` raise: the size is missing (None) or is not `WxH` (ValueError). */
  datatype ScriptError = NoResolution | NotWxH | NoValue(control: string)

  /** `w, h = res.split('x')`. */
  function SplitResolution(res: string): (r: Result<(string, string), ScriptError>)
    ensures r.Ok? <==> |Text.Split(res, "x")| == 2
    ensures r.Ok? ==> [r.value.0, r.value.1] == Text.Split(res, "x")
  {
    var wh := Text.Split(res, "x");
    if |wh| != 2 then Err(NotWxH) else Ok((wh[0], wh[1]))
  }

  /** The size `get_format` writes splits back into its width and height. */
  lemma ResolutionRoundTrip(w: string, h: string)
    requires 'x' !in w && 'x' !in h
    ensures SplitResolution(w + "x" + h) == Ok((w, h))
  {
    Text.SplitOnChar(w, 'x', h);
  }

  function FmtArg(w: string, h: string, pix: string): string
  {
    "--set-fmt-video=width=" + w + ",height=" + h + ",pixelformat=" + pix
  }

  /** Neither `,` nor `=`, which separate the fields of a `--set-fmt-video` argument, occurs in `s`. */
  predicate NoFieldSeparators(s: string)
  {
    ',' !in s && '=' !in s
  }

  /** The value of a `key=value` field, if `f` is one for `key`. */
  function Field(f: string, key: string): (v: Option<string>)
    ensures v.Some? ==> f == key + "=" + v.value
  {
    var kv := Text.Split(f, "=");
    if |kv| == 2 && kv[0] == key then
      Text.JoinSplit(f, "=");
      Some(kv[1])
    else None
  }

  lemma FieldReadsBack(key: string, v: string)
    requires '=' !in key && '=' !in v
    ensures Field(key + "=" + v, key) == Some(v)
  {
    Text.SplitOnChar(key, '=', v);
  }

  const FmtPrefix := "--set-fmt-video="

  /**
   * How `v4l2-ctl` reads a `--set-fmt-video=width=W,height=H,pixelformat=P`
   * argument: the fields are cut at `,` and each at `=`.
   */
  function ReadFmtArg(arg: string): Option<(string, string, string)>
  {
    if !Text.StartsWith(arg, FmtPrefix) then None
    else
      var fields := Text.Split(arg[|FmtPrefix|..], ",");
      if |fields| != 3 then None
      else
        var w, h, pix := Field(fields[0], "width"), Field(fields[1], "height"), Field(fields[2], "pixelformat");
        if w.Some? && h.Some? && pix.Some? then Some((w.value, h.value, pix.value)) else None
  }

  /** The format argument, field by field. */
  lemma FmtArgFields(w: string, h: string, pix: string)
    ensures FmtArg(w, h, pix)
      == FmtPrefix + Text.Join(["width" + "=" + w, "height" + "=" + h, "pixelformat" + "=" + pix], ",")
  {
    Text.JoinThree("width" + "=" + w, "height" + "=" + h, "pixelformat" + "=" + pix, ",");
    assert "--set-fmt-video=width=" == FmtPrefix + "width" + "=";
    assert ",height=" == "," + "height" + "=";
    assert ",pixelformat=" == "," + "pixelformat" + "=";
  }

  /** Only a format argument reads back, and it reads back as what was written into it. */
  lemma ReadFmtArgSound(arg: string)
    ensures ReadFmtArg(arg).Some? ==>
      var (w, h, pix) := ReadFmtArg(arg).value;
      arg == FmtArg(w, h, pix)
  {
    if ReadFmtArg(arg).Some? {
      var (w, h, pix) := ReadFmtArg(arg).value;
      var rest := arg[|FmtPrefix|..];
      var fields := Text.Split(rest, ",");
      assert fields == ["width" + "=" + w, "height" + "=" + h, "pixelformat" + "=" + pix];
      assert rest == Text.Join(fields, ",") by { Text.JoinSplit(rest, ","); }
      assert arg == FmtPrefix + rest;
      FmtArgFields(w, h, pix);
    }
  }

  /** A format argument reads back as the width, height and pixel format written into it. */
  lemma ReadFmtArgBack(w: string, h: string, pix: string)
    requires NoFieldSeparators(w) && NoFieldSeparators(h) && NoFieldSeparators(pix)
    ensures ReadFmtArg(FmtArg(w, h, pix)) == Some((w, h, pix))
  {
    var fields := ["width" + "=" + w, "height" + "=" + h, "pixelformat" + "=" + pix];
    var arg := FmtArg(w, h, pix);
    FmtArgFields(w, h, pix);
    assert Text.StartsWith(arg, FmtPrefix);
    assert arg[|FmtPrefix|..] == Text.Join(fields, ",");
    assert Text.Split(arg[|FmtPrefix|..], ",") == fields by {
      Text.SplitJoin(fields, ',');
    }
    FieldReadsBack("width", w);
    FieldReadsBack("height", h);
    FieldReadsBack("pixelformat", pix);
  }

  /**
   * `set_format(pix, res, fps)`: the two command lines it runs. It raises
   * unless `res` splits at `x` into two parts; otherwise the format
   * argument reads back as a width and height that make up `res` again and
   * as `pix`.
   */
  function SetFormat(cam: string, pix: string, res: string, fps: string): (r: Result<(seq<string>, seq<string>), ScriptError>)
    ensures r.Ok? <==> |Text.Split(res, "x")| == 2
    ensures r.Ok? ==> |r.value.0| == |CamCmd(cam)| + 1 && r.value.0[..|CamCmd(cam)|] == CamCmd(cam)
    ensures r.Ok? && NoFieldSeparators(res) && NoFieldSeparators(pix) ==>
      ReadFmtArg(r.value.0[|CamCmd(cam)|]).Some?
      && var (w, h, p) := ReadFmtArg(r.value.0[|CamCmd(cam)|]).value;
      w + "x" + h == res && p == pix
    ensures r.Ok? ==> r.value.1 == CamCmd(cam) + ["--set-parm=" + fps]
  {
    match SplitResolution(res)
    case Err(e) => Err(e)
    case Ok((w, h)) =>
      if NoFieldSeparators(res) && NoFieldSeparators(pix) then
        Text.SplitKeepsOut(res, "x", ',');
        Text.SplitKeepsOut(res, "x", '=');
        ReadFmtArgBack(w, h, pix);
        Text.JoinSplit(res, "x");
        assert Text.Join([w, h], "x") == w + "x" + h;
        Ok((CamCmd(cam) + [FmtArg(w, h, pix)], CamCmd(cam) + ["--set-parm=" + fps]))
      else
        Ok((CamCmd(cam) + [FmtArg(w, h, pix)], CamCmd(cam) + ["--set-parm=" + fps]))
  }

  /** A format listed as `WxH` is set with exactly that width and height. */
  lemma SetListedFormat(cam: string, pix: string, w: string, h: string, fps: string)
    requires 'x' !in w && 'x' !in h
    ensures SetFormat(cam, pix, w + "x" + h, fps)
      == Ok((CamCmd(cam) + [FmtArg(w, h, pix)], CamCmd(cam) + ["--set-parm=" + fps]))
  {
    ResolutionRoundTrip(w, h);
  }

  /** `f'{x}'` of an optional string: `None` prints as `None`. */
  function Show(x: Option<string>): string
  {
    if x.Some? then x.value else "None"
  }

  /** `f'{k}={v[1]["value"]}'` for every control, in order. */
  function Settings(controls: Dict<Control>): (r: Result<seq<string>, ScriptError>)
    ensures r.Ok? <==> forall e :: e in controls ==> Lookup(e.1.params, "value").Some?
    ensures r.Ok? ==> |r.value| == |controls|
    ensures r.Ok? ==> forall i :: 0 <= i < |controls| ==>
      r.value[i] == controls[i].0 + "=" + Lookup(controls[i].1.params, "value").value
  {
    if |controls| == 0 then Ok([])
    else
      var (k, c) := controls[0];
      assert forall e :: e in controls <==> e == controls[0] || e in controls[1..];
      match Lookup(c.params, "value")
      case None => Err(NoValue(k))
      case Some(v) =>
        match Settings(controls[1..])
        case Err(e) => Err(e)
        case Ok(rest) => Ok([k + "=" + v] + rest)
  }

  const Shebang := "#!/bin/sh"

  /** The four lines of the script. */
  function ScriptLines(cam: string, settings: seq<string>, w: string, h: string, format: VideoFormat): seq<string>
  {
    var cmd := Text.Join(CamCmd(cam), " ");
    [Shebang,
     cmd + " --set-ctrl=" + Text.Join(settings, ","),
     cmd + " " + FmtArg(w, h, Show(format.pix)),
     cmd + " --set-parm=" + Show(format.fps)]
  }

  /** Lines separated by blank lines: each `\n\n` of the script is a newline, an empty line and a newline. */
  function Spaced(lines: seq<string>): (r: seq<string>)
    ensures |lines| > 0 ==> |r| == 2 * |lines| - 1
    ensures forall i :: 0 <= i < |lines| ==> r[2 * i] == lines[i]
    ensures forall i :: 0 <= i < |lines| - 1 ==> r[2 * i + 1] == ""
  {
    if |lines| <= 1 then lines
    else
      var rest := Spaced(lines[1..]);
      var r := [lines[0], ""] + rest;
      forall i | 1 <= i < |lines| ensures r[2 * i] == lines[i] {
        assert r[2 * i] == rest[2 * (i - 1)] == lines[1..][i - 1];
      }
      forall i | 1 <= i < |lines| - 1 ensures r[2 * i + 1] == "" {
        assert r[2 * i + 1] == rest[2 * (i - 1) + 1];
      }
      r
  }

  /** No line of the spaced script holds a newline when no line of the script does. */
  lemma {:induction false} SpacedWithoutNewlines(lines: seq<string>)
    requires forall i :: 0 <= i < |lines| ==> '\n' !in lines[i]
    ensures forall k :: 0 <= k < |Spaced(lines)| ==> '\n' !in Spaced(lines)[k]
    decreases |lines|
  {
    if |lines| > 1 {
      SpacedWithoutNewlines(lines[1..]);
    }
  }

  /** The script text: the lines, a blank line between each two. */
  function ScriptText(lines: seq<string>): string
  {
    Text.Join(Spaced(lines), "\n")
  }

  /** The script starts with the shebang and a blank line. */
  lemma ScriptStartsWithShebang(lines: seq<string>)
    requires |lines| > 1 && lines[0] == Shebang
    ensures Text.StartsWith(ScriptText(lines), Shebang + "\n\n")
  {
    var sp := Spaced(lines);
    assert sp[0] == Shebang && sp[1] == "" && |sp| >= 3;
    assert Text.Join(sp, "\n") == Shebang + "\n" + Text.Join(sp[1..], "\n");
    assert Text.Join(sp[1..], "\n") == "" + "\n" + Text.Join(sp[2..], "\n");
    assert ScriptText(lines) == (Shebang + "\n\n") + Text.Join(sp[2..], "\n");
  }

  /** Read line by line, the script gives back its lines with the blank lines between them. */
  lemma ScriptReadsBack(lines: seq<string>)
    requires |lines| > 0 && forall i :: 0 <= i < |lines| ==> '\n' !in lines[i]
    ensures Text.Split(ScriptText(lines), "\n") == Spaced(lines)
  {
    SpacedWithoutNewlines(lines);
    Text.SplitJoin(Spaced(lines), '\n');
  }

  /** `export_script()` for the controls and format read from the camera. */
  function ExportScript(cam: string, controls: Dict<Control>, format: VideoFormat): (r: Result<string, ScriptError>)
    ensures r.Ok? <==> Settings(controls).Ok? && format.res.Some? && SplitResolution(format.res.value).Ok?
    ensures r.Ok? ==> var (w, h) := SplitResolution(format.res.value).value;
      r.value == ScriptText(ScriptLines(cam, Settings(controls).value, w, h, format))
  {
    match Settings(controls)
    case Err(e) => Err(e)
    case Ok(settings) =>
      if format.res.None? then Err(NoResolution)
      else
        match SplitResolution(format.res.value)
        case Err(e) => Err(e)
        case Ok((w, h)) => Ok(ScriptText(ScriptLines(cam, settings, w, h, format)))
  }

  /** The settings line lists each control's `name=value`, recoverable by splitting on commas. */
  lemma SettingsReadBack(settings: seq<string>)
    requires |settings| > 0 && forall i :: 0 <= i < |settings| ==> ',' !in settings[i]
    ensures Text.Split(Text.Join(settings, ","), ",") == settings
  {
    Text.SplitJoin(settings, ',');
  }
}
