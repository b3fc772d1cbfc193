/**
 * The decisions of the i3 helper daemon (`i3patch/daemon.py`): relabelling
 * workspaces after zoom events, numbering new and renamed workspaces, the
 * container action menu, and the dispatch of commands written to its FIFO.
 * The window manager is the tree or workspace list handed in; dmenu's answer
 * and the random letters are parameters; what the daemon does is returned as
 * command strings or as effect values.
 */
module Daemon {
  import opened Wrappers
  import opened ConTree
  import opened Workspaces
  import opened Zoom
  import Text

  // ---------------------------------------------------------------------------
  // relabel_workspaces.
  // ---------------------------------------------------------------------------

  /**
   * The workspace `c.workspace()` of a zoomed container is its nearest
   * workspace ancestor-or-self. A workspace `w` is in the `zoomed` list iff
   * `w` is zoomed or a descendant reached without entering another workspace
   * is (floating containers included, as `descendants()` visits them).
   */
  predicate OwnsZoom(c: Con)
    decreases Size(c), 0
  {
    KidsSmaller(c, true);
    c.zoomed || OwnsZoomIn(Kids(c, true))
  }

  predicate OwnsZoomIn(s: seq<Con>)
    decreases ForestSize(s), 1
  {
    if |s| == 0 then false
    else
      assert ForestSize(s) == Size(s[0]) + ForestSize(s[1..]);
      (!IsWorkspace(s[0]) && OwnsZoom(s[0])) || OwnsZoomIn(s[1..])
  }

  /**
   * Without nested workspaces (i3 has none) a workspace counts as zoomed iff
   * some container of its subtree is zoomed.
   */
  lemma {:induction false} OwnsZoomIsAnyZoomed(c: Con)
    requires forall x :: x in Preorder(c, true) ==> !IsWorkspace(x)
    ensures OwnsZoom(c) <==> c.zoomed || exists x :: x in Preorder(c, true) && x.zoomed
    decreases Size(c), 0
  {
    KidsSmaller(c, true);
    OwnsZoomInIsAnyZoomed(Kids(c, true));
  }

  lemma {:induction false} OwnsZoomInIsAnyZoomed(s: seq<Con>)
    requires forall x :: x in PreorderForest(s, true) ==> !IsWorkspace(x)
    ensures OwnsZoomIn(s) <==> exists x :: x in PreorderForest(s, true) && x.zoomed
    decreases ForestSize(s), 1
  {
    if |s| > 0 {
      var head := Preorder(s[0], true);
      var tail := PreorderForest(s[1..], true);
      assert PreorderForest(s, true) == [s[0]] + head + tail;
      OwnsZoomIsAnyZoomed(s[0]);
      OwnsZoomInIsAnyZoomed(s[1..]);
      if exists x :: x in PreorderForest(s, true) && x.zoomed {
        var x :| x in PreorderForest(s, true) && x.zoomed;
        assert x == s[0] || x in head || x in tail;
      }
    }
  }

  /** A workspace `tree.workspaces()` lists: named workspaces, not the internal `__` ones. */
  predicate Listed(c: Con)
  {
    IsWorkspace(c) && !Text.StartsWith(c.name, "__")
  }

  /**
   * `tree.workspaces()` of the i3ipc library: a pre-order walk over tiling
   * children that stops at each listed workspace.
   */
  function WorkspacesOf(c: Con): (r: seq<Con>)
    ensures forall w :: w in r ==> Listed(w)
    ensures Listed(c) ==> r == [c]
    decreases Size(c), 0
  {
    if Listed(c) then [c] else WorkspacesIn(c.nodes)
  }

  function WorkspacesIn(s: seq<Con>): (r: seq<Con>)
    ensures forall w :: w in r ==> Listed(w)
    decreases ForestSize(s), 1
  {
    if |s| == 0 then [] else WorkspacesOf(s[0]) + WorkspacesIn(s[1..])
  }

  /** The renames of one pass over the listed workspaces, in order. */
  function RelabelAll(wss: seq<Con>): (rs: seq<Rename>)
    ensures |rs| <= |wss|
    ensures rs == [] <==> forall k :: 0 <= k < |wss| ==> OwnsZoom(wss[k]) == IsMarked(wss[k].name)
    ensures forall k :: 0 <= k < |rs| ==>
              rs[k].to == rs[k].from + ZoomedMark || rs[k].to + ZoomedMark == rs[k].from
  {
    if |wss| == 0 then []
    else
      var w := wss[0];
      var rest := RelabelAll(wss[1..]);
      assert forall k :: 1 <= k < |wss| ==> wss[k] == wss[1..][k - 1];
      match Relabel(w.name, OwnsZoom(w))
      case None => rest
      case Some(n) => [Rename(w.name, n)] + rest
  }

  /** `relabel_workspaces`: the rename commands sent for the tree. */
  function RelabelWorkspaces(tree: Con): (cmds: seq<string>)
    ensures cmds == [] <==>
              forall w :: w in WorkspacesOf(tree) ==> OwnsZoom(w) == IsMarked(w.name)
  {
    var wss := WorkspacesOf(tree);
    var rs := RelabelAll(wss);
    assert forall w :: w in wss ==> exists k :: 0 <= k < |wss| && wss[k] == w;
    Commands(rs)
  }

  /** The workspace after its rename, if any. */
  function Renamed(w: Con): Con
  {
    w.(name := AfterRelabel(w.name, OwnsZoom(w)))
  }

  function RenamedAll(wss: seq<Con>): (r: seq<Con>)
    ensures |r| == |wss|
    ensures forall k :: 0 <= k < |wss| ==> r[k] == Renamed(wss[k])
  {
    if |wss| == 0 then [] else [Renamed(wss[0])] + RenamedAll(wss[1..])
  }

  lemma RenamedAllAppend(a: seq<Con>, b: seq<Con>)
    ensures RenamedAll(a + b) == RenamedAll(a) + RenamedAll(b)
  {
  }

  /**
   * The tree once every rename of the pass has taken effect on the workspace
   * it was issued for.
   */
  function Relabelled(c: Con): Con
    decreases Size(c), 0
  {
    if Listed(c) then Renamed(c) else c.(nodes := RelabelledIn(c.nodes))
  }

  function RelabelledIn(s: seq<Con>): (r: seq<Con>)
    ensures |r| == |s|
    decreases ForestSize(s), 1
  {
    if |s| == 0 then [] else [Relabelled(s[0])] + RelabelledIn(s[1..])
  }

  /** Renaming leaves the zoom state of a workspace alone. */
  lemma OwnsZoomRenamed(w: Con, name: string)
    ensures OwnsZoom(w.(name := name)) == OwnsZoom(w)
  {
    assert Kids(w.(name := name), true) == Kids(w, true);
  }

  /** Adding or stripping the mark never turns a listed name into an internal `__` one. */
  lemma AfterRelabelListed(name: string, zoomed: bool)
    requires !Text.StartsWith(name, "__")
    ensures !Text.StartsWith(AfterRelabel(name, zoomed), "__")
  {
    var n := AfterRelabel(name, zoomed);
    if |n| >= 2 && |name| >= 2 {
      if Relabel(name, zoomed).Some? && zoomed {
        assert n == name + ZoomedMark;
        assert n[..2] == name[..2];
      } else if Relabel(name, zoomed).Some? {
        assert n + ZoomedMark == name;
        assert n[..2] == name[..2];
      }
    } else if |n| >= 2 {
      assert n == name + ZoomedMark;
      assert n[1] == '*' || n[0] == '*';
    }
  }

  /** The workspaces of the relabelled tree are the renamed workspaces, in the same order. */
  lemma {:induction false} WorkspacesOfRelabelled(c: Con)
    ensures WorkspacesOf(Relabelled(c)) == RenamedAll(WorkspacesOf(c))
    decreases Size(c), 0
  {
    if Listed(c) {
      AfterRelabelListed(c.name, OwnsZoom(c));
      assert Listed(Renamed(c));
    } else {
      WorkspacesInRelabelled(c.nodes);
    }
  }

  lemma {:induction false} WorkspacesInRelabelled(s: seq<Con>)
    ensures WorkspacesIn(RelabelledIn(s)) == RenamedAll(WorkspacesIn(s))
    decreases ForestSize(s), 1
  {
    if |s| > 0 {
      assert RelabelledIn(s)[0] == Relabelled(s[0]);
      assert RelabelledIn(s)[1..] == RelabelledIn(s[1..]);
      WorkspacesOfRelabelled(s[0]);
      WorkspacesInRelabelled(s[1..]);
      RenamedAllAppend(WorkspacesOf(s[0]), WorkspacesIn(s[1..]));
    }
  }

  /** After one pass no renamed workspace needs another rename. */
  lemma {:induction false} RelabelAllRenamed(wss: seq<Con>)
    requires forall k :: 0 <= k < |wss| ==> NoDoubleMark(wss[k].name)
    ensures RelabelAll(RenamedAll(wss)) == []
  {
    var r := RenamedAll(wss);
    forall k | 0 <= k < |r|
      ensures OwnsZoom(r[k]) == IsMarked(r[k].name)
    {
      OwnsZoomRenamed(wss[k], r[k].name);
      RelabelSettles(wss[k].name, OwnsZoom(wss[k]));
    }
  }

  /**
   * A second `relabel_workspaces` over the relabelled tree sends nothing,
   * provided no workspace name ends in the mark twice.
   */
  lemma RelabelTwice(tree: Con)
    requires forall w :: w in WorkspacesOf(tree) ==> NoDoubleMark(w.name)
    ensures RelabelWorkspaces(Relabelled(tree)) == []
  {
    var wss := WorkspacesOf(tree);
    assert forall k :: 0 <= k < |wss| ==> wss[k] in wss;
    WorkspacesOfRelabelled(tree);
    RelabelAllRenamed(wss);
  }

  // ---------------------------------------------------------------------------
  // create_workspace.
  // ---------------------------------------------------------------------------

  predicate IsAsciiLetter(c: char)
  {
    'a' <= c <= 'z' || 'A' <= c <= 'Z'
  }

  const SwitchPrefix: string := "workspace "

  /**
   * `create_workspace`: switch to a workspace named by the next number and the
   * five random ASCII letters `chars`. The number reads back from the name and
   * is used by no existing workspace.
   */
  function CreateWorkspace(wss: seq<Workspace>, chars: string): (cmd: string)
    requires |chars| == 5 && forall i :: 0 <= i < |chars| ==> IsAsciiLetter(chars[i])
    ensures Text.StartsWith(cmd, SwitchPrefix)
    ensures Text.ParseNat(Text.LeadingDigits(cmd[|SwitchPrefix|..])) == NextNum(wss)
    ensures forall k :: 0 <= k < |wss| ==>
              wss[k].num < Text.ParseNat(Text.LeadingDigits(cmd[|SwitchPrefix|..]))
    ensures Text.StripLeadingDigits(cmd[|SwitchPrefix|..]) == chars
  {
    var target := Text.NatToString(NextNum(wss)) + chars;
    assert IsAsciiLetter(chars[0]);
    NumberedName(NextNum(wss), chars);
    assert (SwitchPrefix + target)[|SwitchPrefix|..] == target;
    SwitchPrefix + target
  }

  // ---------------------------------------------------------------------------
  // async_rename and rename_workspace.
  // ---------------------------------------------------------------------------

  /** The number `int(re.findall(r'^\d+', name)[0])`, when the name starts with digits. */
  function LeadingNum(name: string): Option<nat>
  {
    var d := Text.LeadingDigits(name);
    if d == "" then None else Some(Text.ParseNat(d))
  }

  /**
   * The entered number belongs to an existing workspace other than the current
   * one. `current` is None when the current workspace has no number (`""` in
   * the source, which differs from every integer).
   */
  predicate Renumbers(name: string, wss: seq<Workspace>, current: Option<int>)
  {
    LeadingNum(name).Some? &&
    exists k :: 0 <= k < |wss| && wss[k].num == LeadingNum(name).value &&
                (current.None? || LeadingNum(name).value != current.value)
  }

  /** The name `async_rename` gives the focused workspace for the entered `name`. */
  function NewName(name: string, wss: seq<Workspace>, current: Option<int>): (r: string)
    ensures !Renumbers(name, wss, current) ==> r == name
    ensures Renumbers(name, wss, current) ==>
              LeadingNum(r) == Some(NextNum(wss)) &&
              Text.StripLeadingDigits(r) == Text.StripLeadingDigits(name)
    ensures Text.StripLeadingDigits(r) == Text.StripLeadingDigits(name)
  {
    if Renumbers(name, wss, current) then
      var rest := Text.StripLeadingDigits(name);
      NumberedName(NextNum(wss), rest);
      Text.NatToString(NextNum(wss)) + rest
    else name
  }

  /** A renumbered name carries a number no workspace uses, so it is not renumbered again. */
  lemma RenumberedIsFresh(name: string, wss: seq<Workspace>, current: Option<int>)
    requires Renumbers(name, wss, current)
    ensures forall k :: 0 <= k < |wss| ==> wss[k].num != LeadingNum(NewName(name, wss, current)).value
    ensures !Renumbers(NewName(name, wss, current), wss, current)
  {
  }

  /** A name without leading digits is sent unchanged. */
  lemma UnnumberedNameKept(name: string, wss: seq<Workspace>, current: Option<int>)
    requires |name| == 0 || !Text.IsDigit(name[0])
    ensures NewName(name, wss, current) == name
  {
    assert Text.LeadingDigits(name) == "";
  }

  /**
   * `async_rename`: dmenu's answer `input` is None when dmenu failed, and then
   * nothing is sent; otherwise the focused workspace is renamed to a name `n`
   * that keeps what follows the entered number, is the entered name itself
   * unless that takes another workspace's number, and then starts with the
   * next free number instead, so that no workspace holds the number `n`
   * starts with.
   */
  function AsyncRename(input: Option<string>, wss: seq<Workspace>, current: Option<int>): (cmd: Option<string>)
    ensures cmd.None? <==> input.None?
    ensures input.Some? ==>
      cmd.Some? && Text.StartsWith(cmd.value, RenameFocused(""))
      && var n := cmd.value[|RenameFocused("")|..];
      && Text.StripLeadingDigits(n) == Text.StripLeadingDigits(input.value)
      && !Renumbers(n, wss, current)
      && (!Renumbers(input.value, wss, current) ==> n == input.value)
      && (Renumbers(input.value, wss, current) ==>
            LeadingNum(n) == Some(NextNum(wss))
            && forall k :: 0 <= k < |wss| ==> wss[k].num != NextNum(wss))
  {
    match input
    case None => None
    case Some(name) =>
      var n := NewName(name, wss, current);
      assert RenameFocused(n)[|RenameFocused("")|..] == n;
      Some(RenameFocused(n))
  }

  /** `current_num if current_num > -1 else ""`: the prefix of every suggestion. */
  function NumPrefix(num: int): (p: string)
    ensures num > -1 ==> Text.AllDigits(p) && Text.ParseNat(p) == num
    ensures num <= -1 ==> p == ""
  {
    if num > -1 then (Text.ParseNatToString(num); Text.NatToString(num)) else ""
  }

  /** The number `rename_workspace` hands to `async_rename`. */
  function CurrentArg(num: int): Option<int>
  {
    if num > -1 then Some(num) else None
  }

  /** The lines of the names file, each prefixed with the current number. */
  function Suggestions(lines: seq<string>, num: int): (r: seq<string>)
    ensures |r| == |lines|
    ensures forall k :: 0 <= k < |lines| ==>
              Text.StartsWith(r[k], NumPrefix(num)) && r[k][|NumPrefix(num)|..] == lines[k]
  {
    if |lines| == 0 then []
    else
      var p := NumPrefix(num);
      assert (p + lines[0])[|p|..] == lines[0];
      [p + lines[0]] + Suggestions(lines[1..], num)
  }

  /** The text `rename_workspace` feeds to dmenu: the suggestions one after another. */
  function SuggestionText(lines: seq<string>, num: int): string
  {
    Concat(Suggestions(lines, num))
  }

  function Concat(parts: seq<string>): (s: string)
    ensures |parts| > 0 ==> Text.StartsWith(s, parts[0])
  {
    if |parts| == 0 then "" else parts[0] + Concat(parts[1..])
  }

  /**
   * Picking a suggestion keeps the current workspace's number: the daemon sends
   * it unchanged.
   */
  lemma PickedSuggestionKept(lines: seq<string>, num: int, k: nat, wss: seq<Workspace>)
    requires k < |lines|
    requires |lines[k]| == 0 || !Text.IsDigit(lines[k][0])
    ensures NewName(Suggestions(lines, num)[k], wss, CurrentArg(num)) == Suggestions(lines, num)[k]
  {
    var s := Suggestions(lines, num)[k];
    var p := NumPrefix(num);
    assert s == p + lines[k];
    if num > -1 {
      Text.LeadingDigitsOfConcat(p, lines[k]);
      assert LeadingNum(s) == Some(num);
    } else {
      UnnumberedNameKept(s, wss, CurrentArg(num));
    }
  }

  // ---------------------------------------------------------------------------
  // con_actions and async_con.
  // ---------------------------------------------------------------------------

  /** The handlers of `actions_map`. */
  datatype ConAction =
    | Fullscreen | Floating | Cut | Paste
    | VerticalSplitAndRun | HorisontalSplitAndRun
    | VerticalSplitAndPaste | HorisontalSplitAndPaste
    | SplitLayout | Tabbed | Stacking | Close | ExitI3

  const MainActions: seq<string> := ["toggle fullscreen", "toggle floating"]
  const EmptyScratchActions: seq<string> := ["cut to scratch", "split vertically and run", "split horisontally and run"]
  const FullScratchActions: seq<string> := ["paste from scratch", "split vertically and paste", "split horisontally and paste"]
  const AuxActions: seq<string> :=
    ["set split layout", "set tabbed layout", "set stacked layout", "close window", "exit i3"]

  /** `con_actions`: the menu offered, which depends on whether the scratchpad holds windows. */
  function ConMenu(scratchFull: bool): (menu: seq<string>)
    ensures |menu| == 10
    ensures menu[..2] == MainActions && menu[5..] == AuxActions
    ensures menu[2..5] == if scratchFull then FullScratchActions else EmptyScratchActions
  {
    MainActions + (if scratchFull then FullScratchActions else EmptyScratchActions) + AuxActions
  }

  /** The key of each handler in `actions_map`: an entry of the menu lists. */
  function Label(a: ConAction): string
  {
    match a
    case Fullscreen => MainActions[0]
    case Floating => MainActions[1]
    case Cut => EmptyScratchActions[0]
    case Paste => FullScratchActions[0]
    case VerticalSplitAndRun => EmptyScratchActions[1]
    case HorisontalSplitAndRun => EmptyScratchActions[2]
    case VerticalSplitAndPaste => FullScratchActions[1]
    case HorisontalSplitAndPaste => FullScratchActions[2]
    case SplitLayout => AuxActions[0]
    case Tabbed => AuxActions[1]
    case Stacking => AuxActions[2]
    case Close => AuxActions[3]
    case ExitI3 => AuxActions[4]
  }

  /** The handlers of `actions_map`, in the order its keys are listed. */
  const Handlers: seq<ConAction> := [
    Fullscreen, Floating, Cut, Paste, VerticalSplitAndRun, HorisontalSplitAndRun,
    VerticalSplitAndPaste, HorisontalSplitAndPaste, SplitLayout, Tabbed, Stacking, Close, ExitI3]

  /** Looking a key up among the given handlers. */
  function FindHandler(entry: string, hs: seq<ConAction>): (r: Option<ConAction>)
    ensures r.Some? ==> r.value in hs && Label(r.value) == entry
    ensures r.None? ==> forall a :: a in hs ==> Label(a) != entry
  {
    if |hs| == 0 then None
    else if Label(hs[0]) == entry then Some(hs[0])
    else FindHandler(entry, hs[1..])
  }

  /** `actions_map[entry]`: None where the lookup raises KeyError. */
  function ActionFor(entry: string): Option<ConAction>
  {
    FindHandler(entry, Handlers)
  }

  /** No two handlers share a key. */
  lemma LabelInjective(a: ConAction, b: ConAction)
    requires Label(a) == Label(b)
    ensures a == b
  {
  }

  lemma LabelsDistinct(a: ConAction, b: ConAction)
    requires a != b
    ensures Label(a) != Label(b)
  {
    if Label(a) == Label(b) {
      LabelInjective(a, b);
    }
  }

  /** `actions_map` and the label table are inverse: each label names exactly one handler. */
  lemma ActionForLabel(a: ConAction, entry: string)
    ensures ActionFor(Label(a)) == Some(a)
    ensures ActionFor(entry) == Some(a) ==> entry == Label(a)
  {
    assert a in Handlers;
    LabelInjective(ActionFor(Label(a)).value, a);
  }

  /** The handlers behind the menu's entries, in menu order. */
  function MenuHandlers(scratchFull: bool): (acts: seq<ConAction>)
    ensures |acts| == 10
    ensures forall j, k :: 0 <= j < k < 10 ==> acts[j] != acts[k]
  {
    [Fullscreen, Floating]
    + (if scratchFull then [Paste, VerticalSplitAndPaste, HorisontalSplitAndPaste]
       else [Cut, VerticalSplitAndRun, HorisontalSplitAndRun])
    + [SplitLayout, Tabbed, Stacking, Close, ExitI3]
  }

  /** Each entry of the menu is the key of its handler. */
  lemma MenuLabels(scratchFull: bool)
    ensures forall k :: 0 <= k < 10 ==> ConMenu(scratchFull)[k] == Label(MenuHandlers(scratchFull)[k])
  {
    var acts := MenuHandlers(scratchFull);
    assert MainActions == [Label(Fullscreen), Label(Floating)];
    assert EmptyScratchActions == [Label(Cut), Label(VerticalSplitAndRun), Label(HorisontalSplitAndRun)];
    assert FullScratchActions == [Label(Paste), Label(VerticalSplitAndPaste), Label(HorisontalSplitAndPaste)];
    assert AuxActions == [Label(SplitLayout), Label(Tabbed), Label(Stacking), Label(Close), Label(ExitI3)];
    assert ConMenu(scratchFull) == seq(10, k requires 0 <= k < 10 => Label(acts[k]));
  }

  /** Every entry of either menu has a handler, and the entries are distinct. */
  lemma MenuHandled(scratchFull: bool)
    ensures forall k :: 0 <= k < 10 ==> ActionFor(ConMenu(scratchFull)[k]).Some?
    ensures forall j, k :: 0 <= j < k < 10 ==> ConMenu(scratchFull)[j] != ConMenu(scratchFull)[k]
  {
    var m, acts := ConMenu(scratchFull), MenuHandlers(scratchFull);
    MenuLabels(scratchFull);
    forall k | 0 <= k < 10 ensures ActionFor(m[k]).Some? {
      ActionForLabel(acts[k], m[k]);
    }
    forall j, k | 0 <= j < k < 10 ensures m[j] != m[k] {
      LabelsDistinct(acts[j], acts[k]);
    }
  }

  /** Why `async_con` stops. */
  datatype KeyError = KeyError(entry: string)

  /**
   * `async_con`: dmenu's answer (None when dmenu failed) picks a handler after
   * trailing whitespace is stripped; an empty answer does nothing and an
   * unknown entry raises KeyError.
   */
  function AsyncCon(input: Option<string>): (r: Result<Option<ConAction>, KeyError>)
    ensures (input.None? || input.value == "") ==> r == Ok(None)
    ensures input.Some? && input.value != "" ==>
              match ActionFor(Text.RStrip(input.value))
              case Some(a) => r == Ok(Some(a)) && Label(a) == Text.RStrip(input.value)
              case None => r.Err?
  {
    match input
    case None => Ok(None)
    case Some(answer) =>
      if answer == "" then Ok(None)
      else
        var entry := Text.RStrip(answer);
        match ActionFor(entry)
        case None => Err(KeyError(entry))
        case Some(a) => ActionForLabel(a, entry); Ok(Some(a))
  }

  /** None of the labels contains a line break. */
  predicate OneLine(labels: seq<string>)
  {
    forall k :: 0 <= k < |labels| ==> '\n' !in labels[k]
  }

  lemma MainOneLine()
    ensures OneLine(MainActions)
  {
  }

  lemma EmptyScratchOneLine()
    ensures OneLine(EmptyScratchActions)
  {
  }

  lemma FullScratchOneLine()
    ensures OneLine(FullScratchActions)
  {
  }

  lemma AuxOneLine()
    ensures OneLine(AuxActions)
  {
  }

  /** No label contains a line break. */
  lemma LabelOneLine(a: ConAction)
    ensures '\n' !in Label(a)
  {
    MainOneLine();
    EmptyScratchOneLine();
    FullScratchOneLine();
    AuxOneLine();
  }

  /** The menu text, one label per line, splits back into the labels dmenu shows. */
  lemma MenuLines(scratchFull: bool)
    ensures Text.Split(Text.Join(ConMenu(scratchFull), "\n"), "\n") == ConMenu(scratchFull)
  {
    var m := ConMenu(scratchFull);
    MenuHandled(scratchFull);
    forall k | 0 <= k < |m| ensures '\n' !in m[k] {
      var a := ActionFor(m[k]).value;
      ActionForLabel(a, m[k]);
      LabelOneLine(a);
    }
    Text.SplitJoin(m, '\n');
  }

  /** No key ends in whitespace, so `rstrip` leaves it whole. */
  lemma LabelEnds(a: ConAction)
    ensures |Label(a)| > 0 && !Text.IsSpace(Label(a)[|Label(a)| - 1])
  {
  }

  /** A key read back from dmenu, newline included, runs its handler. */
  lemma PickLabel(a: ConAction)
    ensures AsyncCon(Some(Label(a) + "\n")) == Ok(Some(a))
  {
    LabelEnds(a);
    Text.RStripNewline(Label(a));
    ActionForLabel(a, Label(a));
  }

  /** Choosing any line of the menu (dmenu prints it with a newline) runs its handler. */
  lemma PickMenuEntry(scratchFull: bool, k: nat)
    requires k < 10
    ensures AsyncCon(Some(ConMenu(scratchFull)[k] + "\n")) == Ok(ActionFor(ConMenu(scratchFull)[k]))
    ensures ActionFor(ConMenu(scratchFull)[k]).Some?
  {
    var a := MenuHandlers(scratchFull)[k];
    MenuLabels(scratchFull);
    ActionForLabel(a, Label(a));
    PickLabel(a);
  }

  /** What a handler does. */
  datatype Effect =
    | Command(cmd: string)
    | RunMenu       // `was_dmenu_running(); execute_command()`
    | ExitScript    // the exit script, started as a process

  const PasteCommand: string := "scratchpad show floating disable"

  /** The effects of each handler, in order. */
  function Effects(a: ConAction): (es: seq<Effect>)
    ensures |es| >= 1
    ensures (es == [ExitScript]) <==> a == ExitI3
    ensures RunMenu in es <==> a in {VerticalSplitAndRun, HorisontalSplitAndRun}
  {
    match a
    case Fullscreen => [Command("fullscreen")]
    case Floating => [Command("floating toggle")]
    case Cut => [Command("move scratchpad")]
    case Paste => [Command(PasteCommand)]
    case VerticalSplitAndRun => [Command("split v"), RunMenu]
    case HorisontalSplitAndRun => [Command("split h"), RunMenu]
    case VerticalSplitAndPaste => [Command("split v"), Command(PasteCommand)]
    case HorisontalSplitAndPaste => [Command("split h"), Command(PasteCommand)]
    case SplitLayout => [Command("layout toggle split")]
    case Tabbed => [Command("layout tabbed")]
    case Stacking => [Command("layout stacking")]
    case Close => [Command("kill")]
    case ExitI3 => [ExitScript]
  }

  /** The split-and-paste handlers split, then do what the paste handler does. */
  lemma SplitAndPasteIsSplitThenPaste()
    ensures Effects(VerticalSplitAndPaste) == [Command("split v")] + Effects(Paste)
    ensures Effects(HorisontalSplitAndPaste) == [Command("split h")] + Effects(Paste)
  {
  }

  // ---------------------------------------------------------------------------
  // The FIFO.
  // ---------------------------------------------------------------------------

  /**
   * The command taken from one opening of the FIFO: `chunks` are the values of
   * successive `fifo.read()` calls; the first empty one ends the loop, and the
   * command is the last non-empty read with trailing whitespace stripped.
   */
  function FifoCommand(chunks: seq<string>): (cmd: string)
    ensures (|chunks| == 0 || chunks[0] == "") ==> cmd == ""
    ensures |cmd| > 0 ==> !Text.IsSpace(cmd[|cmd| - 1])
  {
    FifoLoop(chunks, "")
  }

  function FifoLoop(chunks: seq<string>, cmd: string): (r: string)
    ensures (|chunks| == 0 || chunks[0] == "") ==> r == cmd
    ensures |r| > 0 && r != cmd ==> !Text.IsSpace(r[|r| - 1])
    ensures |cmd| > 0 && !Text.IsSpace(cmd[|cmd| - 1]) && |r| > 0 ==> !Text.IsSpace(r[|r| - 1])
  {
    if |chunks| == 0 || chunks[0] == "" then cmd
    else FifoLoop(chunks[1..], Text.RStrip(chunks[0]))
  }

  /** The last read before the writer closes decides, and chunks after the close do not count. */
  lemma {:induction false} FifoCommandIsLastRead(chunks: seq<string>, more: seq<string>, cmd: string)
    requires |chunks| > 0
    requires forall k :: 0 <= k < |chunks| ==> chunks[k] != ""
    ensures FifoLoop(chunks + [""] + more, cmd) == Text.RStrip(chunks[|chunks| - 1])
    ensures FifoLoop(chunks, cmd) == Text.RStrip(chunks[|chunks| - 1])
    decreases |chunks|
  {
    var s := chunks + [""] + more;
    assert s[0] == chunks[0];
    if |chunks| > 1 {
      assert s[1..] == chunks[1..] + [""] + more;
      FifoCommandIsLastRead(chunks[1..], more, Text.RStrip(chunks[0]));
    } else {
      assert s[1..] == [""] + more;
    }
  }

  /** What the FIFO dispatch starts. */
  datatype FifoAction =
    | ExecMenu | RenameMenu | SmartCreate | MoveToNew | ConMenuAction
    | SmartFullscreen | CreateWorkspaceAction | ExitI3Action | ScratchToFrom
    | SmartRun | Reconnect

  /**
   * The command strings that start each action; `menu_block 1` and the like
   * are `"menu_block %s" % LMB` with the left button 1 and the right button 3.
   */
  function Triggers(a: FifoAction): set<string>
  {
    match a
    case ExecMenu => {"menu_block 1", "exec"}
    case RenameMenu => {"menu_block 3", "rename_workspace"}
    case SmartCreate => {"move_block 1", "smart_create"}
    case MoveToNew => {"move_block 3", "move_to_new"}
    case ConMenuAction => {"con_block 1"}
    case SmartFullscreen => {"con_block 3", "smart_fullscreen"}
    case CreateWorkspaceAction => {"create_workspace"}
    case ExitI3Action => {"exit_i3"}
    case ScratchToFrom => {"scratch_to_from"}
    case SmartRun => {"smart_run"}
    case Reconnect => {"reconnect"}
  }

  /** The `if`/`elif` chain over the FIFO command; None is the final `pass`. */
  function Dispatch(cmd: string): (r: Option<FifoAction>)
    ensures forall a :: r == Some(a) <==> cmd in Triggers(a)
  {
    if cmd == "menu_block 1" || cmd == "exec" then Some(ExecMenu)
    else if cmd == "menu_block 3" || cmd == "rename_workspace" then Some(RenameMenu)
    else if cmd == "move_block 1" || cmd == "smart_create" then Some(SmartCreate)
    else if cmd == "move_block 3" || cmd == "move_to_new" then Some(MoveToNew)
    else if cmd == "con_block 1" then Some(ConMenuAction)
    else if cmd == "con_block 3" || cmd == "smart_fullscreen" then Some(SmartFullscreen)
    else if cmd == "create_workspace" then Some(CreateWorkspaceAction)
    else if cmd == "exit_i3" then Some(ExitI3Action)
    else if cmd == "scratch_to_from" then Some(ScratchToFrom)
    else if cmd == "smart_run" then Some(SmartRun)
    else if cmd == "reconnect" then Some(Reconnect)
    else None
  }

  /** No two actions share a command string. */
  lemma TriggersDisjoint(a: FifoAction, b: FifoAction, cmd: string)
    requires cmd in Triggers(a) && cmd in Triggers(b)
    ensures a == b
  {
    assert Dispatch(cmd) == Some(a);
  }

  /** The steps of a dispatched action. */
  datatype Step =
    | KillDmenu | OpenRunMenu | OpenRenameMenu | OpenConMenu
    | NewWorkspace | SmartRunStep | MoveToNewStep | SmartFullscreenStep
    | ExitScriptStep | ScratchToFromStep | ReconnectStep

  /**
   * The steps of an action given whether dmenu is already running: the three
   * menus are guarded by `was_dmenu_running() or ...`, which kills a running
   * dmenu instead of opening another.
   */
  function Steps(a: FifoAction, dmenuRunning: bool): (steps: seq<Step>)
    ensures |steps| >= 1
    ensures a in {ExecMenu, RenameMenu, ConMenuAction} ==> (steps == [KillDmenu] <==> dmenuRunning)
    ensures a !in {ExecMenu, RenameMenu, ConMenuAction} ==> KillDmenu !in steps
  {
    match a
    case ExecMenu => if dmenuRunning then [KillDmenu] else [OpenRunMenu]
    case RenameMenu => if dmenuRunning then [KillDmenu] else [OpenRenameMenu]
    case ConMenuAction => if dmenuRunning then [KillDmenu] else [OpenConMenu]
    case SmartCreate => [NewWorkspace, SmartRunStep]
    case MoveToNew => [MoveToNewStep]
    case SmartFullscreen => [SmartFullscreenStep]
    case CreateWorkspaceAction => [NewWorkspace]
    case ExitI3Action => [ExitScriptStep]
    case ScratchToFrom => [ScratchToFromStep]
    case SmartRun => [SmartRunStep]
    case Reconnect => [ReconnectStep]
  }

  /** Only the menus look at dmenu; `move_block 1` creates a workspace and then runs `smart_run`. */
  lemma StepsUnguarded(a: FifoAction, dmenuRunning: bool)
    requires a !in {ExecMenu, RenameMenu, ConMenuAction}
    ensures Steps(a, dmenuRunning) == Steps(a, !dmenuRunning)
    ensures Steps(SmartCreate, dmenuRunning) ==
              Steps(CreateWorkspaceAction, dmenuRunning) + Steps(SmartRun, dmenuRunning)
  {
  }
}
