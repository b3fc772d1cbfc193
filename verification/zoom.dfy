/**
 * The zoom mark: a patched i3 can "zoom" a container, and two daemons keep the
 * suffix `*Z` on the names of workspaces that hold a zoomed container.
 * `zoom_bar_d.py` reacts to window events; `daemon.py` relabels every workspace.
 * Renames are returned as the command strings sent over IPC.
 */
module Zoom {
  import opened Wrappers
  import opened ConTree
  import opened Workspaces
  import Text

  const ZoomedMark: string := "*Z"

  predicate IsMarked(name: string)
  {
    Text.EndsWith(name, ZoomedMark)
  }

  /** The name with the mark: `name + ZOOMED_MARK` unless it already ends in it. */
  function Marked(name: string): (r: string)
    ensures IsMarked(r)
    ensures IsMarked(name) ==> r == name
    ensures !IsMarked(name) ==> |r| == |name| + 2 && r[..|name|] == name
  {
    if IsMarked(name) then name else name + ZoomedMark
  }

  /** The name without the mark: `name[:-2]` of a marked name; others are kept. */
  function Unmarked(name: string): (r: string)
    ensures !IsMarked(name) ==> r == name
    ensures IsMarked(name) ==> r + ZoomedMark == name
  {
    if IsMarked(name) then name[..|name| - 2] else name
  }

  /** Marking twice is marking once. */
  lemma MarkedIdempotent(name: string)
    ensures Marked(Marked(name)) == Marked(name)
  {
  }

  /** Removing the mark undoes adding it: `remove(add(n)) == n` for an unmarked `n`. */
  lemma UnmarkedMarked(name: string)
    requires !IsMarked(name)
    ensures Unmarked(Marked(name)) == name
  {
    var m := name + ZoomedMark;
    assert m[..|m| - 2] == name;
  }

  /** Adding the mark back to a marked name's stem gives the name again, unless the stem was marked too. */
  lemma MarkedUnmarked(name: string)
    requires IsMarked(name) && !IsMarked(Unmarked(name))
    ensures Marked(Unmarked(name)) == name
  {
  }

  /** A command renaming the focused workspace. */
  function RenameFocused(newName: string): string
  {
    "rename workspace to " + newName
  }

  /** A command renaming one workspace to another name. */
  function RenameCommand(from: string, to: string): string
  {
    "rename workspace " + from + " to " + to
  }

  /** `add_z_mark_to_focused`: a rename only when the focused name lacks the mark. */
  function AddZMarkToFocused(wss: seq<Workspace>): (cmd: Option<string>)
    ensures cmd.None? <==> IsMarked(FocusedName(wss))
    ensures cmd.Some? ==> cmd.value == RenameFocused(Marked(FocusedName(wss)))
  {
    var name := FocusedName(wss);
    if IsMarked(name) then None else Some(RenameFocused(name + ZoomedMark))
  }

  /** `remove_z_mark_from_focused`: a rename only when the focused name has the mark. */
  function RemoveZMarkFromFocused(wss: seq<Workspace>): (cmd: Option<string>)
    ensures cmd.None? <==> !IsMarked(FocusedName(wss))
    ensures cmd.Some? ==> cmd.value == RenameFocused(Unmarked(FocusedName(wss)))
  {
    var name := FocusedName(wss);
    if IsMarked(name) then Some(RenameFocused(name[..|name| - 2])) else None
  }

  datatype Rename = Rename(from: string, to: string)

  function Commands(rs: seq<Rename>): (cmds: seq<string>)
    ensures |cmds| == |rs|
    ensures forall k :: 0 <= k < |rs| ==> cmds[k] == RenameCommand(rs[k].from, rs[k].to)
  {
    if |rs| == 0 then [] else [RenameCommand(rs[0].from, rs[0].to)] + Commands(rs[1..])
  }

  /** `unmark_all`: every marked workspace, in order, loses its mark. */
  function UnmarkAll(wss: seq<Workspace>): (rs: seq<Rename>)
    ensures forall k :: 0 <= k < |rs| ==> IsMarked(rs[k].from) && rs[k].to + ZoomedMark == rs[k].from
    ensures |rs| == 0 <==> forall k :: 0 <= k < |wss| ==> !IsMarked(wss[k].name)
    ensures |rs| <= |wss|
  {
    if |wss| == 0 then []
    else
      var name := wss[0].name;
      var rest := UnmarkAll(wss[1..]);
      assert forall k :: 1 <= k < |wss| ==> wss[k] == wss[1..][k - 1];
      if IsMarked(name) then [Rename(name, name[..|name| - 2])] + rest else rest
  }

  // ---------------------------------------------------------------------------
  // mark_all_zoomed.
  // ---------------------------------------------------------------------------

  predicate IsZoomed(c: Con)
  {
    c.zoomed
  }

  /** `find_any_in_tree(tree, 'name', name)`. */
  function HasName(name: string): Con -> bool
  {
    (c: Con) => c.name == name
  }

  /**
   * The zoom state the intended pass gives a workspace: the branch named like
   * it holds a zoomed container (the branch itself included, floating
   * containers not searched). A workspace whose branch is missing counts as
   * not zoomed; the code as written raises there instead (see `CrashAt`).
   */
  function BranchZoomed(tree: Con, name: string): (z: bool)
    ensures z <==> FindAnyInTree(tree, HasName(name)).Some?
                   && FindAnyInTree(FindAnyInTree(tree, HasName(name)).value, IsZoomed).Some?
  {
    match FindAnyInTree(tree, HasName(name))
    case None => false
    case Some(branch) => FindAnyInTree(branch, IsZoomed).Some?
  }

  /**
   * Why the code as written stops: `find_any_in_tree(None, ...)` raises
   * AttributeError on `None.keys()`, and `'... %s to %s' % name, name[:-2]`
   * raises TypeError (two placeholders, one argument).
   */
  datatype Crash = MissingBranch | FormatTypeError

  /**
   * Where `mark_all_zoomed` as written stops on a workspace: when no node is
   * named like it, at the zoom search; otherwise when its name carries the
   * mark, zoomed or not, at the format of the unmarking rename.
   */
  function CrashAt(tree: Con, name: string): (c: Option<Crash>)
    ensures c == Some(MissingBranch) <==> FindAnyInTree(tree, HasName(name)).None?
    ensures c == Some(FormatTypeError) <==> FindAnyInTree(tree, HasName(name)).Some? && IsMarked(name)
  {
    if FindAnyInTree(tree, HasName(name)).None? then Some(MissingBranch)
    else if IsMarked(name) then Some(FormatTypeError)
    else None
  }

  /** What a pass as written sent before it stopped, and why it stopped, if it did. */
  datatype Pass = Pass(sent: seq<Rename>, crash: Option<Crash>)

  /**
   * `mark_all_zoomed` as written: workspaces are visited in order; an
   * unmarked workspace whose branch is zoomed gets the mark; the first
   * workspace where `CrashAt` says the code raises ends the pass, and the
   * renames already sent stay sent.
   */
  function MarkAllZoomedAsWritten(tree: Con, wss: seq<Workspace>): (p: Pass)
    ensures p.crash.None? <==> forall k :: 0 <= k < |wss| ==> CrashAt(tree, wss[k].name).None?
    ensures |p.sent| <= |wss|
    ensures forall k :: 0 <= k < |p.sent| ==> p.sent[k].to == p.sent[k].from + ZoomedMark
  {
    if |wss| == 0 then Pass([], None)
    else
      var name := wss[0].name;
      assert forall k :: 1 <= k < |wss| ==> wss[k] == wss[1..][k - 1];
      match CrashAt(tree, name)
      case Some(c) => Pass([], Some(c))
      case None =>
        var rest := MarkAllZoomedAsWritten(tree, wss[1..]);
        if BranchZoomed(tree, name) then Pass([Rename(name, name + ZoomedMark)] + rest.sent, rest.crash)
        else rest
  }

  /** The rename that brings one name in line with its zoom state, if any is needed. */
  function Relabel(name: string, zoomed: bool): (r: Option<string>)
    ensures r.None? <==> (zoomed == IsMarked(name))
    ensures r.Some? && zoomed ==> r.value == Marked(name) && IsMarked(r.value)
    ensures r.Some? && !zoomed ==> r.value + ZoomedMark == name
  {
    if zoomed && !IsMarked(name) then Some(name + ZoomedMark)
    else if !zoomed && IsMarked(name) then Some(name[..|name| - 2])
    else None
  }

  /** A name that does not end in the mark twice. */
  predicate NoDoubleMark(name: string)
  {
    IsMarked(name) ==> !IsMarked(Unmarked(name))
  }

  /** The name a workspace has after one pass. */
  function AfterRelabel(name: string, zoomed: bool): string
  {
    Relabel(name, zoomed).GetOr(name)
  }

  /**
   * After one pass every name agrees with its zoom state, so a second pass
   * renames nothing, unless the name ended in the mark twice.
   */
  lemma RelabelSettles(name: string, zoomed: bool)
    requires NoDoubleMark(name)
    ensures IsMarked(AfterRelabel(name, zoomed)) == zoomed
    ensures Relabel(AfterRelabel(name, zoomed), zoomed).None?
  {
    if zoomed && !IsMarked(name) {
      UnmarkedMarked(name);
    }
  }

  /** A name ending in `*Z*Z` keeps one mark after being stripped, so the second pass renames again. */
  lemma RelabelDoubleMark()
    ensures Relabel("1*Z*Z", false) == Some("1*Z")
    ensures Relabel("1*Z", false) == Some("1")
  {
    assert "1*Z*Z"[3..] == ZoomedMark;
    assert "1*Z*Z"[..3] == "1*Z";
    assert "1*Z"[1..] == ZoomedMark;
    assert "1*Z"[..1] == "1";
  }

  /**
   * `mark_all_zoomed` as intended: each workspace whose name disagrees with the
   * zoom state of its branch is renamed, in order, and no call raises.
   */
  function MarkAllZoomed(tree: Con, wss: seq<Workspace>): (rs: seq<Rename>)
    ensures |rs| <= |wss|
    ensures forall k :: 0 <= k < |rs| ==>
              rs[k].to == rs[k].from + ZoomedMark || rs[k].to + ZoomedMark == rs[k].from
  {
    if |wss| == 0 then []
    else
      var name := wss[0].name;
      var rest := MarkAllZoomed(tree, wss[1..]);
      match Relabel(name, BranchZoomed(tree, name))
      case None => rest
      case Some(n) => [Rename(name, n)] + rest
  }

  /**
   * The pass as written sends what the intended pass sends for the workspaces
   * before the first one it raises on, then stops with that workspace's crash;
   * when it raises on none, it sends exactly the intended renames.
   */
  lemma {:induction false} MarkAllZoomedAgrees(tree: Con, wss: seq<Workspace>, k: nat)
    requires k <= |wss|
    requires forall i :: 0 <= i < k ==> CrashAt(tree, wss[i].name).None?
    requires k < |wss| ==> CrashAt(tree, wss[k].name).Some?
    ensures MarkAllZoomedAsWritten(tree, wss).sent == MarkAllZoomed(tree, wss[..k])
    ensures MarkAllZoomedAsWritten(tree, wss).crash == if k == |wss| then None else CrashAt(tree, wss[k].name)
    decreases k
  {
    if k > 0 {
      assert forall i :: 0 <= i < k - 1 ==> wss[1..][i] == wss[i + 1];
      MarkAllZoomedAgrees(tree, wss[1..], k - 1);
      assert wss[..k][1..] == wss[1..][..k - 1];
    }
  }

  /**
   * A stale mark on a workspace that is no longer zoomed makes the code as
   * written raise TypeError before sending anything; the intended pass
   * strips the mark.
   */
  lemma MarkAllZoomedStaleMark(tree: Con, ws: Workspace)
    requires ws.name == "1*Z"
    requires FindAnyInTree(tree, HasName("1*Z")).Some? && !BranchZoomed(tree, "1*Z")
    ensures MarkAllZoomedAsWritten(tree, [ws]) == Pass([], Some(FormatTypeError))
    ensures MarkAllZoomed(tree, [ws]) == [Rename("1*Z", "1")]
  {
    assert IsMarked("1*Z") by {
      assert "1*Z"[1..] == ZoomedMark;
    }
    assert "1*Z"[..1] == "1";
  }

  /** A workspace that holds a node named `1*Z` and no zoomed container. */
  lemma StaleMarkTreeExists()
    ensures var ws := Con(1, "workspace", "1*Z", 1, false, false, "splith", "", Rect(0, 0, 0, 0),
                          Rect(0, 0, 0, 0), NoAppId, None, [], []);
            var tree := Con(0, "root", "root", 0, false, false, "splith", "", Rect(0, 0, 0, 0),
                            Rect(0, 0, 0, 0), NoAppId, None, [ws], []);
            FindAnyInTree(tree, HasName("1*Z")) == Some(ws) && !BranchZoomed(tree, "1*Z")
  {
    var ws := Con(1, "workspace", "1*Z", 1, false, false, "splith", "", Rect(0, 0, 0, 0),
                  Rect(0, 0, 0, 0), NoAppId, None, [], []);
    var tree := Con(0, "root", "root", 0, false, false, "splith", "", Rect(0, 0, 0, 0),
                    Rect(0, 0, 0, 0), NoAppId, None, [ws], []);
    assert "root" != "1*Z" by { assert "root"[0] != "1*Z"[0]; }
    assert FindAnyInTree(ws, HasName("1*Z")) == Some(ws);
    assert FindAnyIn([ws], HasName("1*Z")) == Some(ws);
    assert FindAnyIn(ws.nodes, IsZoomed) == None;
  }

  // ---------------------------------------------------------------------------
  // The event dispatch of the listener's main loop.
  // ---------------------------------------------------------------------------

  /** What a window event makes the listener do. */
  datatype Reaction = AddMark | RemoveMark | MarkAll

  /**
   * The decision on one window event with the given `change` and the
   * container's `focused` and `zoomed` flags.
   */
  function React(change: string, focused: bool, zoomed: bool): (r: Option<Reaction>)
    ensures change != "zoomed" && change != "close" ==> r.None?
    ensures r.None? <==> !((change == "close" && zoomed) || (change == "zoomed" && focused))
    ensures r == Some(AddMark) <==> change == "zoomed" && focused && zoomed
    ensures r == Some(RemoveMark) <==>
              focused && ((change == "close" && zoomed) || (change == "zoomed" && !zoomed))
    ensures r == Some(MarkAll) <==> change == "close" && zoomed && !focused
  {
    if change == "close" && zoomed then
      (if focused then Some(RemoveMark) else Some(MarkAll))
    else if focused && change == "zoomed" then
      (if zoomed then Some(AddMark) else Some(RemoveMark))
    else None
  }

  /**
   * The commands one window event sends as intended, given the tree and
   * workspaces queried at that point: the marking pass is `MarkAllZoomed`.
   */
  function HandleEvent(tree: Con, wss: seq<Workspace>, change: string, focused: bool, zoomed: bool): (cmds: seq<string>)
    ensures React(change, focused, zoomed).None? ==> cmds == []
    ensures React(change, focused, zoomed) == Some(AddMark) ==>
              (cmds == [] <==> IsMarked(FocusedName(wss)))
    ensures React(change, focused, zoomed) == Some(RemoveMark) ==>
              (cmds == [] <==> !IsMarked(FocusedName(wss)))
    ensures React(change, focused, zoomed) == Some(MarkAll) ==> |cmds| <= |wss|
  {
    match React(change, focused, zoomed)
    case None => []
    case Some(AddMark) => (match AddZMarkToFocused(wss) case None => [] case Some(c) => [c])
    case Some(RemoveMark) => (match RemoveZMarkFromFocused(wss) case None => [] case Some(c) => [c])
    case Some(MarkAll) => Commands(MarkAllZoomed(tree, wss))
  }

  /**
   * The commands one window event sends as `main` runs it: the marking pass is
   * the one as written, so it may stop part way with a crash. When it does
   * not crash it sends what the intended handler sends.
   */
  function HandleEventAsWritten(tree: Con, wss: seq<Workspace>, change: string, focused: bool, zoomed: bool)
    : (r: (seq<string>, Option<Crash>))
    ensures r.1.None? ==> r.0 == HandleEvent(tree, wss, change, focused, zoomed)
    ensures r.1.Some? ==> React(change, focused, zoomed) == Some(MarkAll)
                          && exists k :: 0 <= k < |wss| && r.1 == CrashAt(tree, wss[k].name)
  {
    match React(change, focused, zoomed)
    case Some(MarkAll) =>
      var p := MarkAllZoomedAsWritten(tree, wss);
      if p.crash.None? then
        MarkAllZoomedAgrees(tree, wss, |wss|);
        assert wss[..|wss|] == wss;
        (Commands(p.sent), None)
      else
        FirstCrash(tree, wss);
        (Commands(p.sent), p.crash)
    case _ => (HandleEvent(tree, wss, change, focused, zoomed), None)
  }

  /** When the pass as written crashes, it is on the crash of some workspace. */
  lemma {:induction false} FirstCrash(tree: Con, wss: seq<Workspace>)
    ensures MarkAllZoomedAsWritten(tree, wss).crash.Some? ==>
              exists k :: 0 <= k < |wss| && MarkAllZoomedAsWritten(tree, wss).crash == CrashAt(tree, wss[k].name)
    decreases |wss|
  {
    if |wss| > 0 && CrashAt(tree, wss[0].name).None? {
      FirstCrash(tree, wss[1..]);
      if MarkAllZoomedAsWritten(tree, wss[1..]).crash.Some? {
        var k :| 0 <= k < |wss[1..]| && MarkAllZoomedAsWritten(tree, wss[1..]).crash == CrashAt(tree, wss[1..][k].name);
        assert wss[1..][k] == wss[k + 1];
      }
    }
  }

  /**
   * Zooming the focused container and unzooming it again leaves the focused
   * workspace with its original name, when that name was not marked.
   */
  lemma ZoomUnzoomRestoresName(wss: seq<Workspace>, k: nat)
    requires k < |wss| && wss[k].focused && !IsMarked(wss[k].name)
    requires forall i :: 0 <= i < k ==> !wss[i].focused
    ensures AddZMarkToFocused(wss) == Some(RenameFocused(wss[k].name + ZoomedMark))
    ensures RemoveZMarkFromFocused(wss[k := wss[k].(name := wss[k].name + ZoomedMark)])
              == Some(RenameFocused(wss[k].name))
  {
    FocusedNameIsFirstFocused(wss, k);
    var wss' := wss[k := wss[k].(name := wss[k].name + ZoomedMark)];
    FocusedNameIsFirstFocused(wss', k);
    UnmarkedMarked(wss[k].name);
  }
}
