/**
 * The workspace restorer (`sway_restore_workspace/srws.py`): a saved workspace
 * tree is replayed on a new workspace by walking it, launching one application
 * per saved window, and sending split, layout and focus commands.
 *
 * The window manager is an oracle: the saved tree and the `get_workspaces`
 * reply are inputs, the window count seen while waiting for a launch is a
 * sequence of polls, and the container focused after each launch is a map
 * from saved container ids. The output is the list of steps in order.
 */
module Restore {
  import opened Wrappers
  import opened ConTree
  import opened Workspaces
  import Text

  // ---------------------------------------------------------------------------
  // get_and_remember_app and find_first_deepest_app_node.
  // ---------------------------------------------------------------------------

  /** A saved container that may still be launched: a truthy `app_id`, an id not yet taken. */
  predicate Eligible(c: Con, extracted: seq<int>)
  {
    HasApp(c) && c.id !in extracted
  }

  /** `get_and_remember_app`: the node itself when eligible, and its id is recorded. */
  function GetAndRemember(node: Con, extracted: seq<int>): (r: (Option<Con>, seq<int>))
    ensures r.0.Some? <==> Eligible(node, extracted)
    ensures r.0.Some? ==> r.0.value == node && r.1 == extracted + [node.id]
    ensures r.0.None? ==> r.1 == extracted
  {
    if HasApp(node) && node.id !in extracted then (Some(node), extracted + [node.id])
    else (None, extracted)
  }

  /**
   * `find_first_deepest_app_node`: walk down the first children, and take the
   * deepest eligible container on the way, the subtree's root last.
   */
  function FirstDeepest(subtree: Con, extracted: seq<int>): (r: (Option<Con>, seq<int>))
    ensures r.0.Some? ==> Eligible(r.0.value, extracted) && r.1 == extracted + [r.0.value.id]
    ensures r.0.None? ==> r.1 == extracted
    decreases Size(subtree)
  {
    if |subtree.nodes| == 0 then GetAndRemember(subtree, extracted)
    else
      var node := subtree.nodes[0];
      assert Size(node) < Size(subtree) by {
        assert ForestSize(subtree.nodes) == Size(node) + ForestSize(subtree.nodes[1..]);
      }
      var (found, extracted1) :=
        if |node.nodes| > 0 then FirstDeepest(node, extracted) else GetAndRemember(node, extracted);
      if found.Some? then (found, extracted1) else GetAndRemember(subtree, extracted1)
  }

  /** Reference: the chain of first children from `c` down, `c` first. */
  function FirstChain(c: Con): (s: seq<Con>)
    ensures |s| >= 1 && s[0] == c
    decreases Size(c)
  {
    if |c.nodes| == 0 then [c]
    else
      assert ForestSize(c.nodes) == Size(c.nodes[0]) + ForestSize(c.nodes[1..]);
      [c] + FirstChain(c.nodes[0])
  }

  /** The last element of `s` that is eligible. */
  function LastEligible(s: seq<Con>, extracted: seq<int>): (r: Option<Con>)
    ensures r.Some? ==> r.value in s && Eligible(r.value, extracted)
    ensures r.None? <==> forall k :: 0 <= k < |s| ==> !Eligible(s[k], extracted)
  {
    if |s| == 0 then None
    else if Eligible(s[|s| - 1], extracted) then Some(s[|s| - 1])
    else LastEligible(s[..|s| - 1], extracted)
  }

  lemma {:induction false} LastEligibleCons(c: Con, rest: seq<Con>, extracted: seq<int>)
    ensures LastEligible([c] + rest, extracted) ==
              if LastEligible(rest, extracted).Some? then LastEligible(rest, extracted)
              else if Eligible(c, extracted) then Some(c) else None
    decreases |rest|
  {
    if |rest| > 0 {
      var s := [c] + rest;
      assert s[|s| - 1] == rest[|rest| - 1];
      assert s[..|s| - 1] == [c] + rest[..|rest| - 1];
      LastEligibleCons(c, rest[..|rest| - 1], extracted);
    } else {
      assert [c] + rest == [c];
      assert [c][..0] == [];
    }
  }

  /** The search returns the deepest eligible container of the first-child chain. */
  lemma {:induction false} FirstDeepestIsLastEligible(subtree: Con, extracted: seq<int>)
    ensures FirstDeepest(subtree, extracted).0 == LastEligible(FirstChain(subtree), extracted)
    decreases Size(subtree)
  {
    if |subtree.nodes| == 0 {
      assert FirstChain(subtree) == [subtree];
      assert [subtree][..0] == [];
    } else {
      var node := subtree.nodes[0];
      assert ForestSize(subtree.nodes) == Size(node) + ForestSize(subtree.nodes[1..]);
      assert FirstChain(subtree) == [subtree] + FirstChain(node);
      LastEligibleCons(subtree, FirstChain(node), extracted);
      if |node.nodes| > 0 {
        FirstDeepestIsLastEligible(node, extracted);
      } else {
        assert FirstChain(node) == [node];
        assert [node][..0] == [];
      }
    }
  }

  // ---------------------------------------------------------------------------
  // set_parents and find_parent_app_node.
  // ---------------------------------------------------------------------------

  /** A `parent` back-link that `set_parents` stores: `child['parent'] = parent`. */
  datatype Link = Link(child: Con, parent: Con)

  /** `set_parents`: a link from every tiling descendant to its container, in pre-order. */
  function ParentLinks(subtree: Con): (r: seq<Link>)
    ensures forall k :: 0 <= k < |r| ==> r[k].child in r[k].parent.nodes
    decreases Size(subtree), 0
  {
    ParentLinksIn(subtree, subtree.nodes)
  }

  function ParentLinksIn(parent: Con, rest: seq<Con>): (r: seq<Link>)
    requires forall k :: 0 <= k < |rest| ==> rest[k] in parent.nodes
    requires ForestSize(rest) <= ForestSize(parent.nodes)
    ensures forall k :: 0 <= k < |r| ==> r[k].child in r[k].parent.nodes
    decreases ForestSize(rest), 1
  {
    if |rest| == 0 then []
    else
      [Link(rest[0], parent)] + ParentLinks(rest[0]) + ParentLinksIn(parent, rest[1..])
  }

  function Children(links: seq<Link>): (r: seq<Con>)
    ensures |r| == |links|
    ensures forall k :: 0 <= k < |links| ==> r[k] == links[k].child
  {
    if |links| == 0 then [] else [links[0].child] + Children(links[1..])
  }

  lemma ChildrenAppend(a: seq<Link>, b: seq<Link>)
    ensures Children(a + b) == Children(a) + Children(b)
  {
  }

  /** Every tiling descendant gets exactly one back-link, in pre-order. */
  lemma {:induction false} ParentLinksCover(subtree: Con)
    ensures Children(ParentLinks(subtree)) == Preorder(subtree, false)
    decreases Size(subtree), 0
  {
    ParentLinksInCover(subtree, subtree.nodes);
  }

  lemma {:induction false} ParentLinksInCover(parent: Con, rest: seq<Con>)
    requires forall k :: 0 <= k < |rest| ==> rest[k] in parent.nodes
    requires ForestSize(rest) <= ForestSize(parent.nodes)
    ensures Children(ParentLinksIn(parent, rest)) == PreorderForest(rest, false)
    decreases ForestSize(rest), 1
  {
    if |rest| > 0 {
      var head := [Link(rest[0], parent)];
      ChildrenAppend(head + ParentLinks(rest[0]), ParentLinksIn(parent, rest[1..]));
      ChildrenAppend(head, ParentLinks(rest[0]));
      ParentLinksCover(rest[0]);
      ParentLinksInCover(parent, rest[1..]);
    }
  }

  /**
   * `find_parent_app_node`: `chain` holds the `app_node` entry of each
   * container from the root down to the node itself (None where the key is
   * absent); the walk up the back-links takes the nearest one present.
   */
  function Nearest(chain: seq<Option<Con>>): (r: Option<Con>)
    ensures r.None? <==> forall k :: 0 <= k < |chain| ==> chain[k].None?
    ensures r.Some? ==> r in chain
  {
    if |chain| == 0 then None
    else if chain[|chain| - 1].Some? then chain[|chain| - 1]
    else Nearest(chain[..|chain| - 1])
  }

  /** The entry found belongs to the nearest container, counting up from the node, that has one. */
  lemma {:induction false} NearestIsNearest(chain: seq<Option<Con>>, k: nat)
    requires k < |chain| && chain[k].Some?
    requires forall j :: k < j < |chain| ==> chain[j].None?
    ensures Nearest(chain) == chain[k]
    decreases |chain|
  {
    if k < |chain| - 1 {
      NearestIsNearest(chain[..|chain| - 1], k);
    }
  }

  // ---------------------------------------------------------------------------
  // launch: the command and the wait.
  // ---------------------------------------------------------------------------

  /** `EXECUTABLES`: application ids whose executable has another name. */
  function Executable(appId: string): (exe: string)
    ensures appId == "Alacritty" ==> exe == "alacritty"
    ensures appId != "Alacritty" ==> exe == appId
  {
    if appId == "Alacritty" then "alacritty" else appId
  }

  /** The shell command `launch` runs for an application node. */
  function LaunchCommand(node: Con): (cmd: string)
    requires node.appId.AppIdOf?
  {
    var exe := Executable(node.appId.app);
    match node.appArgs
    case Some(args) => if args != "" then exe + " " + args else exe
    case None => exe
  }

  /**
   * The command is the executable, then the arguments after one space when
   * there are any: splitting at the first space recovers both, provided the
   * executable name has no space.
   */
  lemma LaunchCommandParts(node: Con)
    requires node.appId.AppIdOf? && ' ' !in Executable(node.appId.app)
    ensures node.appArgs.Some? && node.appArgs.value != "" ==>
              Text.Split(LaunchCommand(node), " ") ==
                [Executable(node.appId.app)] + Text.Split(node.appArgs.value, " ")
    ensures node.appArgs.None? || node.appArgs.value == "" ==>
              Text.Split(LaunchCommand(node), " ") == [Executable(node.appId.app)]
  {
    var exe := Executable(node.appId.app);
    var s := LaunchCommand(node);
    if node.appArgs.Some? && node.appArgs.value != "" {
      var args := node.appArgs.value;
      assert s == exe + " " + args;
      forall i: nat | i < |exe| ensures !Text.OccursAt(s, " ", i) {
        assert s[i..i + 1] == [exe[i]];
      }
      Text.SplitAtFirst(exe, " ", args);
    } else {
      forall i: nat | i < |exe| ensures !Text.OccursAt(exe, " ", i) {
        assert exe[i..i + 1] == [exe[i]];
      }
      Text.SplitWithoutSeparator(exe, " ");
    }
  }

  const LaunchTimeoutSeconds: real := 10.0

  /** One poll of the wait loop: the application count and the seconds since the launch. */
  datatype Poll = Poll(count: nat, elapsed: real)

  /** How the wait ends: the count rose after `polls` polls, the timeout hit, or the polls ran out. */
  datatype WaitOutcome = Appeared(polls: nat) | TimedOut(polls: nat) | StillWaiting

  /**
   * The loop `while new <= before`: each round polls the count and then exits
   * with status 1 when more than ten seconds have passed, even if the count
   * has just risen.
   */
  method Wait(before: nat, polls: seq<Poll>) returns (outcome: WaitOutcome)
    ensures outcome.Appeared? ==>
              0 < outcome.polls <= |polls| &&
              polls[outcome.polls - 1].count > before &&
              polls[outcome.polls - 1].elapsed <= LaunchTimeoutSeconds
    ensures outcome.TimedOut? ==>
              0 < outcome.polls <= |polls| && polls[outcome.polls - 1].elapsed > LaunchTimeoutSeconds
    ensures outcome.StillWaiting? ==>
              forall k :: 0 <= k < |polls| ==> polls[k].count <= before && polls[k].elapsed <= LaunchTimeoutSeconds
    ensures outcome.Appeared? || outcome.TimedOut? ==>
              forall k :: 0 <= k < outcome.polls - 1 ==>
                polls[k].count <= before && polls[k].elapsed <= LaunchTimeoutSeconds
  {
    var current := before;
    var i := 0;
    while current <= before
      invariant 0 <= i <= |polls|
      invariant forall k :: 0 <= k < i ==> polls[k].count <= before && polls[k].elapsed <= LaunchTimeoutSeconds
      invariant current <= before
      decreases |polls| - i
    {
      if i == |polls| {
        return StillWaiting;
      }
      current := polls[i].count;
      if polls[i].elapsed > LaunchTimeoutSeconds {
        return TimedOut(i + 1);
      }
      if current > before {
        return Appeared(i + 1);
      }
      i := i + 1;
    }
    assert false;
    return StillWaiting;
  }

  // ---------------------------------------------------------------------------
  // get_scaled_size and split.
  // ---------------------------------------------------------------------------

  /** `int(a / b)`: the quotient truncated toward zero. */
  function TruncDiv(a: int, b: int): (q: int)
    requires b != 0
    ensures a >= 0 && b > 0 ==> q * b <= a < (q + 1) * b
  {
    var n := if a < 0 then -a else a;
    var d := if b < 0 then -b else b;
    if (a < 0) == (b < 0) then n / d else -(n / d)
  }

  datatype ScaleError = NoWorkspaceData | ZeroDivision

  /**
   * `get_scaled_size`: the node's width and its height including the title bar,
   * scaled from the saved workspace rect to the live one. Without both rects
   * there is nothing to scale; a saved rect with zero width or height makes
   * the division raise.
   */
  function ScaledSize(node: Con, layout: Option<Rect>, workspace: Option<Rect>): (r: Result<(int, int), ScaleError>)
    ensures (layout.None? || workspace.None?) <==> r == Err(NoWorkspaceData)
    ensures r == Err(ZeroDivision) <==>
              layout.Some? && workspace.Some? && (layout.value.width == 0 || layout.value.height == 0)
  {
    if workspace.None? || layout.None? then Err(NoWorkspaceData)
    else
      var l := layout.value;
      var w := workspace.value;
      if l.width == 0 || l.height == 0 then Err(ZeroDivision)
      else
        Ok((TruncDiv(node.rect.width * w.width, l.width),
            TruncDiv((node.rect.height + node.decoRect.height) * w.height, l.height)))
  }

  /** On a live workspace of the saved size every node keeps its size, title bar added. */
  lemma ScaledSizeSameRect(node: Con, rect: Rect)
    requires rect.width > 0 && rect.height > 0
    ensures ScaledSize(node, Some(rect), Some(rect)) ==
              Ok((node.rect.width, node.rect.height + node.decoRect.height))
  {
    var h := node.rect.height + node.decoRect.height;
    TruncDivExact(node.rect.width, rect.width);
    TruncDivExact(h, rect.height);
  }

  lemma TruncDivExact(a: int, b: int)
    requires b > 0
    ensures TruncDiv(a * b, b) == a
  {
    var n := if a < 0 then -a else a;
    assert n * b >= 0;
    DivExact(n, b);
    if a < 0 {
      assert -(a * b) == n * b;
    }
  }

  /** `(n * b) / b == n` for a positive divisor. */
  lemma DivExact(n: nat, b: int)
    requires b > 0
    ensures (n * b) / b == n
  {
    var q := (n * b) / b;
    var r := (n * b) % b;
    assert n * b == q * b + r && 0 <= r < b;
    assert (n - q) * b == n * b - q * b;
    MultipleBelowDivisor(n - q, b);
  }

  /** The only multiple of `b` in `[0, b)` is zero. */
  lemma MultipleBelowDivisor(x: int, b: int)
    requires b > 0 && 0 <= x * b < b
    ensures x == 0
  {
  }

  /** Scaling never exceeds the proportional share: `w * l.width <= n.width * ws.width`. */
  lemma ScaledSizeBounds(node: Con, l: Rect, w: Rect)
    requires l.width > 0 && l.height > 0 && node.rect.width >= 0 && w.width >= 0
    requires node.rect.height + node.decoRect.height >= 0 && w.height >= 0
    ensures ScaledSize(node, Some(l), Some(w)).Ok?
    ensures var (x, y) := ScaledSize(node, Some(l), Some(w)).value;
            x * l.width <= node.rect.width * w.width < (x + 1) * l.width &&
            y * l.height <= (node.rect.height + node.decoRect.height) * w.height < (y + 1) * l.height
  {
  }

  /** `split`: the split command (an unset orientation splits horizontally), then the layout if set. */
  function SplitCommands(node: Con): (cmds: seq<string>)
    ensures |cmds| == (if node.layout != "none" then 2 else 1)
    ensures Text.StartsWith(cmds[0], "split ")
    ensures cmds[0][|"split "|..] == if node.orientation == "none" then "horizontal" else node.orientation
    ensures |cmds| == 2 ==> Text.StartsWith(cmds[1], "layout ") && cmds[1][|"layout "|..] == node.layout
  {
    var orientation := if node.orientation == "none" then "horizontal" else node.orientation;
    var split := "split " + orientation;
    assert split[|"split "|..] == orientation;
    if node.layout != "none" then
      var layout := "layout " + node.layout;
      assert layout[|"layout "|..] == node.layout;
      [split, layout]
    else [split]
  }

  // ---------------------------------------------------------------------------
  // count_real_apps.
  // ---------------------------------------------------------------------------

  function IsFocused(c: Con): bool
  {
    c.focused
  }

  /**
   * `count_real_apps`: the number of containers with an `app_id` key below the
   * focused workspace; None where no workspace is found and the code raises.
   */
  function CountRealApps(tree: Con): (r: Option<nat>)
    ensures r.Some? <==>
              FindConParentWorkspace(tree, IsFocused).Some? &&
              FindConParentWorkspace(tree, IsFocused).value.workspace.Some?
  {
    match FindConParentWorkspace(tree, IsFocused)
    case None => None
    case Some(hit) =>
      match hit.workspace
      case None => None
      case Some(ws) => Some(|FindApps(ws.nodes, [])|)
  }

  /** The count is the number of containers with an `app_id` key in the workspace's tiling subtree. */
  lemma CountRealAppsIsFilter(tree: Con)
    requires CountRealApps(tree).Some?
    ensures CountRealApps(tree).value ==
              |Filter(PreorderForest(FindConParentWorkspace(tree, IsFocused).value.workspace.value.nodes, false), HasAppIdKey)|
  {
    var ws := FindConParentWorkspace(tree, IsFocused).value.workspace.value;
    FindAppsIsFilter(ws.nodes, []);
    assert [] + Filter(PreorderForest(ws.nodes, false), HasAppIdKey) == Filter(PreorderForest(ws.nodes, false), HasAppIdKey);
  }

  // ---------------------------------------------------------------------------
  // traverse.
  // ---------------------------------------------------------------------------

  /** One step of the replay. */
  datatype Op =
    | Focus(app: Con)                 // focus the window launched for the saved container `app`
    | Send(cmd: string)               // a command sent as it is
    | Launch(cmd: string, app: Con)   // run `cmd` for the saved container `app` and wait for its window

  /** The saved ids of the launched containers, in launch order. */
  function LaunchIds(ops: seq<Op>): (r: seq<int>)
    ensures |r| <= |ops|
  {
    if |ops| == 0 then []
    else (if ops[0].Launch? then [ops[0].app.id] else []) + LaunchIds(ops[1..])
  }

  lemma {:induction false} LaunchIdsAppend(a: seq<Op>, b: seq<Op>)
    ensures LaunchIds(a + b) == LaunchIds(a) + LaunchIds(b)
    decreases |a|
  {
    if |a| == 0 {
      assert a + b == b;
    } else {
      assert (a + b)[0] == a[0];
      assert (a + b)[1..] == a[1..] + b;
      LaunchIdsAppend(a[1..], b);
    }
  }

  /** Every focus step targets a container whose application was launched before it. */
  predicate FocusAfterLaunch(ops: seq<Op>)
  {
    forall i :: 0 <= i < |ops| && ops[i].Focus? ==> ops[i].app.id in LaunchIds(ops[..i])
  }

  predicate NoDup(s: seq<int>)
  {
    forall i, j :: 0 <= i < j < |s| ==> s[i] != s[j]
  }

  /** Appending steps whose focus targets were launched already keeps the order property. */
  lemma FocusAfterLaunchAppend(a: seq<Op>, b: seq<Op>)
    requires FocusAfterLaunch(a)
    requires forall i :: 0 <= i < |b| && b[i].Focus? ==> b[i].app.id in LaunchIds(a)
    ensures FocusAfterLaunch(a + b)
  {
    var s := a + b;
    forall i | 0 <= i < |s| && s[i].Focus?
      ensures s[i].app.id in LaunchIds(s[..i])
    {
      if i < |a| {
        assert s[..i] == a[..i];
      } else {
        assert s[..i] == a + b[..i - |a|];
        LaunchIdsAppend(a, b[..i - |a|]);
      }
    }
  }

  /** The state the walk threads through: `extracted_app_con_ids` and the steps so far. */
  datatype Walk = Walk(extracted: seq<int>, ops: seq<Op>)

  /**
   * What the walk keeps true: the recorded ids are exactly the launched ones,
   * no id twice; only application containers are launched; and no container
   * is focused before it was launched.
   */
  predicate Consistent(w: Walk)
  {
    w.extracted == LaunchIds(w.ops) && NoDup(w.extracted) && FocusAfterLaunch(w.ops) &&
    LaunchesApps(w.ops)
  }

  /** Only containers with an application are launched. */
  predicate LaunchesApps(ops: seq<Op>)
  {
    forall i :: 0 <= i < |ops| && ops[i].Launch? ==> HasApp(ops[i].app)
  }

  lemma LaunchesAppsAppend(a: seq<Op>, b: seq<Op>)
    requires LaunchesApps(a) && LaunchesApps(b)
    ensures LaunchesApps(a + b)
  {
    forall i | 0 <= i < |a + b| && (a + b)[i].Launch?
      ensures HasApp((a + b)[i].app)
    {
      if i >= |a| {
        assert (a + b)[i] == b[i - |a|];
      }
    }
  }

  /** Every `app_node` entry on the chain has been launched. */
  predicate ChainLaunched(chain: seq<Option<Con>>, ops: seq<Op>)
  {
    forall k :: 0 <= k < |chain| && chain[k].Some? ==> chain[k].value.id in LaunchIds(ops)
  }

  /** The ids of the containers found, in order. */
  function AppIds(apps: seq<Option<Con>>): (r: seq<int>)
    ensures forall k :: 0 <= k < |apps| && apps[k].Some? ==> apps[k].value.id in r
  {
    if |apps| == 0 then []
    else
      assert forall k :: 1 <= k < |apps| ==> apps[k] == apps[1..][k - 1];
      (if apps[0].Some? then [apps[0].value.id] else []) + AppIds(apps[1..])
  }

  /** The first loop of `traverse`: the application container found below each child. */
  function Deepests(nodes: seq<Con>, extracted: seq<int>): (r: (seq<Option<Con>>, seq<int>))
    ensures |r.0| == |nodes|
    ensures r.1 == extracted + AppIds(r.0)
    ensures forall k :: 0 <= k < |nodes| && r.0[k].Some? ==> HasApp(r.0[k].value)
    ensures NoDup(extracted) ==> NoDup(r.1)
  {
    if |nodes| == 0 then ([], extracted)
    else
      var (found, extracted1) := FirstDeepest(nodes[0], extracted);
      var (rest, extracted2) := Deepests(nodes[1..], extracted1);
      assert forall k :: 1 <= k < |nodes| ==> ([found] + rest)[k] == rest[k - 1];
      assert AppIds([found] + rest) == (if found.Some? then [found.value.id] else []) + AppIds(rest) by {
        assert ([found] + rest)[1..] == rest;
      }
      ([found] + rest, extracted2)
  }

  /** The launches of the containers found, in order. */
  function Launches(apps: seq<Option<Con>>): (ops: seq<Op>)
    requires forall k :: 0 <= k < |apps| && apps[k].Some? ==> HasApp(apps[k].value)
    ensures LaunchIds(ops) == AppIds(apps)
    ensures forall i :: 0 <= i < |ops| ==> ops[i].Launch? && HasApp(ops[i].app)
  {
    if |apps| == 0 then []
    else
      assert forall k :: 1 <= k < |apps| ==> apps[k] == apps[1..][k - 1];
      assert apps[0].Some? ==> HasApp(apps[0].value);
      var head := if apps[0].Some? then [Launch(LaunchCommand(apps[0].value), apps[0].value)] else [];
      var rest := Launches(apps[1..]);
      LaunchIdsAppend(head, rest);
      head + rest
  }

  function Sends(cmds: seq<string>): (ops: seq<Op>)
    ensures |ops| == |cmds|
    ensures forall i :: 0 <= i < |ops| ==> ops[i] == Send(cmds[i])
  {
    if |cmds| == 0 then [] else [Send(cmds[0])] + Sends(cmds[1..])
  }

  lemma {:induction false} NoLaunchIds(ops: seq<Op>)
    requires forall i :: 0 <= i < |ops| ==> !ops[i].Launch?
    ensures LaunchIds(ops) == []
    decreases |ops|
  {
    if |ops| > 0 {
      NoLaunchIds(ops[1..]);
    }
  }

  /** Launch ids only grow along a walk. */
  lemma LaunchIdsPrefix(a: seq<Op>, b: seq<Op>)
    requires |a| <= |b| && b[..|a|] == a
    ensures forall x :: x in LaunchIds(a) ==> x in LaunchIds(b)
  {
    assert b == a + b[|a|..];
    LaunchIdsAppend(a, b[|a|..]);
  }

  /**
   * The steps `traverse` takes at one container before descending: focus the
   * nearest recorded application when some child yielded one, split unless
   * the container has an `app_id` key, launch the children's applications.
   */
  function LevelOps(p: Con, chain: seq<Option<Con>>, apps: seq<Option<Con>>): (ops: seq<Op>)
    requires forall k :: 0 <= k < |apps| && apps[k].Some? ==> HasApp(apps[k].value)
    ensures LaunchIds(ops) == AppIds(apps)
  {
    var focus, split, launches := FocusStep(chain, apps), SplitStep(p), Launches(apps);
    NoLaunchIds(focus);
    NoLaunchIds(split);
    LaunchIdsAppend(split, launches);
    LaunchIdsAppend(focus, split + launches);
    focus + (split + launches)
  }

  /** Focus the nearest recorded application, when some child yielded one. */
  function FocusStep(chain: seq<Option<Con>>, apps: seq<Option<Con>>): (ops: seq<Op>)
    ensures |ops| <= 1
    ensures |ops| == 1 ==> Nearest(chain).Some? && ops[0] == Focus(Nearest(chain).value)
  {
    if AppIds(apps) != [] && Nearest(chain).Some? then [Focus(Nearest(chain).value)] else []
  }

  /** Split unless the container has an `app_id` key. */
  function SplitStep(p: Con): (ops: seq<Op>)
    ensures forall i :: 0 <= i < |ops| ==> ops[i].Send?
  {
    if !HasAppIdKey(p) then Sends(SplitCommands(p)) else []
  }

  /** A level is its focus step followed by the sends and launches. */
  lemma LevelParts(p: Con, chain: seq<Option<Con>>, apps: seq<Option<Con>>)
    requires forall k :: 0 <= k < |apps| && apps[k].Some? ==> HasApp(apps[k].value)
    ensures LevelOps(p, chain, apps) == FocusStep(chain, apps) + (SplitStep(p) + Launches(apps))
  {
  }

  /** A prefix of a prefix of a step list is a prefix of it. */
  lemma PrefixOfPrefix(a: seq<Op>, b: seq<Op>, c: seq<Op>)
    requires |a| <= |b| && b[..|a|] == a
    requires |b| <= |c| && c[..|b|] == b
    ensures |a| <= |c| && c[..|a|] == a
  {
    assert c[..|a|] == c[..|b|][..|a|];
  }

  /** `traverse`: the steps for a container, then for each child in order. */
  function Traverse(p: Con, chain: seq<Option<Con>>, w: Walk): (r: Walk)
    requires Consistent(w) && ChainLaunched(chain, w.ops)
    ensures Consistent(r)
    ensures |w.ops| <= |r.ops| && r.ops[..|w.ops|] == w.ops
    decreases Size(p), 0
  {
    var (apps, extracted1) := Deepests(p.nodes, w.extracted);
    var level := LevelOps(p, chain, apps);
    var ops := w.ops + level;
    TraverseStep(p, chain, w, apps, level);
    var r := TraverseKids(p.nodes, apps, chain, Walk(extracted1, ops));
    PrefixOfPrefix(w.ops, ops, r.ops);
    r
  }

  /** Steps that hold no focus step after a head: any focus step is in the head. */
  lemma FocusInHead(head: seq<Op>, rest: seq<Op>, i: nat)
    requires forall j :: 0 <= j < |rest| ==> !rest[j].Focus?
    requires i < |head + rest| && (head + rest)[i].Focus?
    ensures i < |head| && (head + rest)[i] == head[i]
  {
    assert forall j :: |head| <= j < |head + rest| ==> (head + rest)[j] == rest[j - |head|];
  }

  /** Sends followed by launches hold no focus step. */
  lemma NoFocusStep(split: seq<Op>, launches: seq<Op>)
    requires forall j :: 0 <= j < |split| ==> split[j].Send?
    requires forall j :: 0 <= j < |launches| ==> launches[j].Launch?
    ensures forall j :: 0 <= j < |split + launches| ==> !(split + launches)[j].Focus?
  {
    forall j | 0 <= j < |split + launches| ensures !(split + launches)[j].Focus? {
      if j < |split| {
        assert (split + launches)[j] == split[j];
      } else {
        assert (split + launches)[j] == launches[j - |split|];
      }
    }
  }

  /** The one focus step a level may hold targets the nearest entry of the chain. */
  lemma LevelFocus(p: Con, chain: seq<Option<Con>>, apps: seq<Option<Con>>, ops: seq<Op>)
    requires forall k :: 0 <= k < |apps| && apps[k].Some? ==> HasApp(apps[k].value)
    requires ChainLaunched(chain, ops)
    ensures forall i :: 0 <= i < |LevelOps(p, chain, apps)| && LevelOps(p, chain, apps)[i].Focus? ==>
              LevelOps(p, chain, apps)[i].app.id in LaunchIds(ops)
  {
    var focus, rest := FocusStep(chain, apps), SplitStep(p) + Launches(apps);
    var level := LevelOps(p, chain, apps);
    LevelParts(p, chain, apps);
    NoFocusStep(SplitStep(p), Launches(apps));
    forall i | 0 <= i < |level| && level[i].Focus?
      ensures level[i].app.id in LaunchIds(ops)
    {
      FocusInHead(focus, rest, i);
      var k :| 0 <= k < |chain| && chain[k] == Nearest(chain);
    }
  }

  /** A level launches only containers that have an application. */
  lemma LevelLaunchesApps(p: Con, chain: seq<Option<Con>>, apps: seq<Option<Con>>)
    requires forall k :: 0 <= k < |apps| && apps[k].Some? ==> HasApp(apps[k].value)
    ensures LaunchesApps(LevelOps(p, chain, apps))
  {
    var head := FocusStep(chain, apps) + SplitStep(p);
    assert LaunchesApps(head) by {
      forall i | 0 <= i < |head| ensures !head[i].Launch? {
        if i < |FocusStep(chain, apps)| {
          assert head[i] == FocusStep(chain, apps)[i];
        } else {
          assert head[i] == SplitStep(p)[i - |FocusStep(chain, apps)|];
        }
      }
    }
    LaunchesAppsAppend(head, Launches(apps));
  }

  /** The focus step of a level targets an entry of the chain. */
  lemma LevelFocusOnChain(p: Con, chain: seq<Option<Con>>, apps: seq<Option<Con>>, ops: seq<Op>)
    requires forall k :: 0 <= k < |apps| && apps[k].Some? ==> HasApp(apps[k].value)
    requires ChainLaunched(chain, ops)
    ensures forall i :: 0 <= i < |LevelOps(p, chain, apps)| && LevelOps(p, chain, apps)[i].Focus? ==>
              LevelOps(p, chain, apps)[i].app.id in LaunchIds(ops)
    ensures LaunchesApps(LevelOps(p, chain, apps))
  {
    LevelFocus(p, chain, apps, ops);
    LevelLaunchesApps(p, chain, apps);
  }

  /** The steps of one level keep the walk consistent, and the children's entries are launched. */
  lemma TraverseStep(p: Con, chain: seq<Option<Con>>, w: Walk, apps: seq<Option<Con>>, level: seq<Op>)
    requires Consistent(w) && ChainLaunched(chain, w.ops)
    requires apps == Deepests(p.nodes, w.extracted).0
    requires level == LevelOps(p, chain, apps)
    ensures Consistent(Walk(Deepests(p.nodes, w.extracted).1, w.ops + level))
    ensures ChainLaunched(chain, w.ops + level)
    ensures forall k :: 0 <= k < |apps| && apps[k].Some? ==> apps[k].value.id in LaunchIds(w.ops + level)
  {
    var ops := w.ops + level;
    LaunchIdsAppend(w.ops, level);
    LevelFocusOnChain(p, chain, apps, w.ops);
    FocusAfterLaunchAppend(w.ops, level);
    LaunchesAppsAppend(w.ops, level);
  }

  function TraverseKids(kids: seq<Con>, apps: seq<Option<Con>>, chain: seq<Option<Con>>, w: Walk): (r: Walk)
    requires |apps| == |kids|
    requires Consistent(w) && ChainLaunched(chain, w.ops)
    requires forall k :: 0 <= k < |apps| && apps[k].Some? ==> apps[k].value.id in LaunchIds(w.ops)
    ensures Consistent(r)
    ensures |w.ops| <= |r.ops| && r.ops[..|w.ops|] == w.ops
    decreases ForestSize(kids), 1
  {
    if |kids| == 0 then w
    else
      var w1 := Traverse(kids[0], chain + [apps[0]], w);
      TraverseKidsStep(chain, apps, w, w1);
      var r := TraverseKids(kids[1..], apps[1..], chain, w1);
      PrefixOfPrefix(w.ops, w1.ops, r.ops);
      r
  }

  /** What holds for the parent's chain and the later siblings still holds after one child's walk. */
  lemma TraverseKidsStep(chain: seq<Option<Con>>, apps: seq<Option<Con>>, w: Walk, w1: Walk)
    requires |apps| > 0
    requires ChainLaunched(chain, w.ops)
    requires forall k :: 0 <= k < |apps| && apps[k].Some? ==> apps[k].value.id in LaunchIds(w.ops)
    requires |w.ops| <= |w1.ops| && w1.ops[..|w.ops|] == w.ops
    ensures ChainLaunched(chain + [apps[0]], w.ops)
    ensures ChainLaunched(chain, w1.ops)
    ensures forall k :: 0 <= k < |apps[1..]| && apps[1..][k].Some? ==> apps[1..][k].value.id in LaunchIds(w1.ops)
  {
    var c := chain + [apps[0]];
    forall k | 0 <= k < |c| && c[k].Some?
      ensures c[k].value.id in LaunchIds(w.ops)
    {
      if k == |chain| {
        assert c[k] == apps[0];
      }
    }
    LaunchIdsPrefix(w.ops, w1.ops);
    assert forall k | 0 <= k < |chain| && chain[k].Some? :: chain[k].value.id in LaunchIds(w1.ops);
    forall k | 0 <= k < |apps[1..]| && apps[1..][k].Some?
      ensures apps[1..][k].value.id in LaunchIds(w1.ops)
    {
      assert apps[1..][k] == apps[k + 1];
    }
  }

  // ---------------------------------------------------------------------------
  // load_workspace.
  // ---------------------------------------------------------------------------

  datatype LoadError = NoNodes | NoCurrentWorkspace

  /**
   * The replay plan: switch to the new workspace, then walk the saved tree.
   * Sizes are scaled from the saved rect to that of the reference workspace.
   */
  datatype Plan = Plan(switchTo: string, layoutRect: Rect, workspaceRect: Rect, ops: seq<Op>)

  const SwitchPrefix: string := "workspace "

  /**
   * `load_workspace` after the file is read: a saved workspace without nodes
   * is refused before anything is sent, as is an empty `get_workspaces`
   * reply. The reference rect is that of the LAST workspace listed.
   */
  function LoadWorkspace(saved: Con, wss: seq<Workspace>): (r: Result<Plan, LoadError>)
    ensures r == Err(NoNodes) <==> |saved.nodes| == 0
    ensures r == Err(NoCurrentWorkspace) <==> |saved.nodes| > 0 && |wss| == 0
    ensures r.Ok? ==> Text.StartsWith(r.value.switchTo, SwitchPrefix)
    ensures r.Ok? ==>
              var target := r.value.switchTo[|SwitchPrefix|..];
              Text.ParseNat(Text.LeadingDigits(target)) == NextNum(wss) &&
              Text.StripLeadingDigits(target) == Text.StripLeadingDigits(saved.name) &&
              r.value.layoutRect == saved.rect && r.value.workspaceRect == wss[|wss| - 1].rect
    ensures r.Ok? ==> NoDup(LaunchIds(r.value.ops)) && FocusAfterLaunch(r.value.ops)
  {
    if |saved.nodes| == 0 then Err(NoNodes)
    else if |wss| == 0 then Err(NoCurrentWorkspace)
    else
      var suffix := Text.StripLeadingDigits(saved.name);
      var target := Text.NatToString(NextNum(wss)) + suffix;
      NumberedName(NextNum(wss), suffix);
      assert (SwitchPrefix + target)[|SwitchPrefix|..] == target;
      var walk := Traverse(saved, [None], Walk([], []));
      Ok(Plan(SwitchPrefix + target, saved.rect, wss[|wss| - 1].rect, walk.ops))
  }

  /** The command that focuses a live container. */
  function FocusCommand(conId: int): string
  {
    "[con_id=" + Text.IntToString(conId) + "] focus"
  }

  /** What is sent or run, in order. */
  datatype Step = SendStep(cmd: string) | RunStep(cmd: string)

  /** Why `focus` exits. */
  datatype FocusError = NoRealAppNode(savedId: int)

  /**
   * The steps with focus targets resolved: `live` maps the saved id of each
   * launched container to the live container focused after its launch; a
   * focus target without an entry makes `focus` exit.
   */
  function Render(ops: seq<Op>, live: map<int, int>): (r: Result<seq<Step>, FocusError>)
    ensures r.Ok? <==> forall i :: 0 <= i < |ops| && ops[i].Focus? ==> ops[i].app.id in live
    ensures r.Ok? ==> |r.value| == |ops|
    ensures r.Ok? ==> forall i :: 0 <= i < |ops| && ops[i].Launch? ==> r.value[i] == RunStep(ops[i].cmd)
    ensures r.Ok? ==> forall i :: 0 <= i < |ops| && ops[i].Focus? ==>
              r.value[i] == SendStep(FocusCommand(live[ops[i].app.id]))
  {
    if |ops| == 0 then Ok([])
    else
      var head: Result<Step, FocusError> :=
        match ops[0]
        case Focus(app) => if app.id in live then Ok(SendStep(FocusCommand(live[app.id]))) else Err(NoRealAppNode(app.id))
        case Send(cmd) => Ok(SendStep(cmd))
        case Launch(cmd, _) => Ok(RunStep(cmd));
      assert forall i :: 1 <= i < |ops| ==> ops[i] == ops[1..][i - 1];
      match head
      case Err(e) => Err(e)
      case Ok(step) =>
        match Render(ops[1..], live)
        case Err(e) => Err(e)
        case Ok(rest) => Ok([step] + rest)
  }

  /**
   * When the oracle records a live container for every launched one, every
   * focus step of a replay resolves: focus targets are always launched first.
   */
  lemma RenderPlan(saved: Con, wss: seq<Workspace>, live: map<int, int>)
    ensures LoadWorkspace(saved, wss).Ok?
            && (forall x :: x in LaunchIds(LoadWorkspace(saved, wss).value.ops) ==> x in live) ==>
              Render(LoadWorkspace(saved, wss).value.ops, live).Ok?
  {
    if LoadWorkspace(saved, wss).Ok? && forall x :: x in LaunchIds(LoadWorkspace(saved, wss).value.ops) ==> x in live {
      RenderResolves(LoadWorkspace(saved, wss).value.ops, live);
    }
  }

  /** Steps that focus only what they launched earlier replay whenever every launch has a live entry. */
  lemma RenderResolves(ops: seq<Op>, live: map<int, int>)
    requires FocusAfterLaunch(ops)
    requires forall x :: x in LaunchIds(ops) ==> x in live
    ensures Render(ops, live).Ok?
  {
    forall i | 0 <= i < |ops| && ops[i].Focus?
      ensures ops[i].app.id in live
    {
      assert ops == ops[..i] + ops[i..];
      LaunchIdsAppend(ops[..i], ops[i..]);
    }
  }
}
