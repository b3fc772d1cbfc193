/**
 * The container tree that `get_tree` returns, and the recursive searches over it:
 * `find_con_parent_workspace` and `find_nodes` (sway_ipc.py), `find_any_in_tree`
 * (zoom_bar_d.py) and `find_apps` (srws.py).
 *
 * A container is a JSON object; the model keeps the members these searches and
 * their callers read. The `app_id` member is absent on containers, null on
 * X11 windows and a string on Wayland windows, so it has three forms.
 */
module ConTree {
  import opened Wrappers

  datatype Rect = Rect(x: int, y: int, width: int, height: int)

  datatype AppId = NoAppId | NullAppId | AppIdOf(app: string)

  datatype Con = Con(
    id: int,
    ctype: string,
    name: string,
    num: int,
    focused: bool,
    zoomed: bool,
    layout: string,
    orientation: string,
    rect: Rect,
    decoRect: Rect,
    appId: AppId,
    appArgs: Option<string>,
    nodes: seq<Con>,
    floating: seq<Con>)

  predicate IsWorkspace(c: Con)
  {
    c.ctype == "workspace"
  }

  /** `'app_id' in node`. */
  predicate HasAppIdKey(c: Con)
  {
    !c.appId.NoAppId?
  }

  /** `node.get('app_id')` is truthy: a non-empty string. */
  predicate HasApp(c: Con)
  {
    c.appId.AppIdOf? && c.appId.app != ""
  }

  /** The children a walk visits: `nodes + floating_nodes`, or `nodes` alone. */
  function Kids(c: Con, withFloating: bool): seq<Con>
  {
    if withFloating then c.nodes + c.floating else c.nodes
  }

  /** The number of containers in a tree, for termination. */
  function Size(c: Con): nat
  {
    1 + ForestSize(c.nodes) + ForestSize(c.floating)
  }

  function ForestSize(s: seq<Con>): nat
  {
    if |s| == 0 then 0 else Size(s[0]) + ForestSize(s[1..])
  }

  lemma {:induction false} ForestSizeAppend(a: seq<Con>, b: seq<Con>)
    ensures ForestSize(a + b) == ForestSize(a) + ForestSize(b)
    decreases |a|
  {
    if |a| == 0 {
      assert a + b == b;
    } else {
      assert (a + b)[1..] == a[1..] + b;
      ForestSizeAppend(a[1..], b);
    }
  }

  /** The children of a container weigh less than the container. */
  lemma KidsSmaller(c: Con, withFloating: bool)
    ensures ForestSize(Kids(c, withFloating)) < Size(c)
  {
    ForestSizeAppend(c.nodes, c.floating);
  }

  // ---------------------------------------------------------------------------
  // Reference: the pre-order list of all descendants.
  // ---------------------------------------------------------------------------

  /** Every descendant of `c` (not `c` itself), parents before children, children in order. */
  function Preorder(c: Con, withFloating: bool): seq<Con>
    decreases Size(c), 0
  {
    KidsSmaller(c, withFloating);
    PreorderForest(Kids(c, withFloating), withFloating)
  }

  /** The trees of `s` in pre-order, each root followed by its descendants. */
  function PreorderForest(s: seq<Con>, withFloating: bool): seq<Con>
    decreases ForestSize(s), 1
  {
    if |s| == 0 then []
    else [s[0]] + Preorder(s[0], withFloating) + PreorderForest(s[1..], withFloating)
  }

  function Filter(s: seq<Con>, keep: Con -> bool): (r: seq<Con>)
    ensures |r| <= |s|
    ensures forall x :: x in r ==> x in s && keep(x)
  {
    if |s| == 0 then [] else (if keep(s[0]) then [s[0]] else []) + Filter(s[1..], keep)
  }

  lemma {:induction false} FilterAppend(a: seq<Con>, b: seq<Con>, keep: Con -> bool)
    ensures Filter(a + b, keep) == Filter(a, keep) + Filter(b, keep)
    decreases |a|
  {
    if |a| == 0 {
      assert a + b == b;
    } else {
      assert (a + b)[1..] == a[1..] + b;
      FilterAppend(a[1..], b, keep);
    }
  }

  // ---------------------------------------------------------------------------
  // find_nodes and find_apps.
  // ---------------------------------------------------------------------------

  /** `find_nodes(parent, callback_fn)`: the matching descendants over `nodes + floating_nodes`. */
  function FindNodes(parent: Con, keep: Con -> bool): (r: seq<Con>)
    ensures forall x :: x in r ==> keep(x)
    decreases Size(parent), 0
  {
    KidsSmaller(parent, true);
    FindNodesIn(Kids(parent, true), keep)
  }

  function FindNodesIn(s: seq<Con>, keep: Con -> bool): (r: seq<Con>)
    ensures forall x :: x in r ==> keep(x)
    decreases ForestSize(s), 1
  {
    if |s| == 0 then []
    else (if keep(s[0]) then [s[0]] else []) + FindNodes(s[0], keep) + FindNodesIn(s[1..], keep)
  }

  /** `find_nodes` returns exactly the matching descendants, in pre-order. */
  lemma {:induction false} FindNodesIsFilter(parent: Con, keep: Con -> bool)
    ensures FindNodes(parent, keep) == Filter(Preorder(parent, true), keep)
    decreases Size(parent), 0
  {
    KidsSmaller(parent, true);
    FindNodesInIsFilter(Kids(parent, true), keep);
  }

  lemma {:induction false} FindNodesInIsFilter(s: seq<Con>, keep: Con -> bool)
    ensures FindNodesIn(s, keep) == Filter(PreorderForest(s, true), keep)
    decreases ForestSize(s), 1
  {
    if |s| > 0 {
      FindNodesIsFilter(s[0], keep);
      FindNodesInIsFilter(s[1..], keep);
      FilterAppend([s[0]] + Preorder(s[0], true), PreorderForest(s[1..], true), keep);
      FilterAppend([s[0]], Preorder(s[0], true), keep);
      assert Filter([s[0]], keep) == (if keep(s[0]) then [s[0]] else []);
    }
  }

  /**
   * `find_apps(nodes, apps)`: appends to `apps` every container under `nodes`
   * (the listed ones included, floating containers excluded) that has an
   * `app_id` member.
   */
  function FindApps(nodes: seq<Con>, apps: seq<Con>): (r: seq<Con>)
    ensures |r| >= |apps| && r[..|apps|] == apps
    ensures forall k :: |apps| <= k < |r| ==> HasAppIdKey(r[k])
    decreases ForestSize(nodes)
  {
    if |nodes| == 0 then apps
    else
      var node := nodes[0];
      var apps1 := if HasAppIdKey(node) then apps + [node] else apps;
      assert ForestSize(node.nodes) < Size(node);
      var apps2 := FindApps(node.nodes, apps1);
      assert apps2[..|apps|] == apps1[..|apps|] == apps;
      FindApps(nodes[1..], apps2)
  }

  /** `find_apps` adds exactly the windows of the tiling tree, in pre-order. */
  lemma {:induction false} FindAppsIsFilter(nodes: seq<Con>, apps: seq<Con>)
    ensures FindApps(nodes, apps) == apps + Filter(PreorderForest(nodes, false), HasAppIdKey)
    decreases ForestSize(nodes)
  {
    if |nodes| > 0 {
      var node := nodes[0];
      var head := Filter([node], HasAppIdKey);
      assert head == (if HasAppIdKey(node) then [node] else []);
      var apps1 := if HasAppIdKey(node) then apps + [node] else apps;
      assert apps1 == apps + head;
      assert ForestSize(node.nodes) < Size(node);
      var inner := Filter(PreorderForest(node.nodes, false), HasAppIdKey);
      var tail := Filter(PreorderForest(nodes[1..], false), HasAppIdKey);
      FindAppsIsFilter(node.nodes, apps1);
      var apps2 := FindApps(node.nodes, apps1);
      FindAppsIsFilter(nodes[1..], apps2);
      assert PreorderForest(nodes, false)
          == [node] + PreorderForest(node.nodes, false) + PreorderForest(nodes[1..], false);
      FilterAppend([node] + PreorderForest(node.nodes, false), PreorderForest(nodes[1..], false), HasAppIdKey);
      FilterAppend([node], PreorderForest(node.nodes, false), HasAppIdKey);
      calc {
        FindApps(nodes, apps);
        FindApps(nodes[1..], apps2);
        apps2 + tail;
        apps1 + inner + tail;
        { SeqAssoc(apps, head, inner, tail); }
        apps + (head + inner + tail);
        apps + Filter(PreorderForest(nodes, false), HasAppIdKey);
      }
    }
  }

  lemma SeqAssoc(a: seq<Con>, b: seq<Con>, c: seq<Con>, d: seq<Con>)
    ensures a + b + c + d == a + (b + c + d)
  {
  }

  // ---------------------------------------------------------------------------
  // find_any_in_tree.
  // ---------------------------------------------------------------------------

  /**
   * `find_any_in_tree(parent_node, key, value)`: the root if it matches, else the
   * first hit among the tiling children in order; floating containers are never
   * searched. The key/value test is the predicate `matches`.
   */
  function FindAnyInTree(c: Con, matches: Con -> bool): (r: Option<Con>)
    ensures r.Some? ==> matches(r.value)
    decreases Size(c), 0
  {
    if matches(c) then Some(c)
    else
      KidsSmaller(c, false);
      FindAnyIn(c.nodes, matches)
  }

  function FindAnyIn(s: seq<Con>, matches: Con -> bool): (r: Option<Con>)
    ensures r.Some? ==> matches(r.value)
    decreases ForestSize(s), 1
  {
    if |s| == 0 then None
    else
      match FindAnyInTree(s[0], matches)
      case Some(x) => Some(x)
      case None => FindAnyIn(s[1..], matches)
  }

  /** The first element of a list that satisfies a predicate. */
  function First(s: seq<Con>, keep: Con -> bool): (r: Option<Con>)
    ensures r.Some? ==> r.value in s && keep(r.value)
    ensures r.None? <==> forall x :: x in s ==> !keep(x)
  {
    if |s| == 0 then None else if keep(s[0]) then Some(s[0]) else First(s[1..], keep)
  }

  lemma {:induction false} FirstAppend(a: seq<Con>, b: seq<Con>, keep: Con -> bool)
    ensures First(a + b, keep) == if First(a, keep).Some? then First(a, keep) else First(b, keep)
    decreases |a|
  {
    if |a| == 0 {
      assert a + b == b;
    } else {
      assert (a + b)[1..] == a[1..] + b;
      FirstAppend(a[1..], b, keep);
    }
  }

  /** `find_any_in_tree` finds the first match of the root-first tiling pre-order. */
  lemma {:induction false} FindAnyInTreeIsFirst(c: Con, matches: Con -> bool)
    ensures FindAnyInTree(c, matches) == First([c] + Preorder(c, false), matches)
    decreases Size(c), 0
  {
    KidsSmaller(c, false);
    FindAnyInIsFirst(c.nodes, matches);
    FirstAppend([c], Preorder(c, false), matches);
  }

  lemma {:induction false} FindAnyInIsFirst(s: seq<Con>, matches: Con -> bool)
    ensures FindAnyIn(s, matches) == First(PreorderForest(s, false), matches)
    decreases ForestSize(s), 1
  {
    if |s| > 0 {
      FindAnyInTreeIsFirst(s[0], matches);
      FindAnyInIsFirst(s[1..], matches);
      FirstAppend([s[0]] + Preorder(s[0], false), PreorderForest(s[1..], false), matches);
    }
  }

  // ---------------------------------------------------------------------------
  // find_con_parent_workspace.
  // ---------------------------------------------------------------------------

  /** A match: the container, the container whose children list holds it, and a workspace. */
  datatype Hit = Hit(node: Con, parent: Con, workspace: Option<Con>)

  /**
   * `find_con_parent_workspace(parent, callback_fn)`: None stands for
   * `(None, None, None)`.
   */
  function FindConParentWorkspace(parent: Con, keep: Con -> bool): (r: Option<Hit>)
    ensures r.Some? ==> keep(r.value.node) && r.value.node in Kids(r.value.parent, true)
    ensures r.Some? && IsWorkspace(r.value.node) ==> r.value.workspace == Some(r.value.node)
    ensures r.Some? && r.value.workspace.Some? ==> IsWorkspace(r.value.workspace.value)
    decreases Size(parent), 0
  {
    KidsSmaller(parent, true);
    FindIn(parent, Kids(parent, true), None, keep)
  }

  /**
   * The loop over the children `rest` still to visit; `ws` is the loop variable
   * `workspace`, the last workspace among the children visited so far.
   */
  function FindIn(parent: Con, rest: seq<Con>, ws: Option<Con>, keep: Con -> bool): (r: Option<Hit>)
    requires forall k :: 0 <= k < |rest| ==> rest[k] in Kids(parent, true)
    requires ws.Some? ==> IsWorkspace(ws.value)
    ensures r.Some? ==> keep(r.value.node) && r.value.node in Kids(r.value.parent, true)
    ensures r.Some? && IsWorkspace(r.value.node) ==> r.value.workspace == Some(r.value.node)
    ensures r.Some? && r.value.workspace.Some? ==> IsWorkspace(r.value.workspace.value)
    decreases ForestSize(rest), 1
  {
    if |rest| == 0 then None
    else
      var n := rest[0];
      var ws' := if IsWorkspace(n) then Some(n) else ws;
      if keep(n) then Some(Hit(n, parent, ws'))
      else
        match FindConParentWorkspace(n, keep)
        case Some(h) => Some(Hit(h.node, h.parent, h.workspace.OrElse(ws')))
        case None => FindIn(parent, rest[1..], ws', keep)
  }

  /**
   * Reference: every descendant with its parent and the workspace the search
   * reports with it. `outer` is what the enclosing levels contribute; at each
   * level the innermost recorded workspace wins (`w or workspace`).
   */
  function Annotated(parent: Con, outer: Option<Con>): seq<Hit>
    decreases Size(parent), 0
  {
    KidsSmaller(parent, true);
    AnnotatedIn(parent, Kids(parent, true), None, outer)
  }

  function AnnotatedIn(parent: Con, rest: seq<Con>, ws: Option<Con>, outer: Option<Con>): seq<Hit>
    decreases ForestSize(rest), 1
  {
    if |rest| == 0 then []
    else
      var n := rest[0];
      var ws' := if IsWorkspace(n) then Some(n) else ws;
      var here := ws'.OrElse(outer);
      [Hit(n, parent, here)] + Annotated(n, here) + AnnotatedIn(parent, rest[1..], ws', outer)
  }

  function FirstHit(hs: seq<Hit>, keep: Con -> bool): (r: Option<Hit>)
    ensures r.Some? ==> r.value in hs && keep(r.value.node)
  {
    if |hs| == 0 then None else if keep(hs[0].node) then Some(hs[0]) else FirstHit(hs[1..], keep)
  }

  lemma {:induction false} FirstHitAppend(a: seq<Hit>, b: seq<Hit>, keep: Con -> bool)
    ensures FirstHit(a + b, keep) == if FirstHit(a, keep).Some? then FirstHit(a, keep) else FirstHit(b, keep)
    decreases |a|
  {
    if |a| == 0 {
      assert a + b == b;
    } else {
      assert (a + b)[1..] == a[1..] + b;
      FirstHitAppend(a[1..], b, keep);
    }
  }

  /** A hit seen from an enclosing level whose recorded workspace is `outer`. */
  function Under(r: Option<Hit>, outer: Option<Con>): Option<Hit>
  {
    match r
    case None => None
    case Some(h) => Some(Hit(h.node, h.parent, h.workspace.OrElse(outer)))
  }

  lemma {:induction false} FindIsFirstHitUnder(parent: Con, outer: Option<Con>, keep: Con -> bool)
    ensures FirstHit(Annotated(parent, outer), keep) == Under(FindConParentWorkspace(parent, keep), outer)
    decreases Size(parent), 0
  {
    KidsSmaller(parent, true);
    FindInIsFirstHit(parent, Kids(parent, true), None, outer, keep);
  }

  lemma {:induction false} FindInIsFirstHit(parent: Con, rest: seq<Con>, ws: Option<Con>, outer: Option<Con>, keep: Con -> bool)
    requires forall k :: 0 <= k < |rest| ==> rest[k] in Kids(parent, true)
    requires ws.Some? ==> IsWorkspace(ws.value)
    ensures FirstHit(AnnotatedIn(parent, rest, ws, outer), keep) == Under(FindIn(parent, rest, ws, keep), outer)
    decreases ForestSize(rest), 1
  {
    if |rest| > 0 {
      var n := rest[0];
      var ws' := if IsWorkspace(n) then Some(n) else ws;
      var here := ws'.OrElse(outer);
      FindIsFirstHitUnder(n, here, keep);
      FindInIsFirstHit(parent, rest[1..], ws', outer, keep);
      FirstHitAppend([Hit(n, parent, here)] + Annotated(n, here), AnnotatedIn(parent, rest[1..], ws', outer), keep);
      FirstHitAppend([Hit(n, parent, here)], Annotated(n, here), keep);
      match FindConParentWorkspace(n, keep)
      case None =>
      case Some(h) =>
        assert h.workspace.OrElse(ws').OrElse(outer) == h.workspace.OrElse(here);
    }
  }

  /**
   * `find_con_parent_workspace` returns the first match in pre-order over
   * `nodes + floating_nodes`, with the workspace the reference list records.
   */
  lemma FindConParentWorkspaceIsFirst(parent: Con, keep: Con -> bool)
    ensures FindConParentWorkspace(parent, keep) == FirstHit(Annotated(parent, None), keep)
  {
    FindIsFirstHitUnder(parent, None, keep);
    match FindConParentWorkspace(parent, keep)
    case None =>
    case Some(h) =>
      assert h.workspace.OrElse(None) == h.workspace;
  }

  /** The reference list visits the same containers, in the same order, as the pre-order walk. */
  lemma {:induction false} AnnotatedNodes(parent: Con, outer: Option<Con>)
    ensures Nodes(Annotated(parent, outer)) == Preorder(parent, true)
    decreases Size(parent), 0
  {
    KidsSmaller(parent, true);
    AnnotatedInNodes(parent, Kids(parent, true), None, outer);
  }

  lemma {:induction false} AnnotatedInNodes(parent: Con, rest: seq<Con>, ws: Option<Con>, outer: Option<Con>)
    ensures Nodes(AnnotatedIn(parent, rest, ws, outer)) == PreorderForest(rest, true)
    decreases ForestSize(rest), 1
  {
    if |rest| > 0 {
      var n := rest[0];
      var ws' := if IsWorkspace(n) then Some(n) else ws;
      var here := ws'.OrElse(outer);
      AnnotatedNodes(n, here);
      AnnotatedInNodes(parent, rest[1..], ws', outer);
      NodesAppend([Hit(n, parent, here)] + Annotated(n, here), AnnotatedIn(parent, rest[1..], ws', outer));
      NodesAppend([Hit(n, parent, here)], Annotated(n, here));
    }
  }

  function Nodes(hs: seq<Hit>): (r: seq<Con>)
    ensures |r| == |hs|
    ensures forall k :: 0 <= k < |hs| ==> r[k] == hs[k].node
  {
    if |hs| == 0 then [] else [hs[0].node] + Nodes(hs[1..])
  }

  lemma NodesAppend(a: seq<Hit>, b: seq<Hit>)
    ensures Nodes(a + b) == Nodes(a) + Nodes(b)
  {
    assert Nodes(a + b) == Nodes(a) + Nodes(b);
  }

  lemma {:induction false} FirstHitFirst(hs: seq<Hit>, keep: Con -> bool)
    ensures FirstHit(hs, keep).None? <==> First(Nodes(hs), keep).None?
    ensures FirstHit(hs, keep).Some? ==> FirstHit(hs, keep).value.node == First(Nodes(hs), keep).value
    decreases |hs|
  {
    if |hs| > 0 {
      FirstHitFirst(hs[1..], keep);
      assert Nodes(hs)[1..] == Nodes(hs[1..]);
    }
  }

  lemma {:induction false} FirstOfFilter(s: seq<Con>, keep: Con -> bool)
    ensures First(s, keep).None? <==> Filter(s, keep) == []
    ensures First(s, keep).Some? ==> First(s, keep).value == Filter(s, keep)[0]
    decreases |s|
  {
    if |s| > 0 {
      FirstOfFilter(s[1..], keep);
    }
  }

  /**
   * The two searches of sway_ipc.py agree: `find_con_parent_workspace` finds
   * nothing exactly when `find_nodes` returns an empty list, and otherwise finds
   * the first container `find_nodes` lists.
   */
  lemma FindAgreesWithFindNodes(parent: Con, keep: Con -> bool)
    ensures FindConParentWorkspace(parent, keep).None? <==> FindNodes(parent, keep) == []
    ensures FindConParentWorkspace(parent, keep).Some? ==>
              FindConParentWorkspace(parent, keep).value.node == FindNodes(parent, keep)[0]
  {
    FindConParentWorkspaceIsFirst(parent, keep);
    AnnotatedNodes(parent, None);
    FirstHitFirst(Annotated(parent, None), keep);
    FindNodesIsFilter(parent, keep);
    FirstOfFilter(Preorder(parent, true), keep);
  }
}
