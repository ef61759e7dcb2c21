/**
  The object `element.browser(opts)` builds around a sidebar: the click
  handler of `.module` items, `triggerChange` and the completion of the
  request it sends, and the methods `openPath`, `openTo` and `open` of the
  object it returns. The sidebar's tree is fixed; what changes is which
  nodes carry the class `active`, the contents of the viewer element, the
  callbacks called so far (with their arguments) and the requests sent.
 */
module Browser {
  import opened Dom
  import opened Navigation
  import opened Extend

  /** A call the browser makes to code outside it, with the arguments that matter. */
  datatype Hook =
    | NewState                          // opts.newState()
    | NewPath(path: seq<string>)        // opts.newPath(path)
    | NewHash(hash: string)             // opts.newHash(hash)
    | GetUrl                            // opts.getUrl()
    | OnLoad                            // opts.onLoad(state)
    | Toggle(node: nat, forced: bool)   // toggle(node) or toggle(node, true)

  /** The value of an option: a callback, the `state` record, `null`, or the viewer element with its HTML. */
  datatype OptionValue = Undefined | Null | Callback | Record | Element(html: string)

  /** The defaults `browser` merges into `opts`. */
  function DefaultOptions(): map<string, OptionValue>
  {
    map[
      "newPath" := Callback,
      "newHash" := Callback,
      "newState" := Callback,
      "getUrl" := Callback,
      "onLoad" := Callback,
      "state" := Record,
      "viewer" := Null
    ]
  }

  /** The HTML of the viewer element, or `None` when `opts.viewer` is not an element. */
  function ViewerOf(opts: map<string, OptionValue>): Option<string>
  {
    if "viewer" in opts && opts["viewer"].Element? then Some(opts["viewer"].html) else None
  }

  /** A caller that names a viewer element keeps it; one that names none gets the `null` default. */
  lemma ViewerAfterDefaults(opts: map<string, OptionValue>)
    ensures ViewerOf(Merged(opts, DefaultOptions())) == ViewerOf(opts)
    ensures forall k | k in DefaultOptions() :: k in Merged(opts, DefaultOptions())
  {
  }

  const LoadingHtml: string := "<p id=\"loading\">Loading...</p>"

  /** `triggerChange(update)` sends a request unless `update` is given and falsy. */
  predicate Fetches(update: Option<bool>)
  {
    update.None? || update.value
  }

  /** The callbacks `triggerChange(update)` calls, in order. */
  function TriggerHooks(update: Option<bool>): (r: seq<Hook>)
    ensures |r| > 0 && r[0] == NewState && NewState !in r[1..]
    ensures GetUrl in r <==> Fetches(update)
  {
    [NewState] + if Fetches(update) then [GetUrl] else []
  }

  /** The request completed successfully: `readyState == 4 && status == 200`. */
  predicate Loaded(readyState: int, status: int)
  {
    readyState == 4 && status == 200
  }

  /** One `toggle` call per node, in order, with or without `force`. */
  function ToggleCalls(nodes: seq<nat>, forced: bool): (r: seq<Hook>)
    ensures |r| == |nodes|
    ensures forall k | 0 <= k < |r| :: r[k] == Toggle(nodes[k], forced)
  {
    seq(|nodes|, k requires 0 <= k < |nodes| => Toggle(nodes[k], forced))
  }

  lemma ToggleCallsAppend(nodes: seq<nat>, c: nat, forced: bool)
    ensures ToggleCalls(nodes + [c], forced) == ToggleCalls(nodes, forced) + [Toggle(c, forced)]
  {
  }

  /** `window.location.hash.substring(1)`: the hash without its leading `#`. */
  function Fragment(hash: string): (f: string)
    ensures |hash| > 0 ==> [hash[0]] + f == hash
    ensures |hash| == 0 ==> f == ""
  {
    if |hash| == 0 then "" else hash[1..]
  }

  class Browser {
    /** The sidebar below `root`, in document order. */
    const tree: seq<Node>
    /** Which nodes carry the class `active`. */
    var active: seq<bool>
    /** The HTML inside `opts.viewer`, or `None` when the viewer is `null`. */
    var viewer: Option<string>
    /** The callbacks called so far. */
    var log: seq<Hook>
    /** The URL of every request sent so far; a request is named by its index. */
    var requests: seq<string>

    ghost predicate Valid()
      reads this
    {
      ValidTree(tree) && ActiveOnElements(tree, active)
    }

    constructor (root: seq<Node>, classes: seq<bool>, opts: map<string, OptionValue>)
      requires ValidTree(root) && ActiveOnElements(root, classes)
      ensures Valid()
      ensures tree == root && active == classes && viewer == ViewerOf(opts)
      ensures log == [] && requests == []
    {
      tree := root;
      active := classes;
      viewer := ViewerOf(opts);
      log := [];
      requests := [];
    }

    /**
      `triggerChange(update)`: call `newState`; unless `update` is falsy, show
      the loading placeholder, ask `getUrl` for the URL (its answer is `url`)
      and send a GET request for it.
     */
    method TriggerChange(update: Option<bool>, url: string)
      modifies this
      ensures active == old(active)
      ensures log == old(log) + TriggerHooks(update)
      ensures viewer == if Fetches(update) && old(viewer).Some? then Some(LoadingHtml) else old(viewer)
      ensures requests == old(requests) + if Fetches(update) then [url] else []
    {
      log := log + [NewState];
      if update.Some? && !update.value {
        return;
      }
      if viewer.Some? {
        viewer := Some(LoadingHtml);
      }
      log := log + [GetUrl];
      requests := requests + [url];
    }

    /**
      The `onreadystatechange` handler of request `request`. Nothing checks
      that the request is still the latest one.
     */
    method Complete(request: nat, readyState: int, status: int, response: string)
      requires request < |requests|
      modifies this
      ensures active == old(active) && requests == old(requests)
      ensures viewer == if Loaded(readyState, status) && old(viewer).Some? then Some(response) else old(viewer)
      ensures log == old(log) + if Loaded(readyState, status) then [OnLoad] else []
    {
      if readyState == 4 && status == 200 {
        if viewer.Some? {
          viewer := Some(response);
        }
        log := log + [OnLoad];
      }
    }

    /**
      `old = root.getElementsByClassName('active')` and the loop removing the
      class from `old[i]`. The collection is live: it is re-read after each
      removal, so the loop skips every second entry.
     */
    method ClearActive()
      modifies this
      ensures active == AfterClear(old(active))
      ensures log == old(log) && viewer == old(viewer) && requests == old(requests)
    {
      ghost var l0 := ActiveIn(active, 1);
      var live := ActiveIn(active, 1);
      var i := 0;
      while i < |live|
        invariant |active| == |old(active)|
        invariant |active| > 0 ==> active[0] == old(active)[0]
        invariant live == ActiveIn(active, 1) == LiveAfter(l0, i)
        invariant log == old(log) && viewer == old(viewer) && requests == old(requests)
        decreases |live| - i
      {
        ClearStep(active, l0, i);
        active := active[live[i] := false];
        live := ActiveIn(active, 1);
        i := i + 1;
      }
      ClearDone(old(active), active, i);
    }

    /**
      The `while (e != root)` loop of the click handler: the `data-name` of
      `e` and of each of its ancestors below the root, outermost first.
     */
    method NamesUpTo(e: nat) returns (path: seq<string>)
      requires Valid() && e < |tree|
      ensures path == PathTo(tree, e)
      ensures |path| == |NamedChain(tree, e)|
      ensures forall k | 0 <= k < |path| :: tree[NamedChain(tree, e)[k]].name == Some(path[k])
    {
      path := [];
      var cur: nat := e;
      while cur != 0
        invariant cur < |tree|
        invariant PathTo(tree, cur) + path == PathTo(tree, e)
        decreases cur
      {
        PathToStep(tree, cur);
        AppendAssoc(PathTo(tree, tree[cur].parent), NameOf(tree[cur]), path);
        if tree[cur].name.Some? {
          path := [tree[cur].name.value] + path;
        } else {
          AppendEmpty(path);
        }
        cur := tree[cur].parent;
      }
      PathToListsNamedChain(tree, e);
    }

    /**
      The click handler of a `.module` item `e`: clear `active`, mark `e`,
      collect the names from `e` up to the root, report them with `newPath`
      and call `triggerChange()`; `url` is what `getUrl` answers.
     */
    method Click(e: nat, url: string) returns (path: seq<string>)
      requires Valid() && 0 < e < |tree| && tree[e].kind == ElementNode && tree[e].isModule
      modifies this
      ensures Valid()
      ensures active == AfterClear(old(active))[e := true]
      ensures path == PathTo(tree, e)
      ensures log == old(log) + [NewPath(path)] + TriggerHooks(None)
      ensures viewer == if old(viewer).Some? then Some(LoadingHtml) else old(viewer)
      ensures requests == old(requests) + [url]
    {
      AfterClearKeepsElements(tree, active);
      ClearActive();
      active := active[e := true];
      path := NamesUpTo(e);
      log := log + [NewPath(path)];
      TriggerChange(None, url);
    }

    /**
      The inner `for (k ...)` loop of `openPath` over the child nodes of level
      `lv`, for segment `i`: it stops at the first child whose `data-name`
      is the segment, toggling it if the segment is not the last one and
      marking it active (unless it is a directory) if it is; reading
      `dataset.name` of a text node first throws.
     */
    method SearchLevel(lv: nat, path: seq<string>, i: nat) returns (m: Match)
      requires ChildrenBelow(tree) && |active| == |tree| && lv < |tree| && i < |path|
      modifies this
      ensures |active| == |tree|
      ensures m == FirstMatch(tree, tree[lv].childNodes, path[i])
      ensures m.Found? && i < |path| - 1 ==> log == old(log) + [Toggle(m.child, false)] && active == old(active)
      ensures m.Found? && i == |path| - 1 && !tree[m.child].directory ==>
        log == old(log) && active == old(active)[m.child := true]
      ensures m.Found? && i == |path| - 1 && tree[m.child].directory ==> log == old(log) && active == old(active)
      ensures !m.Found? ==> log == old(log) && active == old(active)
      ensures viewer == old(viewer) && requests == old(requests)
    {
      var children := tree[lv].childNodes;
      var k := 0;
      while k < |children|
        invariant k <= |children|
        invariant FirstMatch(tree, children[k..], path[i]) == FirstMatch(tree, children, path[i])
        invariant log == old(log) && active == old(active)
        invariant viewer == old(viewer) && requests == old(requests)
      {
        var c := children[k];
        FirstMatchAt(tree, children, path[i], k);
        if tree[c].kind != ElementNode {
          // children[k].dataset is undefined
          return NotAnElement;
        }
        if tree[c].name == Some(path[i]) {
          if i < |path| - 1 {
            log := log + [Toggle(c, false)];
          } else if !tree[c].directory {
            active := active[c := true];
          }
          return Found(c);
        }
        k := k + 1;
      }
      return NoMatch;
    }

    /**
      `openPath(path)`: clear `active`, then walk down from the root, one
      segment per level, toggling each matched non-final entry and marking
      the entry matched by the final segment (unless it is a directory).
      A segment that matches nothing is skipped at the same level.
     */
    method OpenPath(path: seq<string>) returns (outcome: Outcome)
      requires Valid()
      modifies this
      ensures Valid()
      ensures outcome == Walk(tree, Some(0), path, 0).outcome
      ensures active == Activate(AfterClear(old(active)), Walk(tree, Some(0), path, 0).target)
      ensures log == old(log) + ToggleCalls(Walk(tree, Some(0), path, 0).toggled, false)
      ensures viewer == old(viewer) && requests == old(requests)
    {
      AfterClearKeepsElements(tree, active);
      ClearActive();
      outcome := WalkDown(path);
    }

    /**
      The outer `for (i ...)` loop of `openPath`, from the root. Only the
      child nodes of the tree matter to it.
     */
    method WalkDown(path: seq<string>) returns (outcome: Outcome)
      requires ChildrenBelow(tree) && 0 < |tree| == |active|
      modifies this
      ensures |active| == |tree|
      ensures outcome == Walk(tree, Some(0), path, 0).outcome
      ensures active == Activate(old(active), Walk(tree, Some(0), path, 0).target)
      ensures log == old(log) + ToggleCalls(Walk(tree, Some(0), path, 0).toggled, false)
      ensures viewer == old(viewer) && requests == old(requests)
    {
      ghost var done: seq<nat> := [];
      var level: Option<nat> := Some(0);
      var i := 0;
      while i < |path|
        invariant i <= |path| && (level.Some? ==> level.value < |tree|)
        invariant active == old(active) && viewer == old(viewer) && requests == old(requests)
        invariant log == old(log) + ToggleCalls(done, false)
        invariant Walk(tree, Some(0), path, 0) == Prepend(done, Walk(tree, level, path, i))
      {
        if level.None? {
          // 'childNodes' in undefined
          WalkThrows(tree, level, path, i);
          AppendEmpty(done);
          return TypeError;
        }
        var m := SearchLevel(level.value, path, i);
        match m {
          case NotAnElement =>
            WalkThrows(tree, level, path, i);
            AppendEmpty(done);
            return TypeError;
          case NoMatch =>
            WalkSkips(tree, level.value, path, i);
          case Found(c) =>
            if i < |path| - 1 {
              WalkFound(tree, level.value, path, i, c);
              PrependTwice(done, [c], Walk(tree, SecondChild(tree, c), path, i + 1));
              ToggleCallsAppend(done, c, false);
              done := done + [c];
              level := SecondChild(tree, c);
            } else {
              // the last segment matched: `i + 1 == path.length` ends the loop
              WalkLands(tree, level.value, path, c);
              AppendEmpty(done);
              return Finished;
            }
        }
        i := i + 1;
      }
      AppendEmpty(done);
      return Finished;
    }

    /**
      `openTo(elem)`: unless `elem` is `null`, mark it active (unless it is a
      directory) and force open every toggle container from `elem` up to, but
      not including, the root. Other active nodes are left as they are. A text
      node has no `classList`, so the first `contains` throws.
     */
    method OpenTo(elem: Option<nat>) returns (outcome: Outcome)
      requires Valid() && (elem.Some? ==> elem.value < |tree|)
      modifies this
      ensures Valid()
      ensures elem.None? || tree[elem.value].kind == TextNode ==>
        outcome == (if elem.None? then Finished else TypeError) && active == old(active) && log == old(log)
      ensures elem.Some? && tree[elem.value].kind == ElementNode ==>
        && outcome == Finished
        && active == (if tree[elem.value].directory then old(active) else old(active)[elem.value := true])
        && log == old(log) + ToggleCalls(UpwardToggles(tree, elem.value), true)
      ensures viewer == old(viewer) && requests == old(requests)
    {
      outcome := Finished;
      if elem.None? {
        return;
      }
      var x := elem.value;
      if tree[x].kind == TextNode {
        // elem.classList is undefined
        outcome := TypeError;
        return;
      }
      if !tree[x].directory {
        active := active[x := true];
      }
      ForceOpenUpwards(x);
    }

    /** The `while (elem != root && elem != null)` loop of `openTo`. */
    method ForceOpenUpwards(x: nat)
      requires ValidTree(tree) && x < |tree|
      modifies this
      ensures log == old(log) + ToggleCalls(UpwardToggles(tree, x), true)
      ensures active == old(active) && viewer == old(viewer) && requests == old(requests)
    {
      ghost var done: seq<nat> := [];
      var cur: nat := x;
      while cur != 0
        invariant cur < |tree|
        invariant done + UpwardToggles(tree, cur) == UpwardToggles(tree, x)
        invariant log == old(log) + ToggleCalls(done, true)
        invariant active == old(active) && viewer == old(viewer) && requests == old(requests)
        decreases cur
      {
        var up := UpwardToggles(tree, tree[cur].parent);
        if tree[cur].toggleContainer {
          AppendAssoc(done, [cur], up);
          ToggleCallsAppend(done, cur, true);
          log := log + [Toggle(cur, true)];
          done := done + [cur];
        } else {
          AppendEmpty(up);
        }
        cur := tree[cur].parent;
      }
      AppendEmpty(done);
    }

    /**
      `open()`: report the location's fragment, without its `#` and decoded,
      through `newHash`. `decode` stands for `decodeURIComponent`; `None` is a
      malformed escape, which throws a `URIError` before `newHash` is called.
     */
    method Open(hash: string, decode: string -> Option<string>) returns (outcome: Outcome)
      modifies this
      ensures decode(Fragment(hash)).None? ==> outcome == URIError && log == old(log)
      ensures decode(Fragment(hash)).Some? ==>
        outcome == Finished && log == old(log) + [NewHash(decode(Fragment(hash)).value)]
      ensures active == old(active) && viewer == old(viewer) && requests == old(requests)
    {
      var h := decode(Fragment(hash));
      if h.None? {
        return URIError;
      }
      log := log + [NewHash(h.value)];
      return Finished;
    }
  }

  /**
    `element.browser(opts)`: an absent `opts` becomes `{}`, the defaults are
    merged into it with `extend`, and the browser is built around the
    element's sidebar. Binding the click handlers is not modelled; `Click`
    is what one of them does.
   */
  method Attach(root: seq<Node>, classes: seq<bool>, opts: Option<JsObject<OptionValue>>)
    returns (b: Browser, options: JsObject<OptionValue>)
    requires ValidTree(root) && ActiveOnElements(root, classes)
    modifies if opts.Some? then {opts.value} else {}
    ensures opts.None? ==> fresh(options) && options.own == DefaultOptions()
    ensures opts.Some? ==> options == opts.value && options.own == Merged(old(opts.value.own), DefaultOptions())
    ensures fresh(b) && b.Valid()
    ensures b.tree == root && b.active == classes && b.viewer == ViewerOf(options.own)
    ensures b.log == [] && b.requests == []
  {
    var given: JsObject<OptionValue>;
    if opts.None? {
      given := new JsObject(map[]);
    } else {
      given := opts.value;
    }
    var defaults := new JsObject(DefaultOptions());
    options := Extend.Extend(given, defaults);
    b := new Browser(root, classes, options.own);
  }

  // ---------------------------------------------------------------------------
  // Properties relating several operations

  /**
    Opening the path a click reported, right after that click, leaves the
    same single node active: the click marked `e` after clearing, and
    `openPath` clears it again and marks it again.
   */
  lemma ClickThenOpenPath(t: seq<Node>, a: seq<bool>, e: nat)
    requires Sidebar(t) && |a| == |t| && 0 < e < |t|
    requires t[e].name.Some? && !t[e].directory
    requires |ActiveIn(a, 1)| <= 1
    ensures var b := AfterClear(a)[e := true];
      && Walk(t, Some(0), PathTo(t, e), 0).outcome == Finished
      && Walk(t, Some(0), PathTo(t, e), 0).toggled == NamedChain(t, t[e].parent)
      && Activate(AfterClear(b), Walk(t, Some(0), PathTo(t, e), 0).target) == b
  {
    var b := AfterClear(a)[e := true];
    OpenPathFindsClicked(t, e);
    SelectAfterClear(a, e);
    ClearAtMostOne(a);
    ClearAtMostOne(b);
    assert AfterClear(b)[e := true] == b;
  }

  /**
    Starting from at most one active node below the root, `openPath` leaves
    at most one: the one its path leads to, if any.
   */
  lemma OpenPathKeepsAtMostOne(t: seq<Node>, a: seq<bool>, path: seq<string>)
    requires ValidTree(t) && |a| == |t|
    requires |ActiveIn(a, 1)| <= 1
    ensures var r := Walk(t, Some(0), path, 0);
      ActiveIn(Activate(AfterClear(a), r.target), 1) == if r.target.Some? then [r.target.value] else []
  {
    var r := Walk(t, Some(0), path, 0);
    if r.target.Some? {
      SelectAfterClear(a, r.target.value);
    } else {
      ClearAtMostOne(a);
      ActiveInOfFlags(AfterClear(a), 1, []);
    }
  }
}
