/**
  What `openPath` and `openTo` do to the tree, as functions of the tree and
  their argument: which nodes receive `toggle`, which node (if any) becomes
  active, and whether the walk ends normally or with a TypeError.
 */
module Navigation {
  import opened Dom

  /** What the inner `for (k ...)` loop of `openPath` finds among `childNodes`. */
  datatype Match =
    | Found(child: nat)   // first child whose dataset.name equals the segment
    | NoMatch             // the loop ran to the end
    | NotAnElement        // a text node was reached first: `undefined.name` throws

  /** Every node of `kids` is an element whose name differs from `seg`. */
  predicate PassesOver(t: seq<Node>, kids: seq<nat>, seg: string)
  {
    forall c {:trigger c in kids} | c in kids :: c < |t| && t[c].kind == ElementNode && t[c].name != Some(seg)
  }

  /**
    The inner loop's verdict: the first child that is a text node or an
    element named `seg` decides it; every child before it is passed over.
   */
  function FirstMatch(t: seq<Node>, kids: seq<nat>, seg: string): (m: Match)
    requires forall j | 0 <= j < |kids| :: kids[j] < |t|
    ensures m.Found? ==> m.child in kids
    ensures m.Found? ==> t[m.child].kind == ElementNode
    ensures m.Found? ==> t[m.child].name == Some(seg)
    ensures m.Found? ==> exists k | 0 <= k < |kids| :: kids[k] == m.child && PassesOver(t, kids[..k], seg)
    ensures m.NotAnElement? ==>
      exists k | 0 <= k < |kids| :: t[kids[k]].kind == TextNode && PassesOver(t, kids[..k], seg)
  {
    if kids == [] then NoMatch
    else
      assert kids[0] in kids;
      if !t[kids[0]].kind.ElementNode? then
        assert PassesOver(t, kids[..0], seg);
        NotAnElement
    else if t[kids[0]].name == Some(seg) then
      assert PassesOver(t, kids[..0], seg);
      Found(kids[0])
    else
      var r := FirstMatch(t, kids[1..], seg);
      FirstMatchShift(t, kids, seg, r);
      r
  }

  /** A verdict reached after the head is passed over is reached one position later in the whole list. */
  lemma FirstMatchShift(t: seq<Node>, kids: seq<nat>, seg: string, r: Match)
    requires forall j | 0 <= j < |kids| :: kids[j] < |t|
    requires kids != [] && t[kids[0]].kind == ElementNode && t[kids[0]].name != Some(seg)
    requires r.Found? ==> exists k | 0 <= k < |kids| - 1 :: kids[1..][k] == r.child && PassesOver(t, kids[1..][..k], seg)
    requires r.NotAnElement? ==>
      exists k | 0 <= k < |kids| - 1 :: t[kids[1..][k]].kind == TextNode && PassesOver(t, kids[1..][..k], seg)
    ensures r.Found? ==> exists k | 0 <= k < |kids| :: kids[k] == r.child && PassesOver(t, kids[..k], seg)
    ensures r.NotAnElement? ==>
      exists k | 0 <= k < |kids| :: t[kids[k]].kind == TextNode && PassesOver(t, kids[..k], seg)
  {
    if r.Found? || r.NotAnElement? {
      var k :| 0 <= k < |kids| - 1 && PassesOver(t, kids[1..][..k], seg) &&
        (if r.Found? then kids[1..][k] == r.child else t[kids[1..][k]].kind == TextNode);
      PassesOverCons(t, kids, seg, k);
      assert kids[k + 1] == kids[1..][k];
    }
  }

  lemma PassesOverCons(t: seq<Node>, kids: seq<nat>, seg: string, k: nat)
    requires k < |kids| && kids[0] < |t| && t[kids[0]].kind == ElementNode && t[kids[0]].name != Some(seg)
    requires PassesOver(t, kids[1..][..k], seg)
    ensures PassesOver(t, kids[..k + 1], seg)
  {
    assert kids[..k + 1] == [kids[0]] + kids[1..][..k];
  }

  /**
    Conversely, the first child that is a text node or an element named
    `seg`, after children that are all passed over, decides the verdict.
   */
  lemma {:induction false} FirstMatchDecidedAt(t: seq<Node>, kids: seq<nat>, seg: string, k: nat)
    requires forall j | 0 <= j < |kids| :: kids[j] < |t|
    requires k < |kids| && PassesOver(t, kids[..k], seg)
    requires t[kids[k]].kind == TextNode || t[kids[k]].name == Some(seg)
    ensures FirstMatch(t, kids, seg) == if t[kids[k]].kind == TextNode then NotAnElement else Found(kids[k])
  {
    if k > 0 {
      assert kids[0] in kids[..k];
      forall c | c in kids[1..][..k - 1] ensures c < |t| && t[c].kind == ElementNode && t[c].name != Some(seg) {
        var j :| 0 <= j < k - 1 && kids[1..][..k - 1][j] == c;
        assert kids[..k][j + 1] == c;
        assert c in kids[..k];
      }
      assert kids[1..][k - 1] == kids[k];
      assert PassesOver(t, kids[1..][..k - 1], seg);
      assert forall j | 0 <= j < |kids[1..]| :: kids[1..][j] < |t|;
      FirstMatchDecidedAt(t, kids[1..], seg, k - 1);
    }
  }

  /** The inner loop at position `k`: a text node throws, a matching element is found, any other element is passed over. */
  lemma FirstMatchAt(t: seq<Node>, kids: seq<nat>, seg: string, k: nat)
    requires forall j | 0 <= j < |kids| :: kids[j] < |t|
    requires k < |kids|
    ensures kids[k] < |t|
    ensures FirstMatch(t, kids[k..], seg) ==
      if t[kids[k]].kind != ElementNode then NotAnElement
      else if t[kids[k]].name == Some(seg) then Found(kids[k])
      else FirstMatch(t, kids[k + 1..], seg)
  {
    assert kids[k..][0] == kids[k];
    assert kids[k..][1..] == kids[k + 1..];
  }

  /** The inner loop runs to its end exactly when every child is an element with a different name. */
  lemma {:induction false} NoMatchIff(t: seq<Node>, kids: seq<nat>, seg: string)
    requires forall j | 0 <= j < |kids| :: kids[j] < |t|
    ensures FirstMatch(t, kids, seg) == NoMatch <==> PassesOver(t, kids, seg)
  {
    if kids != [] {
      assert kids == [kids[0]] + kids[1..];
      assert kids[0] in kids;
      assert forall c | c in kids[1..] :: c in kids;
      NoMatchIff(t, kids[1..], seg);
    }
  }

  /** `childNodes[1]`, the level `openPath` descends into after a match; `None` stands for `undefined`. */
  function SecondChild(t: seq<Node>, c: nat): (e: Option<nat>)
    requires ChildrenBelow(t) && c < |t|
    ensures e.Some? <==> |t[c].childNodes| > 1
    ensures e.Some? ==> e.value in t[c].childNodes && e.value < |t|
  {
    if |t[c].childNodes| > 1 then
      assert t[c].childNodes[1] in t[c].childNodes;
      Some(t[c].childNodes[1])
    else None
  }

  /** The toggles, the newly active node and the ending of one `openPath` call. */
  datatype WalkResult = WalkResult(toggled: seq<nat>, target: Option<nat>, outcome: Outcome)

  function Prepend(toggles: seq<nat>, r: WalkResult): WalkResult
  {
    r.(toggled := toggles + r.toggled)
  }

  /**
    `openPath` from segment `i` on, searching the children of `level`
    (`None` when `childNodes[1]` of the last match did not exist).
    An unmatched segment leaves the level as it is; a matched non-final
    segment toggles the match and descends into its second child node; a
    matched final segment activates the match unless it is a directory.
   */
  function Walk(t: seq<Node>, level: Option<nat>, path: seq<string>, i: nat): (r: WalkResult)
    requires ChildrenBelow(t)
    requires level.Some? ==> level.value < |t|
    requires i <= |path|
    ensures r.target.Some? ==>
      && |path| > 0
      && r.outcome == Finished
      && 0 < r.target.value < |t|
      && t[r.target.value].kind == ElementNode
      && !t[r.target.value].directory
      && t[r.target.value].name == Some(path[|path| - 1])
    ensures forall c {:trigger c in r.toggled} | c in r.toggled ::
      0 < c < |t| && t[c].kind == ElementNode && t[c].name.Some?
    decreases |path| - i
  {
    if i == |path| then WalkResult([], None, Finished)
    else if level.None? then WalkResult([], None, TypeError)
    else
      match FirstMatch(t, t[level.value].childNodes, path[i])
      case NotAnElement => WalkResult([], None, TypeError)
      case NoMatch => Walk(t, level, path, i + 1)
      case Found(c) =>
        if i < |path| - 1 then
          Prepend([c], Walk(t, SecondChild(t, c), path, i + 1))
        else
          WalkResult([], if t[c].directory then None else Some(c), Finished)
  }

  // ---------------------------------------------------------------------------
  // Unmatched segments

  /** Walking from `j + 1` is walking the path with segment `i <= j` removed from `j`. */
  lemma {:induction false} WalkShift(t: seq<Node>, level: Option<nat>, path: seq<string>, i: nat, j: nat)
    requires ChildrenBelow(t)
    requires level.Some? ==> level.value < |t|
    requires i <= j < |path|
    ensures Walk(t, level, path, j + 1) == Walk(t, level, path[..i] + path[i + 1..], j)
    decreases |path| - j
  {
    var q := path[..i] + path[i + 1..];
    assert |q| == |path| - 1;
    if j + 1 < |path| {
      assert q[j] == path[j + 1];
      if level.Some? {
        match FirstMatch(t, t[level.value].childNodes, path[j + 1])
        case NotAnElement =>
        case NoMatch =>
          WalkShift(t, level, path, i, j + 1);
          assert Walk(t, level, q, j) == Walk(t, level, q, j + 1);
        case Found(c) =>
          if j + 1 < |path| - 1 {
            WalkShift(t, SecondChild(t, c), path, i, j + 1);
            assert Walk(t, level, q, j) == Prepend([c], Walk(t, SecondChild(t, c), q, j + 1));
          } else {
            assert q[|q| - 1] == path[|path| - 1];
          }
      }
    }
  }

  /**
    A segment that matches no child at the current level is ignored: the
    walk goes on at the same level, exactly as if the segment were not in
    the path.
   */
  lemma UnmatchedSegmentIgnored(t: seq<Node>, level: nat, path: seq<string>, i: nat)
    requires ChildrenBelow(t) && level < |t| && i < |path|
    requires FirstMatch(t, t[level].childNodes, path[i]) == NoMatch
    ensures Walk(t, Some(level), path, i) == Walk(t, Some(level), path[..i] + path[i + 1..], i)
  {
    WalkShift(t, Some(level), path, i, i);
  }

  // ---------------------------------------------------------------------------
  // The round trip: the path a click reports leads `openPath` back to the clicked node

  /** `p` is the second child node of a named node below the root, and is itself unnamed. */
  predicate Container(t: seq<Node>, p: nat)
  {
    && 0 < p < |t|
    && t[p].name.None?
    && var q := t[p].parent;
    && 0 < q < |t|
    && t[q].name.Some?
    && |t[q].childNodes| > 1
    && t[q].childNodes[1] == p
  }

  /** A node whose children `openPath` searches: the root or a container. */
  predicate Level(t: seq<Node>, p: nat)
  {
    p == 0 || Container(t, p)
  }

  /**
    The shape of sidebar `openPath` is written for: named entries sit directly
    in the root or in a container, the child nodes of those levels are all
    elements, and names are unique among siblings.
   */
  predicate Sidebar(t: seq<Node>)
  {
    && ValidTree(t)
    && (forall j {:trigger t[j].name} | 0 < j < |t| && t[j].name.Some? :: Level(t, t[j].parent))
    && (forall j {:trigger t[j].kind} | 0 < j < |t| && Level(t, t[j].parent) :: t[j].kind == ElementNode)
    && (forall j, k {:trigger t[j].name, t[k].name}
          | 0 < j < |t| && 0 < k < |t| && j != k && t[j].parent == t[k].parent && t[j].name.Some? ::
          t[j].name != t[k].name)
  }

  lemma {:induction false} FirstMatchFinds(t: seq<Node>, kids: seq<nat>, seg: string, x: nat)
    requires forall j | 0 <= j < |kids| :: kids[j] < |t|
    requires forall c | c in kids :: c < |t| && t[c].kind == ElementNode
    requires x in kids && t[x].name == Some(seg)
    requires forall c | c in kids && c != x :: t[c].name != Some(seg)
    ensures FirstMatch(t, kids, seg) == Found(x)
  {
    if kids[0] != x {
      FirstMatchFinds(t, kids[1..], seg, x);
    }
  }

  /** In a sidebar, the named node `x` is the first match of its own name among its siblings. */
  lemma FindsNamedNode(t: seq<Node>, x: nat)
    requires Sidebar(t) && 0 < x < |t| && t[x].name.Some?
    ensures FirstMatch(t, t[t[x].parent].childNodes, t[x].name.value) == Found(x)
  {
    var p := t[x].parent;
    var kids := t[p].childNodes;
    assert Level(t, p);
    forall c | c in kids ensures c < |t| && t[c].kind == ElementNode {
      assert 0 < c < |t| && t[c].parent == p;
    }
    forall c | c in kids && c != x ensures t[c].name != Some(t[x].name.value) {
      assert 0 < c < |t| && t[c].parent == p;
    }
    FirstMatchFinds(t, kids, t[x].name.value, x);
  }

  /** One step of the walk: a match on a non-final segment is toggled and searched below. */
  lemma WalkFound(t: seq<Node>, level: nat, path: seq<string>, i: nat, c: nat)
    requires ChildrenBelow(t) && level < |t| && i < |path| - 1
    requires FirstMatch(t, t[level].childNodes, path[i]) == Found(c)
    ensures Walk(t, Some(level), path, i) == Prepend([c], Walk(t, SecondChild(t, c), path, i + 1))
  {
  }

  /** An unmatched segment moves on to the next one at the same level. */
  lemma WalkSkips(t: seq<Node>, level: nat, path: seq<string>, i: nat)
    requires ChildrenBelow(t) && level < |t| && i < |path|
    requires FirstMatch(t, t[level].childNodes, path[i]) == NoMatch
    ensures Walk(t, Some(level), path, i) == Walk(t, Some(level), path, i + 1)
  {
  }

  /** A text node reached before any match ends the walk with a TypeError. */
  lemma WalkThrows(t: seq<Node>, level: Option<nat>, path: seq<string>, i: nat)
    requires ChildrenBelow(t) && (level.Some? ==> level.value < |t|) && i < |path|
    requires level.Some? ==> FirstMatch(t, t[level.value].childNodes, path[i]) == NotAnElement
    ensures Walk(t, level, path, i) == WalkResult([], None, TypeError)
  {
  }

  lemma PrependNothing(r: WalkResult)
    ensures Prepend([], r) == r
  {
    assert [] + r.toggled == r.toggled;
  }

  lemma PrependTwice(a: seq<nat>, b: seq<nat>, r: WalkResult)
    ensures Prepend(a, Prepend(b, r)) == Prepend(a + b, r)
  {
    assert a + (b + r.toggled) == (a + b) + r.toggled;
  }

  /** Descending from a named node whose second child node is a container lands in that container. */
  lemma DescendsIntoContainer(t: seq<Node>, p: nat)
    requires ValidTree(t) && Container(t, p)
    ensures SecondChild(t, t[p].parent) == Some(p)
  {
  }

  /**
    `x` is reached by walking its path: it is the first match of its name
    among its siblings, and its parent is the root or an unnamed second child
    node of a named node that is reached in the same way.
   */
  predicate Findable(t: seq<Node>, x: nat)
    requires ValidTree(t)
    decreases x
  {
    && 0 < x < |t|
    && t[x].name.Some?
    && FirstMatch(t, t[t[x].parent].childNodes, t[x].name.value) == Found(x)
    && var p := t[x].parent;
    && (p == 0 || (t[p].name.None? && var q := t[p].parent; 0 < q && SecondChild(t, q) == Some(p) && Findable(t, q)))
  }

  /** Every named node of a sidebar is reached by walking its path. */
  lemma {:induction false} SidebarFindable(t: seq<Node>, x: nat)
    requires Sidebar(t) && 0 < x < |t| && t[x].name.Some?
    ensures Findable(t, x)
    decreases x
  {
    var p := t[x].parent;
    FindsNamedNode(t, x);
    assert Level(t, p);
    if p != 0 {
      var q := t[p].parent;
      SidebarFindable(t, q);
      DescendsIntoContainer(t, p);
    }
  }

  /** Matching `q` at level `r` and descending into `p`, its second child node, extends the toggles by `q`. */
  lemma WalkDescends(t: seq<Node>, r: nat, q: nat, p: nat, path: seq<string>, m: nat, toggles: seq<nat>)
    requires ChildrenBelow(t) && r < |t| && q < |t| && m < |path| - 1
    requires FirstMatch(t, t[r].childNodes, path[m]) == Found(q) && SecondChild(t, q) == Some(p)
    ensures Prepend(toggles, Walk(t, Some(r), path, m)) == Prepend(toggles + [q], Walk(t, Some(p), path, m + 1))
  {
    WalkFound(t, r, path, m, q);
    PrependTwice(toggles, [q], Walk(t, Some(p), path, m + 1));
  }

  /**
    The path of `x`, whose parent `p` is an unnamed child of the named `q`:
    it continues the path of `q`'s parent `r` with `q`'s name.
   */
  lemma PathAlong(t: seq<Node>, x: nat, p: nat, q: nat, r: nat, path: seq<string>)
    requires ValidTree(t) && 0 < x < |t|
    requires p == t[x].parent && 0 < p < x && q == t[p].parent && 0 < q < p && r == t[q].parent && r < q
    requires t[x].name.Some? && t[p].name.None? && t[q].name.Some?
    requires |PathTo(t, x)| <= |path| && path[..|PathTo(t, x)|] == PathTo(t, x)
    ensures |PathTo(t, r)| + 2 == |PathTo(t, x)| && |PathTo(t, p)| == |PathTo(t, r)| + 1
    ensures path[..|PathTo(t, q)|] == PathTo(t, q)
    ensures path[|PathTo(t, r)|] == t[q].name.value
    ensures NamedChain(t, p) == NamedChain(t, r) + [q]
  {
    PathToStep(t, x);
    UnnamedStep(t, p);
    PathToStep(t, q);
    NamedChainStep(t, q);
    PrefixOfPrefix(path, PathTo(t, q), NameOf(t[x]));
    PrefixOfPrefix(path, PathTo(t, r), [t[q].name.value]);
  }

  /**
    Walking a path that starts with `PathTo(t, x)` toggles the named
    proper ancestors of `x`, root first, and reaches the level holding `x`
    exactly when it is about to try `x`'s own segment.
   */
  lemma {:induction false} WalkAlongPath(t: seq<Node>, x: nat, path: seq<string>)
    requires ValidTree(t) && Findable(t, x)
    requires |PathTo(t, x)| <= |path| && path[..|PathTo(t, x)|] == PathTo(t, x)
    ensures |PathTo(t, x)| == |PathTo(t, t[x].parent)| + 1
    ensures Walk(t, Some(0), path, 0) ==
      Prepend(NamedChain(t, t[x].parent), Walk(t, Some(t[x].parent), path, |PathTo(t, t[x].parent)|))
    decreases x
  {
    var p := t[x].parent;
    PathToStep(t, x);
    if p == 0 {
      PrependNothing(Walk(t, Some(0), path, 0));
    } else {
      var q := t[p].parent;
      var r := t[q].parent;
      PathAlong(t, x, p, q, r, path);
      WalkAlongPath(t, q, path);
      WalkDescends(t, r, q, p, path, |PathTo(t, r)|, NamedChain(t, r));
    }
  }

  /** The last step of the walk: a match on the final segment is activated unless it is a directory. */
  lemma WalkLands(t: seq<Node>, level: nat, path: seq<string>, c: nat)
    requires ChildrenBelow(t) && level < |t| && |path| > 0
    requires FirstMatch(t, t[level].childNodes, path[|path| - 1]) == Found(c)
    ensures Walk(t, Some(level), path, |path| - 1) ==
      WalkResult([], if t[c].directory then None else Some(c), Finished)
  {
  }

  /**
    Round trip: `openPath` on the path a click on `x` reports toggles every
    named proper ancestor of `x` (root first), finishes normally, and
    activates `x` itself unless it is a directory.
   */
  lemma OpenPathFindsClicked(t: seq<Node>, x: nat)
    requires Sidebar(t) && 0 < x < |t| && t[x].name.Some?
    ensures Walk(t, Some(0), PathTo(t, x), 0) ==
      WalkResult(NamedChain(t, t[x].parent), if t[x].directory then None else Some(x), Finished)
  {
    SidebarFindable(t, x);
    FindableWalk(t, x);
  }

  /** `OpenPathFindsClicked` for any tree in which `x` is findable. */
  lemma FindableWalk(t: seq<Node>, x: nat)
    requires ValidTree(t) && Findable(t, x)
    ensures Walk(t, Some(0), PathTo(t, x), 0) ==
      WalkResult(NamedChain(t, t[x].parent), if t[x].directory then None else Some(x), Finished)
  {
    var path := PathTo(t, x);
    var p := t[x].parent;
    PathToStep(t, x);
    FullSlice(path);
    WalkAlongPath(t, x, path);
    WalkLands(t, p, path, x);
    AppendEmpty(NamedChain(t, p));
  }

  // ---------------------------------------------------------------------------
  // openTo

  predicate Decreasing(s: seq<nat>)
  {
    forall k, m | 0 <= k < m < |s| :: s[k] > s[m]
  }

  lemma DecreasingPrepend(h: seq<nat>, u: seq<nat>)
    requires |h| <= 1 && Decreasing(u)
    requires forall x, y | x in h && y in u :: x > y
    ensures Decreasing(h + u)
  {
    forall k, m | 0 <= k < m < |h + u| ensures (h + u)[k] > (h + u)[m] {
      if k < |h| {
        assert (h + u)[k] in h && (h + u)[m] in u;
      }
    }
  }

  /** The nodes `openTo(i)` force-toggles, in the order it toggles them: upwards from `i`, the root excluded. */
  function UpwardToggles(t: seq<Node>, i: nat): (r: seq<nat>)
    requires ValidTree(t) && i < |t|
    ensures forall x {:trigger x in r} | x in r :: 0 < x <= i && t[x].toggleContainer
    ensures Decreasing(r)
    decreases i
  {
    if i == 0 then []
    else
      var here := if t[i].toggleContainer then [i] else [];
      var up := UpwardToggles(t, t[i].parent);
      DecreasingPrepend(here, up);
      here + up
  }

  /** `openTo(i)` toggles exactly the toggle containers among `i` and its ancestors below the root. */
  lemma {:induction false} UpwardTogglesAreChain(t: seq<Node>, i: nat)
    requires ValidTree(t) && i < |t|
    ensures forall x {:trigger x in UpwardToggles(t, i)} ::
      x in UpwardToggles(t, i) <==> x in Chain(t, i) && t[x].toggleContainer
    decreases i
  {
    if i > 0 {
      UpwardTogglesAreChain(t, t[i].parent);
      assert Chain(t, i) == Chain(t, t[i].parent) + [i];
    }
  }
}
