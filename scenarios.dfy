/**
  Worked examples of the browser, proved by the verifier, on a small
  sidebar with one directory, `guide`, whose toggle container holds one
  module, `intro`:

    0  ul                      (the root)
    1  li.directory   data-name="guide"
    2    span.toggler
    3    ul.toggle-container
    4      li.module  data-name="intro"
 */
module Scenarios {
  import opened Dom
  import opened Navigation
  import opened Browser

  function GuideTree(): (t: seq<Node>)
    ensures |t| == 5
  {
    [ Node(ElementNode, 0, None, false, false, false, [1]),
      Node(ElementNode, 0, Some("guide"), false, true, false, [2, 3]),
      Node(ElementNode, 1, None, false, false, false, []),
      Node(ElementNode, 1, None, false, false, true, [4]),
      Node(ElementNode, 3, Some("intro"), true, false, false, []) ]
  }

  lemma GuideTreeIsValid()
    ensures ValidTree(GuideTree())
  {
    var t := GuideTree();
    GuideParents();
    GuideChildren();
    GuidePreorder();
    GuideElements();
  }

  lemma GuideParents()
    ensures var t := GuideTree();
      forall i | 0 < i < |t| :: t[i].parent < i && i in t[t[i].parent].childNodes
  {
  }

  lemma GuideChildren()
    ensures ChildrenBelow(GuideTree())
    ensures var t := GuideTree();
      && (forall i, c | 0 <= i < |t| && c in t[i].childNodes :: 0 < c < |t| && t[c].parent == i)
      && (forall i | 0 <= i < |t| :: Increasing(t[i].childNodes))
  {
    var t := GuideTree();
    forall i, c | 0 <= i < |t| && c in t[i].childNodes ensures 0 < c < |t| && t[c].parent == i {
      assert i == 0 || i == 1 || i == 3;
    }
  }

  lemma GuidePreorder()
    ensures var t := GuideTree();
      forall j, k | 0 < j < |t| && t[j].parent < k < j :: t[j].parent <= t[k].parent
  {
    var t := GuideTree();
    forall j, k | 0 < j < |t| && t[j].parent < k < j ensures t[j].parent <= t[k].parent {
      assert j == 2 || j == 3 || j == 4;
    }
  }

  lemma GuideTreeIsSidebar()
    ensures Sidebar(GuideTree())
  {
    GuideTreeIsValid();
    GuideLevels();
    GuideElements();
    GuideNamesUnique();
  }

  lemma GuideLevels()
    ensures var t := GuideTree();
      forall j {:trigger t[j].name} | 0 < j < |t| && t[j].name.Some? :: Level(t, t[j].parent)
  {
    var t := GuideTree();
    assert Container(t, 3);
    forall j | 0 < j < |t| && t[j].name.Some? ensures Level(t, t[j].parent) {
      assert j == 1 || j == 4;
    }
  }

  lemma GuideElements()
    ensures var t := GuideTree();
      forall j | 0 <= j < |t| :: t[j].kind == ElementNode
  {
  }

  lemma GuideNamesUnique()
    ensures var t := GuideTree();
      forall j, k {:trigger t[j].name, t[k].name}
        | 0 < j < |t| && 0 < k < |t| && j != k && t[j].parent == t[k].parent && t[j].name.Some? ::
        t[j].name != t[k].name
  {
  }

  /**
    A segment that names nothing is passed over: `openPath` on
    `["guide", "missing", "intro"]` opens `guide` and marks `intro`.
   */
  lemma MissingSegmentSkipped()
    ensures Walk(GuideTree(), Some(0), ["guide", "missing", "intro"], 0) == WalkResult([1], Some(4), Finished)
  {
  }

  /**
    With nodes 1 and 2 both active, the clearing loop removes the class from
    node 1; the live collection is then `[2]`, whose only entry lies behind
    the loop's index 1, so node 2 stays active.
   */
  lemma LiveCollectionSkipsSecond()
    ensures AfterClear([false, true, true]) == [false, false, true]
  {
    var a := [false, true, true];
    ActiveInOfFlags(a, 1, [1, 2]);
    assert Survivors([1, 2]) == [2];
    var r := AfterClear(a);
    assert r[0] == false && r[1] == false && r[2] == true;
  }

  /**
    Two changes in a row send two requests; if the first one completes last,
    its response is what the viewer ends up showing. The sidebar plays no
    part here, so it is reduced to its root.
   */
  method StaleResponseShown() returns (shown: Option<string>)
    ensures shown == Some("<p>first</p>")
  {
    var root := [Node(ElementNode, 0, None, false, false, false, [])];
    var b := new Browser(root, [false], map["viewer" := Element("")]);
    b.TriggerChange(None, "first");
    b.TriggerChange(None, "second");
    b.Complete(1, 4, 200, "<p>second</p>");
    b.Complete(0, 4, 200, "<p>first</p>");
    shown := b.viewer;
  }
}
