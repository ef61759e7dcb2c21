/**
  The part of the DOM the sidebar navigator touches: the elements below the
  root it is attached to, their `data-name` attributes, the CSS classes it
  reads (`module`, `directory`, `toggle-container`) and the one class it writes
  (`active`).

  Nodes are kept in a sequence indexed in document order: index 0 is the root,
  every other node comes after its parent, and a subtree occupies a contiguous
  run of indices. The structure never changes; only the `active` flags do, and
  they are kept beside the tree as a `seq<bool>`.
 */
module Dom {

  datatype Option<T> = None | Some(value: T)

  /** How a call ends: normally, or with the exception the source lets escape. */
  datatype Outcome = Finished | TypeError | URIError

  /** Element nodes carry `dataset` and `classList`; text (and comment) nodes do not. */
  datatype NodeKind = ElementNode | TextNode

  datatype Node = Node(
    kind: NodeKind,
    parent: nat,              // index of parentNode (ignored for the root)
    name: Option<string>,     // dataset.name, when the data-name attribute is present
    isModule: bool,            // class "module": a clickable entry
    directory: bool,          // class "directory"
    toggleContainer: bool,    // class "toggle-container"
    childNodes: seq<nat>)     // indices of childNodes, text nodes included, in order

  predicate Increasing(s: seq<nat>)
  {
    forall k, m | 0 <= k < m < |s| :: s[k] < s[m]
  }

  lemma IncreasingAppend(s: seq<nat>, u: seq<nat>)
    requires Increasing(s) && Increasing(u)
    requires forall x, y | x in s && y in u :: x < y
    ensures Increasing(s + u)
  {
    forall k, m | 0 <= k < m < |s + u| ensures (s + u)[k] < (s + u)[m] {
      if k < |s| && |s| <= m {
        assert (s + u)[k] in s && (s + u)[m] in u;
      }
    }
  }

  /** Every child node is a node of the tree other than the root. */
  predicate ChildrenBelow(t: seq<Node>)
  {
    forall i, j {:trigger t[i].childNodes[j]} | 0 <= i < |t| && 0 <= j < |t[i].childNodes| ::
      0 < t[i].childNodes[j] < |t|
  }

  /** The tree is well formed and its indices are document (pre-)order. */
  predicate ValidTree(t: seq<Node>)
  {
    && |t| > 0
    && t[0].kind == ElementNode
    && (forall i {:trigger t[i].parent} | 0 < i < |t| :: t[i].parent < i)
    && (forall i {:trigger t[i].parent} | 0 < i < |t| :: i in t[t[i].parent].childNodes)
    && ChildrenBelow(t)
    && (forall i, c {:trigger c in t[i].childNodes} | 0 <= i < |t| && c in t[i].childNodes ::
          0 < c < |t| && t[c].parent == i)
    && (forall i {:trigger t[i].childNodes} | 0 <= i < |t| :: Increasing(t[i].childNodes))
    // preorder: everything between a node's parent and the node lies below that parent
    && (forall j, k {:trigger t[j].parent, t[k].parent} | 0 < j < |t| && t[j].parent < k < j ::
          t[j].parent <= t[k].parent)
    && (forall i {:trigger t[i].kind} | 0 <= i < |t| && t[i].kind == TextNode ::
          && t[i].childNodes == []
          && t[i].name == None
          && !t[i].isModule && !t[i].directory && !t[i].toggleContainer)
  }

  // ---------------------------------------------------------------------------
  // Ancestor chains and the path of names

  /** The nodes from just below the root down to `i`, in root-to-node order. */
  function Chain(t: seq<Node>, i: nat): (c: seq<nat>)
    requires ValidTree(t) && i < |t|
    ensures forall k | 0 <= k < |c| :: 0 < c[k] <= i
    ensures forall x {:trigger x in c} | x in c :: 0 < x <= i
    ensures i == 0 <==> c == []
    ensures c != [] ==> c[|c| - 1] == i && t[c[0]].parent == 0
    ensures forall k, m | 0 <= k && m == k + 1 && m < |c| :: t[c[m]].parent == c[k]
    ensures Increasing(c)
    decreases i
  {
    if i == 0 then []
    else
      var up := Chain(t, t[i].parent);
      IncreasingAppend(up, [i]);
      up + [i]
  }

  function NameOf(n: Node): seq<string>
  {
    if n.name.Some? then [n.name.value] else []
  }

  /** The named nodes on `Chain(t, i)`, in the same order. */
  function NamedChain(t: seq<Node>, i: nat): (c: seq<nat>)
    requires ValidTree(t) && i < |t|
    ensures forall k | 0 <= k < |c| :: 0 < c[k] <= i
    ensures t[i].name.Some? && i > 0 ==> c != [] && c[|c| - 1] == i
    decreases i
  {
    if i == 0 then []
    else NamedChain(t, t[i].parent) + (if t[i].name.Some? then [i] else [])
  }

  /** `NamedChain` keeps exactly the named nodes of the chain. */
  lemma {:induction false} NamedChainMembers(t: seq<Node>, i: nat)
    requires ValidTree(t) && i < |t|
    ensures forall x {:trigger x in NamedChain(t, i)} :: x in NamedChain(t, i) <==> x in Chain(t, i) && t[x].name.Some?
    decreases i
  {
    if i > 0 {
      var p := t[i].parent;
      NamedChainMembers(t, p);
      NamedChainStep(t, i);
      ChainStep(t, i);
    }
  }

  /** `NamedChain` lists its nodes root first. */
  lemma {:induction false} NamedChainIncreasing(t: seq<Node>, i: nat)
    requires ValidTree(t) && i < |t|
    ensures Increasing(NamedChain(t, i))
    decreases i
  {
    if i > 0 {
      var p := t[i].parent;
      NamedChainIncreasing(t, p);
      var up := NamedChain(t, p);
      var here := if t[i].name.Some? then [i] else [];
      forall x, y | x in up && y in here ensures x < y {
        var k :| 0 <= k < |up| && up[k] == x;
      }
      IncreasingAppend(up, here);
    }
  }

  /**
    The path the click handler reports for node `i`: the names on the way from
    the root (excluded) down to `i`. Unnamed nodes contribute nothing.
   */
  function PathTo(t: seq<Node>, i: nat): seq<string>
    requires ValidTree(t) && i < |t|
    decreases i
  {
    if i == 0 then [] else PathTo(t, t[i].parent) + NameOf(t[i])
  }

  /** `PathTo` one level up: the parent's path followed by the node's own name, if any. */
  lemma PathToStep(t: seq<Node>, i: nat)
    requires ValidTree(t) && 0 < i < |t|
    ensures t[i].parent < i && PathTo(t, i) == PathTo(t, t[i].parent) + NameOf(t[i])
  {
  }

  /** `Chain` one level up: the parent's chain followed by the node itself. */
  lemma ChainStep(t: seq<Node>, i: nat)
    requires ValidTree(t) && 0 < i < |t|
    ensures Chain(t, i) == Chain(t, t[i].parent) + [i]
  {
  }

  /** `NamedChain` one level up: the parent's named chain followed by the node itself if it is named. */
  lemma NamedChainStep(t: seq<Node>, i: nat)
    requires ValidTree(t) && 0 < i < |t|
    ensures NamedChain(t, i) == NamedChain(t, t[i].parent) + if t[i].name.Some? then [i] else []
  {
  }

  /** An unnamed node adds nothing to the path or to the named chain of its parent. */
  lemma UnnamedStep(t: seq<Node>, i: nat)
    requires ValidTree(t) && 0 < i < |t| && t[i].name.None?
    ensures PathTo(t, i) == PathTo(t, t[i].parent)
    ensures NamedChain(t, i) == NamedChain(t, t[i].parent)
  {
    var p := t[i].parent;
    assert PathTo(t, i) == PathTo(t, p) + [];
    assert NamedChain(t, i) == NamedChain(t, p) + [];
  }

  /** A prefix of a prefix: `s` starting with `a + b` starts with `a`, followed by `b`. */
  lemma PrefixOfPrefix<T>(s: seq<T>, a: seq<T>, b: seq<T>)
    requires |a| + |b| <= |s| && s[..|a| + |b|] == a + b
    ensures s[..|a|] == a
    ensures forall k | |a| <= k < |a| + |b| :: s[k] == b[k - |a|]
  {
    assert forall k | 0 <= k < |a| + |b| :: s[k] == s[..|a| + |b|][k];
  }

  lemma FullSlice<T>(s: seq<T>)
    ensures s[..|s|] == s
  {
  }

  lemma AppendEmpty<T>(s: seq<T>)
    ensures [] + s == s && s + [] == s
  {
  }

  lemma AppendAssoc<T>(a: seq<T>, b: seq<T>, c: seq<T>)
    ensures (a + b) + c == a + (b + c)
  {
  }

  /** One path entry per named node on the chain, in root-to-node order. */
  lemma {:induction false} PathToListsNamedChain(t: seq<Node>, i: nat)
    requires ValidTree(t) && i < |t|
    ensures |PathTo(t, i)| == |NamedChain(t, i)|
    ensures forall k | 0 <= k < |PathTo(t, i)| && k < |NamedChain(t, i)| ::
      t[NamedChain(t, i)[k]].name == Some(PathTo(t, i)[k])
    decreases i
  {
    if i > 0 {
      var p := t[i].parent;
      PathToListsNamedChain(t, p);
      assert PathTo(t, i) == PathTo(t, p) + NameOf(t[i]);
      assert NamedChain(t, i) == NamedChain(t, p) + (if t[i].name.Some? then [i] else []);
    }
  }

  // ---------------------------------------------------------------------------
  // The `active` class and the live collection getElementsByClassName('active')

  /** Indices `j >= lo` with `a[j]`, ascending: for `lo == 1` this is the live
      collection `root.getElementsByClassName('active')` (the root excluded). */
  function ActiveIn(a: seq<bool>, lo: nat): (r: seq<nat>)
    ensures forall x :: x in r <==> lo <= x < |a| && a[x]
    ensures Increasing(r)
    decreases |a| - lo
  {
    if lo >= |a| then []
    else
      var here := if a[lo] then [lo] else [];
      var rest := ActiveIn(a, lo + 1);
      IncreasingAppend(here, rest);
      here + rest
  }

  /** The entries of a live list that survive the loop
      `for (i = 0; i < old.length; i++) old[i].classList.remove('active')`:
      removing entry `i` shifts the rest down, so every second one is skipped. */
  function Survivors(s: seq<nat>): (r: seq<nat>)
    ensures |r| == |s| / 2
    ensures forall k | 0 <= k < |r| :: r[k] == s[2 * k + 1]
  {
    if |s| < 2 then [] else [s[1]] + Survivors(s[2..])
  }

  /** The live list after the clearing loop has removed its first `i` targets. */
  function LiveAfter(s: seq<nat>, i: nat): seq<nat>
  {
    if i == 0 || |s| == 0 then s
    else if |s| == 1 then []
    else [s[1]] + LiveAfter(s[2..], i - 1)
  }

  /** Iteration `i` removes entry `i` of the current live list, which was entry `2i` of the original. */
  lemma {:induction false} LiveAfterStep(s: seq<nat>, i: nat)
    requires i < |LiveAfter(s, i)|
    ensures 2 * i < |s| && LiveAfter(s, i)[i] == s[2 * i]
    ensures LiveAfter(s, i + 1) == LiveAfter(s, i)[..i] + LiveAfter(s, i)[i + 1..]
  {
    if i == 0 {
      if |s| > 1 {
        assert s[1..] == [s[1]] + s[2..];
      }
    } else {
      LiveAfterStep(s[2..], i - 1);
      LiveAfterUnfold(s, i);
      LiveAfterUnfold(s, i + 1);
    }
  }

  lemma LiveAfterUnfold(s: seq<nat>, i: nat)
    requires i > 0 && |s| > 1
    ensures LiveAfter(s, i) == [s[1]] + LiveAfter(s[2..], i - 1)
  {
  }

  /** Once the index has passed the end of the live list, what is left are the survivors. */
  lemma {:induction false} LiveAfterDone(s: seq<nat>, i: nat)
    requires |LiveAfter(s, i)| <= i
    ensures LiveAfter(s, i) == Survivors(s)
  {
    if i > 0 && |s| >= 2 {
      LiveAfterDone(s[2..], i - 1);
    }
  }

  lemma {:induction false} SurvivorsIncreasing(s: seq<nat>)
    requires Increasing(s)
    ensures Increasing(Survivors(s))
  {
    var r := Survivors(s);
    forall k, m | 0 <= k < m < |r| ensures r[k] < r[m] {
      assert r[k] == s[2 * k + 1] && r[m] == s[2 * m + 1];
    }
  }

  /** The `active` flags after the clearing loop: the root is never in the
      collection; any other node keeps its flag only if it survives. */
  function AfterClear(a: seq<bool>): (r: seq<bool>)
    ensures |r| == |a|
  {
    var survivors := Survivors(ActiveIn(a, 1));
    seq(|a|, j requires 0 <= j < |a| => if j == 0 then a[0] else j in survivors)
  }

  lemma HeadIsMember(s: seq<nat>)
    ensures s != [] ==> s[0] in s
  {
  }

  /** An increasing list whose least possible entry `lo` occurs in it starts with `lo`. */
  lemma HeadIsLowest(s: seq<nat>, lo: nat)
    requires Increasing(s) && lo in s
    requires forall x | x in s :: lo <= x
    ensures s != [] && s[0] == lo
    ensures Increasing(s[1..])
    ensures forall x :: x in s[1..] <==> x in s && x != lo
  {
    var k :| 0 <= k < |s| && s[k] == lo;
    assert s[0] in s && s[0] <= s[k];
    forall x | x in s[1..] ensures x != lo {
      var j :| 0 <= j < |s| - 1 && s[1..][j] == x;
      assert s[0] < s[j + 1];
    }
    forall x | x in s && x != lo ensures x in s[1..] {
      var j :| 0 <= j < |s| && s[j] == x;
      assert j != 0 && s[1..][j - 1] == x;
    }
  }

  /** Flags that are true exactly on an increasing list `s` above `lo` give back `s`. */
  lemma {:induction false} ActiveInOfFlags(a: seq<bool>, lo: nat, s: seq<nat>)
    requires Increasing(s)
    requires forall x | x in s :: lo <= x < |a|
    requires forall j | lo <= j < |a| :: a[j] <==> j in s
    ensures ActiveIn(a, lo) == s
    decreases |a| - lo
  {
    if lo >= |a| {
      HeadIsMember(s);
      assert forall x | x in s :: false;
    } else if a[lo] {
      HeadIsLowest(s, lo);
      ActiveInOfFlags(a, lo + 1, s[1..]);
      assert s == [lo] + s[1..];
    } else {
      ActiveInOfFlags(a, lo + 1, s);
    }
  }

  /** The live-collection loop leaves exactly the odd-position entries active:
      with `n` active nodes beforehand, `n / 2` stay active. */
  lemma ClearKeepsSurvivors(a: seq<bool>)
    ensures ActiveIn(AfterClear(a), 1) == Survivors(ActiveIn(a, 1))
    ensures |ActiveIn(AfterClear(a), 1)| == |ActiveIn(a, 1)| / 2
  {
    var l := ActiveIn(a, 1);
    var s := Survivors(l);
    SurvivorsIncreasing(l);
    forall x | x in s ensures 1 <= x < |a| {
      var k :| 0 <= k < |s| && s[k] == x;
      assert s[k] == l[2 * k + 1];
      assert l[2 * k + 1] in l;
    }
    ActiveInOfFlags(AfterClear(a), 1, s);
  }

  /** With at most one active node beforehand, the clearing loop clears every node below the root. */
  lemma ClearAtMostOne(a: seq<bool>)
    requires |ActiveIn(a, 1)| <= 1
    ensures forall j | 0 < j < |a| :: !AfterClear(a)[j]
  {
  }

  /** Marking `e` after a clearing that left nothing active makes `e` the only active node. */
  lemma {:induction false} OnlyActive(a: seq<bool>, lo: nat, e: nat)
    requires 0 < lo <= e < |a|
    requires forall j | lo <= j < |a| :: !a[j]
    ensures ActiveIn(a[e := true], lo) == [e]
  {
    ActiveInOfFlags(a[e := true], lo, [e]);
  }

  /** Clicking `e` when at most one node was active leaves `e` as the only active node. */
  lemma SelectAfterClear(a: seq<bool>, e: nat)
    requires |ActiveIn(a, 1)| <= 1
    requires 0 < e < |a|
    ensures ActiveIn(AfterClear(a)[e := true], 1) == [e]
  {
    ClearAtMostOne(a);
    OnlyActive(AfterClear(a), 1, e);
  }

  /** Dropping entry `i` of an increasing list keeps it increasing and loses exactly that value. */
  lemma RemoveIncreasing(s: seq<nat>, i: nat)
    requires Increasing(s) && i < |s|
    ensures Increasing(s[..i] + s[i + 1..])
  {
    var r := s[..i] + s[i + 1..];
    RemoveIndex(s, i);
    forall k, m | 0 <= k < m < |r| ensures r[k] < r[m] {
      assert (if k < i then s[k] else s[k + 1]) < (if m < i then s[m] else s[m + 1]);
    }
  }

  lemma RemoveIndex(s: seq<nat>, i: nat)
    requires i < |s|
    ensures forall k | 0 <= k < |s| - 1 :: (s[..i] + s[i + 1..])[k] == if k < i then s[k] else s[k + 1]
  {
  }

  lemma RemoveMembers(s: seq<nat>, i: nat)
    requires Increasing(s) && i < |s|
    ensures forall y :: y in s[..i] + s[i + 1..] <==> y in s && y != s[i]
  {
    var r := s[..i] + s[i + 1..];
    RemoveIndex(s, i);
    forall y | y in r ensures y in s && y != s[i] {
      var k :| 0 <= k < |r| && r[k] == y;
      var k' := if k < i then k else k + 1;
      assert s[k'] == y;
    }
    forall y | y in s && y != s[i] ensures y in r {
      var k :| 0 <= k < |s| && s[k] == y;
      if k < i {
        assert r[k] == y;
      } else {
        assert r[k - 1] == y;
      }
    }
  }

  /** Taking the class off `x`, entry `i` of the live list, removes exactly that entry from it. */
  lemma RemoveActive(a: seq<bool>, i: nat, x: nat)
    requires i < |ActiveIn(a, 1)| && x == ActiveIn(a, 1)[i]
    ensures x < |a|
    ensures ActiveIn(a[x := false], 1) == ActiveIn(a, 1)[..i] + ActiveIn(a, 1)[i + 1..]
  {
    var s := ActiveIn(a, 1);
    assert x in s;
    var r := s[..i] + s[i + 1..];
    RemoveIncreasing(s, i);
    RemoveMembers(s, i);
    forall j | 1 <= j < |a| ensures a[x := false][j] <==> j in r {
      assert j in s <==> a[j];
    }
    forall y | y in r ensures 1 <= y < |a| {
      assert y in s;
    }
    ActiveInOfFlags(a[x := false], 1, r);
  }

  /** One iteration of the clearing loop: entry `i` of the live list is a node below the root, and taking the class off it leaves the next live list. */
  lemma ClearStep(a: seq<bool>, l0: seq<nat>, i: nat)
    requires ActiveIn(a, 1) == LiveAfter(l0, i) && i < |ActiveIn(a, 1)|
    ensures 0 < ActiveIn(a, 1)[i] < |a|
    ensures ActiveIn(a[ActiveIn(a, 1)[i] := false], 1) == LiveAfter(l0, i + 1)
    ensures |LiveAfter(l0, i + 1)| == |LiveAfter(l0, i)| - 1
  {
    var x := ActiveIn(a, 1)[i];
    LiveAfterStep(l0, i);
    RemoveActive(a, i, x);
    assert x in ActiveIn(a, 1);
  }

  /** When the clearing loop stops, the flags are those `AfterClear` describes. */
  lemma ClearDone(a0: seq<bool>, a: seq<bool>, i: nat)
    requires |a| == |a0| && (|a| > 0 ==> a[0] == a0[0])
    requires ActiveIn(a, 1) == LiveAfter(ActiveIn(a0, 1), i) && |ActiveIn(a, 1)| <= i
    ensures a == AfterClear(a0)
  {
    LiveAfterDone(ActiveIn(a0, 1), i);
    ClearKeepsSurvivors(a0);
    if |a| > 0 {
      SameActive(a, AfterClear(a0));
    }
  }

  /** Flags agreeing on the root and on the active nodes below it are equal. */
  lemma SameActive(a: seq<bool>, b: seq<bool>)
    requires |a| == |b| > 0 && a[0] == b[0]
    requires ActiveIn(a, 1) == ActiveIn(b, 1)
    ensures a == b
  {
    forall j | 1 <= j < |a| ensures a[j] == b[j] {
      assert a[j] <==> j in ActiveIn(a, 1);
    }
  }

  /** Only elements have a `classList`, so only they can carry `active`. */
  predicate ActiveOnElements(t: seq<Node>, a: seq<bool>)
  {
    |a| == |t| && forall i | 0 <= i < |t| && a[i] :: t[i].kind == ElementNode
  }

  /** The clearing loop only takes the class off nodes, so it stays on elements. */
  lemma AfterClearKeepsElements(t: seq<Node>, a: seq<bool>)
    requires ActiveOnElements(t, a)
    ensures ActiveOnElements(t, AfterClear(a))
  {
    var l := ActiveIn(a, 1);
    var s := Survivors(l);
    forall j | 0 < j < |t| && AfterClear(a)[j] ensures t[j].kind == ElementNode {
      assert j in s;
      var k :| 0 <= k < |s| && s[k] == j;
      assert l[2 * k + 1] in l;
    }
  }

  /** Mark `target` active, if there is one. */
  function Activate(a: seq<bool>, target: Option<nat>): seq<bool>
    requires target.Some? ==> target.value < |a|
  {
    if target.Some? then a[target.value := true] else a
  }
}
