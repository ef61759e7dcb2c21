# cloogle sidebar browser, modelled in Dafny

This project models the state-changing core of `frontend/browser.js`. That
file is the sidebar navigator of cloogle.org's documentation browser:
`element.browser(opts)` attaches it to a tree of `<ul>`/`<li>` elements.

The files and what they model:

- `dom.dfy` (module `Dom`): the sidebar as an immutable sequence of nodes in
  document order.
  - Each node has a kind (element or text), a parent, an optional
    `data-name`, the classes `module`, `directory` and `toggle-container`,
    and its ordered `childNodes`.
  - The one class the browser writes, `active`, is a `seq<bool>` beside the
    tree.
  - The ancestor chain and the path of names the click handler builds
    (`Chain`, `NamedChain`, `PathTo`).
  - The live `getElementsByClassName('active')` collection and the clearing
    loop over it (`ActiveIn`, `LiveAfter`, `Survivors`, `AfterClear`).
- `navigation.dfy` (module `Navigation`): what `openPath` and `openTo` do, as
  functions of the tree and their argument.
  - `Walk` gives the nodes toggled, the node made active and the outcome:
    normal, or a `TypeError`.
  - `UpwardToggles` gives the containers `openTo` forces open.
  - It also holds the round-trip proof: in a sidebar-shaped tree, the path a
    click reports leads `openPath` back to the clicked node, which it
    activates unless it is a directory.
- `extend.dfy` (module `Extend`): `extend(obj, def)` as a method over a
  `JsObject` class whose own properties form a map that the method updates in
  place.
- `browser.dfy` (module `Browser`): the object `browser` builds, as the class
  `Browser.Browser`. Its fields are `active`, the viewer's HTML, the log of
  callbacks called so far and the URLs requested so far. Its methods are:
  - `TriggerChange`, and `Complete` for the request's `onreadystatechange`;
  - the `.module` click handler, as `Click`, with `ClearActive` and `NamesUpTo`
    as its two loops;
  - `OpenPath`, with `WalkDown` and `SearchLevel` as its outer and inner loops;
  - `OpenTo`, with `ForceOpenUpwards` as its loop;
  - `Open`.
  `Attach` is `element.browser(opts)` itself.
- `scenarios.dfy` (module `Scenarios`): worked examples on a two-entry sidebar,
  proved by the verifier.

Calls the browser makes to code outside it are not executed. Each one is
appended to the log as a `Hook`, with the arguments that matter:
`newState`, `newPath(path)`, `newHash(hash)`, `getUrl`, `onLoad` and
`toggle(node, force)`. `toggle` is not defined in this file, so the model
only records the call and does not say what it does to the tree.

In several places the code behaves in ways a reader may not expect. The
model follows the code:

- **No supersession.** The completion handler has no sequence check. An older
  request that completes after a newer one still replaces the viewer's
  contents and calls `onLoad` (`Scenarios.StaleResponseShown`).
- **Unmatched segments are skipped.** An unmatched segment does not end
  `openPath`: the next segment is searched at the same level
  (`Navigation.UnmatchedSegmentIgnored`). On `["guide", "missing", "intro"]`,
  `intro` becomes active (`Scenarios.MissingSegmentSkipped`).
- **No forced toggle in `openPath`.** `openPath` calls `toggle` without
  `force`. Only `openTo` forces.
- **"At most one active node" is not guaranteed.** The clearing loops
  iterate a live collection while removing the class from it, so every second
  active node survives (`Dom.ClearKeepsSurvivors`,
  `Scenarios.LiveCollectionSkipsSecond`). `openTo` clears nothing. The
  at-most-one property is therefore proved only for the nodes below the
  root, and only from a state that already has at most one of them active
  (`Dom.SelectAfterClear`, `Browser.OpenPathKeepsAtMostOne`). The root's own
  flag is never cleared, since the search starts below it, and `openTo` on
  the root can set it.
- **`openPath` can throw.** A text node met before the match makes
  `dataset.name` throw. A non-final match with fewer than two child nodes
  makes the next `'childNodes' in undefined` throw. Both end in a
  `TypeError`, after the toggles already made.

## Model

| member | source | states |
|---|---|---|
| Extend.Merged | frontend/browser.js:6-15 | the result's keys are those of `obj` and `def`; every property `obj` owns keeps its value; every other key takes `def`'s value |
| Extend.Extend | frontend/browser.js:6-15 | returns `obj` itself; `obj`'s own properties become `Merged(old obj, def)`; `def` is unchanged when it is a different object |
| Extend.MergedIdempotent | frontend/browser.js:6-15 | extending a second time with the same defaults changes nothing |
| Extend.MergedSelf | frontend/browser.js:6-15 | extending an object with itself leaves it unchanged |
| Browser.ViewerAfterDefaults | frontend/browser.js:18-28 | after the defaults are merged, every default option is present, and the viewer is the caller's element or, failing that, none |
| Browser.Attach | frontend/browser.js:17-31 | a missing `opts` becomes `{}`; the caller's object (or the new one) gets the defaults merged in place; the browser starts with the given classes (which only elements carry), the viewer named by the merged options, an empty log and no requests |
| Browser.TriggerHooks | frontend/browser.js:33-43 | `newState` is called first and only once; `getUrl` is called exactly when `update` is absent or truthy |
| Browser.Browser.TriggerChange | frontend/browser.js:33-54 | logs `newState`; a falsy `update` then returns with the viewer and requests unchanged; otherwise a present viewer shows the loading placeholder, `getUrl` is logged and exactly one request, for its URL, is added |
| Browser.Browser.Complete | frontend/browser.js:45-51 | only `readyState == 4 && status == 200` puts the response in a present viewer and logs `onLoad`; any other completion changes nothing; the request's age is not checked |
| Dom.ActiveIn | frontend/browser.js:69 | the live collection holds exactly the active nodes below the root, in document order |
| Dom.LiveAfterStep | frontend/browser.js:70-71 | iteration `i` of the clearing loop removes the entry that was at position `2i` of the original collection, and the collection closes up over it |
| Dom.LiveAfterDone | frontend/browser.js:70-71 | when the index passes the end of the live collection, the odd-position entries of the original remain |
| Browser.Browser.ClearActive | frontend/browser.js:69-71 | the clearing loop, with the collection re-read after each removal, leaves `AfterClear(old active)`; nothing else changes |
| Dom.ClearKeepsSurvivors | frontend/browser.js:69-71 | after the clearing loop, exactly the odd-position entries of the original collection are still active: `n / 2` of `n` |
| Dom.AfterClearKeepsElements | frontend/browser.js:69-71 | the clearing loop only removes the class, so if only elements carried `active` before, only elements carry it after |
| Dom.ClearAtMostOne | frontend/browser.js:69-71 | with at most one active node below the root beforehand, the loop clears every node below the root |
| Dom.SelectAfterClear | frontend/browser.js:69-74 | clicking `e` when at most one node below the root was active leaves `e` as the only active node below the root |
| Dom.Chain | frontend/browser.js:76-79 | the nodes from just below the root down to `i`, each one the parent of the next, in increasing document order |
| Dom.NamedChainMembers | frontend/browser.js:76-79 | a node is on the named chain exactly when it is on the chain and has a `data-name` |
| Dom.NamedChainIncreasing | frontend/browser.js:75-80 | the named chain is in root-to-node order |
| Dom.PathToListsNamedChain | frontend/browser.js:75-80 | the path has one entry per named node on the chain, in the same order, each entry that node's name |
| Browser.Browser.NamesUpTo | frontend/browser.js:75-80 | the `unshift` loop builds `PathTo(e)`: one name per named node on the chain from the root (excluded) to `e`, outermost first |
| Browser.Browser.Click | frontend/browser.js:65-86 | `active` becomes the cleared flags with `e` set; the path reported is `PathTo(e)`; the log grows by `newPath(path)` and then `triggerChange()`'s calls; one request is sent |
| Navigation.FirstMatch | frontend/browser.js:100-110 | a found child is an element named by the segment, and every child before it is an element with another name; `NotAnElement` means a text node was reached with every child before it passed over |
| Navigation.FirstMatchDecidedAt | frontend/browser.js:100-110 | conversely, when every child before position `k` is passed over and child `k` is a text node or an element named by the segment, the verdict is `NotAnElement` or `Found` of that child |
| Navigation.NoMatchIff | frontend/browser.js:100-110 | the inner loop runs to its end exactly when every child is an element with a different name |
| Navigation.SecondChild | frontend/browser.js:104 | `childNodes[1]` exists exactly when the node has more than one child node, and it is then one of them |
| Navigation.Walk | frontend/browser.js:97-111 | an activated node lies below the root, is an element and not a directory, and is named by the last segment, and the walk then ends normally; every toggled node is a named element below the root |
| Navigation.WalkShift | frontend/browser.js:98-110 | walking from segment `j + 1` equals walking, from `j`, the path with segment `i <= j` removed |
| Navigation.UnmatchedSegmentIgnored | frontend/browser.js:98-110 | a segment that matches no child at the current level has the same effect as removing it from the path |
| Navigation.SidebarFindable | frontend/browser.js:97-110 | in a sidebar-shaped tree, every named node is the first match of its name among its siblings, and sits in the root or in the second child node of a node found the same way |
| Navigation.WalkAlongPath | frontend/browser.js:98-104 | for a findable `x`, walking a path that starts with `PathTo(x)` toggles the named proper ancestors of `x`, root first, and reaches `x`'s level at `x`'s segment |
| Navigation.FindableWalk | frontend/browser.js:97-111 | `openPath(PathTo(x))` for a findable `x` toggles its named proper ancestors, ends normally and activates `x` unless it is a directory |
| Navigation.OpenPathFindsClicked | frontend/browser.js:92-112 | in a sidebar, `openPath` on the path that a click on `x` reports toggles `x`'s named proper ancestors, ends normally and activates `x` unless it is a directory |
| Browser.Browser.SearchLevel | frontend/browser.js:99-110 | the inner loop returns `FirstMatch`; it toggles a non-final match, activates a final non-directory match, and otherwise changes nothing |
| Browser.Browser.WalkDown | frontend/browser.js:97-111 | the outer loop toggles `Walk(...).toggled` in order without force, activates `Walk(...).target` and ends with `Walk(...).outcome` |
| Browser.Browser.OpenPath | frontend/browser.js:92-112 | `active` becomes the cleared flags with at most the walk's target set; the log grows by one unforced `toggle` per node the walk toggles; the outcome is the walk's |
| Browser.ClickThenOpenPath | frontend/browser.js:92-112 | in a sidebar-shaped tree, with at most one node below the root active before the click, right after a click on a named non-directory module, `openPath` on the path it reported ends normally, toggles the module's named ancestors and leaves `active` exactly as the click left it |
| Browser.OpenPathKeepsAtMostOne | frontend/browser.js:93-110 | from at most one active node below the root, `openPath` leaves exactly its target active below the root, or nothing below the root |
| Navigation.UpwardToggles | frontend/browser.js:119-123 | the nodes `openTo` forces open are toggle containers strictly below the root and at or above `elem`, in strictly decreasing (bottom-up) order |
| Navigation.UpwardTogglesAreChain | frontend/browser.js:119-123 | a node is forced open exactly when it is on `elem`'s chain and is a toggle container |
| Browser.Browser.ForceOpenUpwards | frontend/browser.js:119-123 | the `parentNode` loop logs `toggle(x, true)` for exactly `UpwardToggles(elem)`, in order, and changes nothing else |
| Browser.Browser.OpenTo | frontend/browser.js:113-124 | `null` changes nothing; a text node throws before any change; otherwise `elem` alone is marked active unless it is a directory, no other flag is cleared, and every toggle container from `elem` up to, but not including, the root is forced open |
| Browser.Fragment | frontend/browser.js:126 | the fragment is the hash without its first character |
| Browser.Browser.Open | frontend/browser.js:125-127 | a fragment that decodes logs `newHash` with the decoded fragment; one that does not decode throws a `URIError` and logs nothing |
| Scenarios.MissingSegmentSkipped | frontend/browser.js:98-110 | `openPath(["guide", "missing", "intro"])` toggles `guide` and activates `intro` |
| Scenarios.LiveCollectionSkipsSecond | frontend/browser.js:69-71 | with two active nodes, the clearing loop leaves the second one active |
| Scenarios.StaleResponseShown | frontend/browser.js:44-53 | when two requests complete in reverse order, the older response is what the viewer shows |

## Left out

- Binding the click handlers (lines 56-66) is not modelled. Neither are
  `preventDefault` and `stopPropagation`, or the injection of `browser`
  and `documentOffsetTop` onto `Element.prototype`. `Click` is the body of
  one handler.
- `toggle` is not defined in this file. It is recorded as a call with its
  node and `force` flag; its effect on the tree is not modelled.
- XMLHttpRequest transport and scheduling are not modelled. Sending a
  request appends its URL to `requests`. `Complete` is called with the
  request's index, `readyState`, `status` and response. Any interleaving of
  completions is a sequence of calls.
- `getUrl` and `decodeURIComponent` are code outside the model.
  `TriggerChange` takes the URL `getUrl` returns as a parameter. `Open` takes
  the decoding as a function parameter, with `None` for a malformed escape.
  The hash is a parameter in place of `window.location.hash`.
- `scrollTo` and `documentOffsetTop` are not modelled. They depend on
  layout offsets and on floating-point arithmetic.
- The HTML in `innerHTML` is an uninterpreted string. Nothing is parsed or
  rendered. The viewer is present (`Some`) exactly when `opts.viewer` is an
  element.
- Browser.ViewerOf: a `viewer` option that is neither `null`, `undefined` nor
  an element (a function, or a plain object) is treated as no viewer. The
  source tests only `opts.viewer != null`, so it would write `innerHTML` onto
  such an object as an ordinary property.
- Browser.Browser.TriggerChange and Browser.Browser.Complete: the viewer is
  read from the options once, when the browser is built. The source reads
  `opts.viewer` again on every `triggerChange` and every completion, from the
  caller's own `opts` object, which `extend` updated in place and the caller
  still holds. A caller that later replaces or removes `opts.viewer` changes
  where the source writes; the model does not capture that aliasing.
- The `state` option is not modelled. It is passed through to `onLoad` and
  exposed unchanged; the model records the `onLoad` call without its
  argument.
- The prototype chain of `opts` and of the defaults object is not modelled.
  `extend` only consults and copies own properties, and the model keeps only
  those. The order of `for…in` is left open; every order gives the same
  result.
- Browser.Attach: only an absent `opts` and an object are modelled. A `null`
  `opts` makes `extend` throw on `hasOwnProperty`. A string, number or
  boolean `opts` passes through `extend` unchanged, because the script is not
  in strict mode and writes to a primitive are silently dropped. Each later
  hook call then throws a `TypeError`: `newPath` on a click, `newState` in
  `triggerChange`, `newHash` in `open`. `openPath` and `openTo` never read
  `opts`, so they do not throw for this reason.
- The tree's structure is fixed. Nothing in the core adds or removes nodes,
  so the only DOM state modelled is the `active` class.
- Browser.Browser.OpenTo: `elem` is a node of the sidebar (an index into the
  tree). An element outside the root is not modelled. For an element that is
  in the page, the source climbs past the root's ancestors to `document`,
  which has no `classList`, so line 120 throws a `TypeError` after any toggles
  already made on the way. Only for a detached subtree does the climb end at
  `null` without an error.
- Browser.Browser.WalkDown: a match on the final segment returns at once.
  In the source, `break` followed by `i++` ends the loop at the same point
  with the same state.
