# range-normalize, modelled in Dafny

`normalize(range)` rewrites a DOM Range so that slightly different ways of
writing the same span end up in one form. Where it can, it makes
`startContainer` and `endContainer` point at text nodes. The model covers the
whole of `normalize`:

- the single-pass fix-up of the start boundary;
- the `while (true)` loop that fixes up the end boundary;
- the conditional `setStart` / `setEnd` write-back.

The tree is an immutable datatype: `Text(data)`, `Element(children)`, or
`Other(children)` for every other node type. A node's identity is its path of
child indices from the root. `parentNode` drops the last index.
`nextSibling` and `previousSibling` add or subtract one on the last index when
the result is in range. `firstChild` and `lastChild` append an index. `===` is
path equality. The range is a record of two boundaries and the `collapsed`
flag the host computed. The result says where the boundaries end up and
whether each setter was called.

Files and modules:

- `tree.dfy` (`Tree`): nodes, paths, boundaries, and DOM navigation on paths.
- `document_order.dfy` (`DocumentOrder`): subtree sizes, and each node's
  position in document order (`DocIndex`).
- `walk.dfy` (`Walk`): the two tree walks the code repeats for both
  boundaries. One climbs to the nearest ancestor-or-self that has a
  next/previous sibling. The other descends along the first-child or
  last-child spine until it meets a text node. Each walk comes with a
  closed-form characterisation and a lemma for the converse direction.
- `normalize.dfy` (`RangeNormalize`): `ResolveStart` for the start,
  `EndIteration` for one pass of the end loop's body, `EndLoop` for the loop
  itself, and `Normalize`.
- `properties.dfy` (`NormalizeProperties`): the boundary rules, each stated
  against the closed-form walks.
- `scenarios.dfy` (`Scenarios`): the tree of the repository's tests
  (`BoldTree`), plus four more: sibling texts (`LettersTree`), an empty
  element between two texts (`BreakTree`), a text after an element
  (`RepeatTree`) and two sibling texts (`PairTree`).

The end loop is a recursive function. Its termination measure is the end
container's document-order position when that container is a text node, and
the tree's size otherwise. The first pass may descend from an element to a
text node. Every later pass starts on a text node and ends strictly earlier
in document order.

Behaviour of `index.js` worth knowing, all of it modelled as written:

- It has no void-element handling: an empty element such as `<br>` is
  descended into like any other and yields no text node.
- An end on an element picks `childNodes[eo]`, the same child the start
  picks, not `childNodes[eo - 1]`.
- The start is resolved in a single pass and is not re-checked after it
  lands on a text node.
- Normalization is not idempotent. `Scenarios.NotIdempotent` shows a start
  that moves again on a second pass.
- For a collapsed range, the start can move while the end loop leaves the
  end where it was: the loop stops early only when the end equals the
  resolved start. With `setStart` and `setEnd` modelled as plain field
  updates, the resolved boundaries then differ, and only `setStart` is
  called. `Scenarios.CollapsedSplits` shows one such range. On a DOM host
  the two calls interact, as recorded under "## Left out".

## Model

| member | source | states |
|---|---|---|
| Walk.AscendToNext | index.js:35-41 | Result is None exactly when no ancestor-or-self has a next sibling; otherwise it is the next sibling of the deepest ancestor-or-self that has one |
| Walk.AscendToNextFinds | index.js:35-41 | Conversely, whenever a nearest next sibling exists, the climb returns it |
| Walk.AscendToPrevious | index.js:88-93 | Result is None exactly when no ancestor-or-self has a previous sibling; otherwise it is the previous sibling of the deepest ancestor-or-self that has one |
| Walk.AscendToPreviousFinds | index.js:88-93 | Conversely, whenever a nearest previous sibling exists, the climb returns it |
| Walk.AscendToPreviousEarlier | index.js:88-94 | The previous sibling reached by climbing, together with its whole subtree, lies strictly before the starting node in document order |
| Walk.Descend | index.js:60-66 | A found node is a text node, reached from the start node through non-text nodes by first-child steps only (or last-child steps only) |
| Walk.DescendComplete | index.js:60-66 | Conversely, the text node at the bottom of such a spine is what the descent returns |
| Walk.DescendFromOffset | index.js:52-69 | Descent from an element boundary starts at childNodes[offset], or at the last child when offset >= child count, and follows first children or last children respectively. A found text is the text node at the bottom of that spine, at offset 0, or at its length when the last child was taken |
| Walk.DescendFromOffsetComplete | index.js:52-69 | Conversely, a text node at the bottom of the selected spine is found, with that offset |
| Walk.DescendFromOffsetFails | index.js:52-74 | When the selected spine holds no text node, or the element has no children (index length - 1 is undefined), the descent fails |
| Walk.DescendFromOffsetWithin | index.js:52-66 | The text node a descent reaches lies strictly inside the subtree of the element it started from |
| RangeNormalize.ResolveStart | index.js:32-75 | Resolved start is a node of the tree and stays a valid boundary. It is an element only if unchanged. A moved start sits at offset 0, or at the end of a text node |
| RangeNormalize.EndIteration | index.js:80-143 | A pass that continues leaves the end on a text node at offset 0 or at the text's length, strictly earlier in document order than a text end it started from. A pass that stops yields the fallback, the end of a non-element node, or the unchanged end when that is neither an element nor offset 0 of a text |
| RangeNormalize.EndLoop | index.js:78-145 | The loop terminates. Its result is a valid boundary, and is one of: the fallback (resolved start if collapsed, original end otherwise), the end of a non-element node, or the unchanged end |
| RangeNormalize.Normalize | index.js:24-159 | setStart is called exactly when the resolved start differs from the range's start by node or offset, and setEnd likewise. Valid boundaries stay valid. An element boundary survives only unchanged, or for the end as the collapsed start. A moved text boundary sits at 0 or at the text's length |
| NormalizeProperties.StartAtTextEndWithoutNext | index.js:32-46 | A start at the end of a text node, with no next sibling on any ancestor-or-self, stays exactly as given |
| NormalizeProperties.StartAtTextEndToNonElement | index.js:32-46 | A start at the end of a text node moves to offset 0 of the nearest ancestor-or-self's next sibling, when that sibling is not an element |
| NormalizeProperties.StartAtTextEndIntoElement | index.js:32-69 | When that sibling is an element, the start goes down its first-child spine to offset 0 of the text node found there |
| NormalizeProperties.StartAtTextEndElementWithoutText | index.js:32-75 | When that element's spine holds no text node, the start reverts to the original container and offset |
| NormalizeProperties.StartOnElementReachesText | index.js:49-69 | A start on an element lands on the text node at the bottom of the selected spine. Its offset is 0, or the text length when offset >= child count |
| NormalizeProperties.StartSettled | index.js:32-75 | A start that is not an element, and not at the end of a text node, is resolved to itself |
| NormalizeProperties.StartOnElementWithoutText | index.js:49-75 | A start on an element whose selected spine has no text node, or which has no children, stays as given |
| NormalizeProperties.EndAtTextStartWithoutPrevious | index.js:85-105 | An end at offset 0 of a text node, with no previous sibling on any ancestor-or-self, falls back: to the resolved start if collapsed, else to the original end |
| NormalizeProperties.EndAtTextStartToNonElement | index.js:85-94 | An end at offset 0 of a text node moves to the nearest previous sibling, with offset = its text length or child count. It stops there when that sibling is not an element |
| NormalizeProperties.EndAtTextStartIntoElement | index.js:85-129 | When that sibling is an element, the end goes down its last-child spine to the text's end and the loop repeats from there |
| NormalizeProperties.EndAtTextStartElementWithoutText | index.js:85-140 | When that element has no text on its last-child spine, the end falls back |
| NormalizeProperties.EndOnElementReachesText | index.js:109-129 | An end on an element goes down the selected spine to a text node, at 0 or at its length, and the loop repeats from there |
| NormalizeProperties.EndOnElementWithoutText | index.js:109-140 | An end on an element whose selected spine holds no text node falls back |
| NormalizeProperties.EndSettled | index.js:80-143 | An end that is not an element, and not at offset 0 of a text node, is returned by the end loop as it is |
| NormalizeProperties.EndLoopStopsAtStart | index.js:80-83 | For a collapsed range, the end loop stops as soon as the end equals the resolved start |
| NormalizeProperties.CollapsedWithSettledStart | index.js:29-83 | A collapsed range whose start needs no change keeps both boundaries and calls neither setter |
| NormalizeProperties.NoWrites | index.js:141-156 | A start that is not an element and not at a text's end, with an end that is not an element and not at a text's start, causes no setter call |
| Scenarios.WrappingOutsideOfBold | test/test.js:7-24 | On `<i>asdf </i><b>asdf</b> asdf`, (end of "asdf ")..(start of " asdf") becomes ("asdf" in `<b>`, 0)..(same, 4), both setters called |
| Scenarios.WrappingBold | test/test.js:26-43 | On the same tree, (`<b>`, 0)..(`<b>`, 1) becomes ("asdf" in `<b>`, 0)..(same, 4) |
| Scenarios.TextInsideBold | test/test.js:45-62 | On the same tree, ("asdf", 0)..("asdf", 4) is left alone and no setter is called |
| Scenarios.SiblingTexts | index.js:32-94 | With sibling texts "a", "b", "c", "d", (a, 1)..(d, 0) becomes (b, 0)..(c, 1): the start moves forward (lines 32-46), the end back (lines 85-94) |
| Scenarios.EmptyElementBetween | index.js:32-140 | On `<i>blah</i><br><b>hello</b>`, both boundaries reach the childless `<br>`, find no text and fall back (lines 52-74 for the start, 85-140 for the end): no setter is called |
| Scenarios.NotIdempotent | index.js:32-69 | A start on `<b>x</b>` past its last child lands at ("x", 1). Resolving that again moves it to the following "y" |
| Scenarios.CollapsedSplits | index.js:29-156 | On sibling texts "a", "b", the collapsed range (a, 1)..(a, 1) resolves to start (b, 0) and end (a, 1); with the setters as field updates, setStart is called and setEnd is not |

## Left out

- Logging: the `debug` logger and every call to it produce no behaviour and are not modelled.
- The host Range object: how it computes `collapsed`, and how `setStart`/`setEnd` may re-collapse or reorder the range. The setters are modelled as adopting the given boundary, and the result records whether each was called.
- Normalize: the `setEnd` test at index.js:153 reads `range.endContainer` and `range.endOffset` after `setStart` has run, so it compares against the end as `setStart` left it. The model compares against the original end, which is the same only when `setStart` leaves the end alone. On a DOM host, `setStart` to a point after the end also moves the end there. For `Scenarios.CollapsedSplits` that means the end becomes (b, 0), line 153 then calls `setEnd` with (a, 1), and that collapses the start back: the range ends as (a, 1)..(a, 1) with both setters called. This host behaviour is not modelled.
- Building trees from HTML (`innerHTML`, `document.createRange`): trees are written directly as datatype values.
- Node names and void elements: `index.js` never consults them, so nodes carry no name.
- Malformed or cyclic trees cannot be expressed with an immutable datatype. A container outside the tree is excluded by the `ValidPath` preconditions. Out-of-range offsets are accepted, as in the code. Validity of the result is promised only for valid input boundaries.
- Text length: `data` stands for the text's UTF-16 code units, one `char` per unit, so `TextLength` is `nodeValue.length` and offsets into a text line up with the DOM's. Decoding code units into characters is not modelled.
- `Other` nodes have children but no character data. Offsets into comments and other non-text, non-element nodes are therefore not range-checked.
