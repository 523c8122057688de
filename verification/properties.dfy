/**
 The boundary rules of range normalization, each stated against the
 closed-form walks of module Walk rather than against the code's own steps.
 */
module NormalizeProperties {
  import opened Tree
  import opened Walk
  import opened RangeNormalize

  // ---- start boundary --------------------------------------------------------

  /** A start at the end of a text node none of whose ancestors-or-self has a
      next sibling stays exactly as given. */
  lemma StartAtTextEndWithoutNext(t: Node, s: Boundary)
    requires IsText(t, s.container) && s.offset == TextLength(t, s.container)
    requires NoNext(t, s.container)
    ensures ResolveStart(t, s) == s
  {
  }

  /** A start at the end of a text node moves to offset 0 of the nearest next
      sibling of an ancestor-or-self, when that sibling is not an element. */
  lemma StartAtTextEndToNonElement(t: Node, s: Boundary, q: Path)
    requires IsText(t, s.container) && s.offset == TextLength(t, s.container)
    requires NearestNext(t, s.container, q) && !IsElement(t, q)
    ensures ResolveStart(t, s) == Boundary(q, 0)
  {
    AscendToNextFinds(t, s.container, q);
  }

  /** When that next sibling is an element, the start continues down its
      first-child spine and lands at offset 0 of the text node found there. */
  lemma StartAtTextEndIntoElement(t: Node, s: Boundary, q: Path, x: Path)
    requires IsText(t, s.container) && s.offset == TextLength(t, s.container)
    requires NearestNext(t, s.container, q) && IsElement(t, q)
    requires SelectedText(t, q, 0, x)
    ensures ResolveStart(t, s) == Boundary(x, 0)
  {
    AscendToNextFinds(t, s.container, q);
    DescendFromOffsetComplete(t, q, 0, x);
  }

  /** ... and when that spine ends without a text node (or the element has no
      children), the start stays as given. */
  lemma StartAtTextEndElementWithoutText(t: Node, s: Boundary, q: Path)
    requires IsText(t, s.container) && s.offset == TextLength(t, s.container)
    requires NearestNext(t, s.container, q) && IsElement(t, q)
    requires forall x :: !SelectedText(t, q, 0, x)
    ensures ResolveStart(t, s) == s
  {
    AscendToNextFinds(t, s.container, q);
    DescendFromOffsetFails(t, q, 0);
  }

  /** A start on an element moves to the text node at the bottom of the spine
      below the selected child: offset 0 when it followed first children, the
      text's length when the offset was past the last child. */
  lemma StartOnElementReachesText(t: Node, s: Boundary, x: Path)
    requires IsElement(t, s.container) && SelectedText(t, s.container, s.offset, x)
    ensures ResolveStart(t, s) == Boundary(x, if s.offset >= NodeLength(At(t, s.container)) then TextLength(t, x) else 0)
  {
    DescendFromOffsetComplete(t, s.container, s.offset, x);
  }

  /** A start on an element whose selected spine ends without a text node (or
      which has no children at all) stays as given. */
  lemma StartOnElementWithoutText(t: Node, s: Boundary)
    requires IsElement(t, s.container) && forall x :: !SelectedText(t, s.container, s.offset, x)
    ensures ResolveStart(t, s) == s
  {
    DescendFromOffsetFails(t, s.container, s.offset);
  }

  /** A start that is not an element, and not at the end of a text node, needs
      no change. */
  lemma StartSettled(t: Node, s: Boundary)
    requires ValidPath(t, s.container) && !IsElement(t, s.container)
    requires IsText(t, s.container) ==> s.offset != TextLength(t, s.container)
    ensures ResolveStart(t, s) == s
  {
  }

  // ---- end boundary ----------------------------------------------------------

  /** An end at offset 0 of a text node none of whose ancestors-or-self has a
      previous sibling falls back: to the resolved start for a collapsed range,
      to the original end otherwise. */
  lemma EndAtTextStartWithoutPrevious(t: Node, start: Boundary, ec: Path, collapsed: bool, original: Boundary)
    requires ValidPath(t, start.container) && ValidPath(t, original.container)
    requires IsText(t, ec)
    requires NoPrevious(t, ec)
    ensures EndLoop(t, start, ec, 0, collapsed, original) == Fallback(start, original, collapsed)
  {
  }

  /** An end at offset 0 of a text node moves to the end of the nearest previous
      sibling of an ancestor-or-self (its text length or child count), and stops
      there when that sibling is not an element. */
  lemma EndAtTextStartToNonElement(t: Node, start: Boundary, ec: Path, collapsed: bool, original: Boundary, q: Path)
    requires ValidPath(t, start.container) && ValidPath(t, original.container)
    requires IsText(t, ec) && !(collapsed && Boundary(ec, 0) == start)
    requires NearestPrevious(t, ec, q) && !IsElement(t, q)
    ensures EndLoop(t, start, ec, 0, collapsed, original) == Boundary(q, NodeLength(At(t, q)))
  {
    AscendToPreviousFinds(t, ec, q);
  }

  /** When that previous sibling is an element, the end goes down its last-child
      spine to the end of the text node found there, and the loop repeats from it. */
  lemma EndAtTextStartIntoElement(t: Node, start: Boundary, ec: Path, collapsed: bool, original: Boundary, q: Path, x: Path)
    requires ValidPath(t, start.container) && ValidPath(t, original.container)
    requires IsText(t, ec) && !(collapsed && Boundary(ec, 0) == start)
    requires NearestPrevious(t, ec, q) && IsElement(t, q) && SelectedText(t, q, NodeLength(At(t, q)), x)
    ensures EndLoop(t, start, ec, 0, collapsed, original) == EndLoop(t, start, x, TextLength(t, x), collapsed, original)
  {
    AscendToPreviousFinds(t, ec, q);
    DescendFromOffsetComplete(t, q, NodeLength(At(t, q)), x);
  }

  /** ... and when that spine holds no text node (or the element is empty),
      the end falls back. */
  lemma EndAtTextStartElementWithoutText(t: Node, start: Boundary, ec: Path, collapsed: bool, original: Boundary, q: Path)
    requires ValidPath(t, start.container) && ValidPath(t, original.container)
    requires IsText(t, ec)
    requires NearestPrevious(t, ec, q) && IsElement(t, q)
    requires forall x :: !SelectedText(t, q, NodeLength(At(t, q)), x)
    ensures EndLoop(t, start, ec, 0, collapsed, original) == Fallback(start, original, collapsed)
  {
    AscendToPreviousFinds(t, ec, q);
    DescendFromOffsetFails(t, q, NodeLength(At(t, q)));
  }

  /** An end on an element moves down the spine below the selected child to a
      text node, and the loop repeats from there. */
  lemma EndOnElementReachesText(t: Node, start: Boundary, e: Boundary, collapsed: bool, original: Boundary, x: Path)
    requires ValidPath(t, start.container) && ValidPath(t, original.container)
    requires IsElement(t, e.container) && !(collapsed && e == start)
    requires SelectedText(t, e.container, e.offset, x)
    ensures EndLoop(t, start, e.container, e.offset, collapsed, original)
         == EndLoop(t, start, x, if e.offset >= NodeLength(At(t, e.container)) then TextLength(t, x) else 0, collapsed, original)
  {
    DescendFromOffsetComplete(t, e.container, e.offset, x);
  }

  /** An end on an element whose selected spine ends without a text node (or
      which has no children at all) falls back. */
  lemma EndOnElementWithoutText(t: Node, start: Boundary, e: Boundary, collapsed: bool, original: Boundary)
    requires ValidPath(t, start.container) && ValidPath(t, original.container)
    requires IsElement(t, e.container)
    requires forall x :: !SelectedText(t, e.container, e.offset, x)
    ensures EndLoop(t, start, e.container, e.offset, collapsed, original) == Fallback(start, original, collapsed)
  {
    DescendFromOffsetFails(t, e.container, e.offset);
  }

  /** An end that is not an element, and not at offset 0 of a text node, is
      returned as it is. */
  lemma EndSettled(t: Node, start: Boundary, e: Boundary, collapsed: bool, original: Boundary)
    requires ValidPath(t, start.container) && ValidPath(t, original.container) && ValidPath(t, e.container)
    requires !IsElement(t, e.container) && !(IsText(t, e.container) && e.offset == 0)
    ensures EndLoop(t, start, e.container, e.offset, collapsed, original) == e
  {
  }

  /** For a collapsed range the end loop stops as soon as the end equals the
      resolved start. */
  lemma EndLoopStopsAtStart(t: Node, start: Boundary, original: Boundary)
    requires ValidPath(t, start.container) && ValidPath(t, original.container)
    ensures EndLoop(t, start, start.container, start.offset, true, original) == start
  {
  }

  // ---- the whole range -------------------------------------------------------

  /** A collapsed range whose start needs no change is left entirely alone. */
  lemma CollapsedWithSettledStart(t: Node, r: Range)
    requires ValidPath(t, r.start.container) && r.collapsed && r.start == r.end
    requires ResolveStart(t, r.start) == r.start
    ensures Normalize(t, r) == Normalized(r.start, r.end, false, false)
  {
    EndLoopStopsAtStart(t, r.start, r.end);
  }

  /** A start that is neither text nor element, or inside a text node short of
      its end, and an end that is neither text nor element, or inside a text node
      past its start, cause no writes. */
  lemma NoWrites(t: Node, r: Range)
    requires ValidPath(t, r.start.container) && ValidPath(t, r.end.container)
    requires !IsElement(t, r.start.container)
    requires IsText(t, r.start.container) ==> r.start.offset != TextLength(t, r.start.container)
    requires !IsElement(t, r.end.container)
    requires IsText(t, r.end.container) ==> r.end.offset != 0
    ensures Normalize(t, r) == Normalized(r.start, r.end, false, false)
  {
  }
}
