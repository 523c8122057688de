/**
 Range normalization: the start boundary is resolved in a single pass, the
 end boundary by a loop, and each is written back to the host range only
 when it differs from what the range held.
 */
module RangeNormalize {
  import opened Tree
  import opened DocumentOrder
  import opened Walk

  /** The host range as the normalizer reads it: both boundaries and the
      `collapsed` flag the host computed before the call. */
  datatype Range = Range(start: Boundary, end: Boundary, collapsed: bool)

  /** The boundaries after write-back, and whether `setStart` / `setEnd` was called. */
  datatype Normalized = Normalized(start: Boundary, end: Boundary, setStartCalled: bool, setEndCalled: bool)

  /** State of the end loop after one pass of its body: carry on from a new
      end boundary, or stop with the final one. */
  datatype Step = Continue(container: Path, offset: nat) | Done(end: Boundary)

  /** A boundary at offset `NodeLength` of a node that is not an element: the
      end of a text node's data, or the child count of any other node (for a
      comment-like node with no children that is offset 0). */
  ghost predicate AtEndOf(t: Node, b: Boundary)
  {
    ValidPath(t, b.container) && !At(t, b.container).Element? && b.offset == NodeLength(At(t, b.container))
  }

  /** The start boundary. A start at the end of a text node is moved to offset 0
      of the next sibling of its nearest ancestor-or-self that has one; a start on
      an element is moved down the first-child spine below `childNodes[offset]`
      (or the last-child spine below the last child when the offset is past the
      children) to a text node. When the element descent reaches no text node,
      the start is left as it was given. */
  function ResolveStart(t: Node, s: Boundary): (r: Boundary)
    requires ValidPath(t, s.container)
    ensures ValidPath(t, r.container)
    ensures ValidBoundary(t, s) ==> ValidBoundary(t, r)
    ensures IsElement(t, r.container) ==> r == s
    ensures r != s ==> r.offset == 0 || (IsText(t, r.container) && r.offset == TextLength(t, r.container))
  {
    var sc :=
      if IsText(t, s.container) && s.offset == TextLength(t, s.container) then
        match AscendToNext(t, s.container)
        case Some(q) => Boundary(q, 0)
        case None => s
      else s;
    if IsElement(t, sc.container) then
      match DescendFromOffset(t, sc.container, sc.offset)
      case Some(b) => b
      case None => s
    else sc
  }

  /** Where the end goes when it cannot be moved: onto the resolved start for a
      collapsed range, back to the original end otherwise. */
  function Fallback(start: Boundary, original: Boundary, collapsed: bool): Boundary
  {
    if collapsed then start else original
  }

  /** One pass of the end loop's body, from end boundary (ec, eo). A collapsed
      range stops on reaching the resolved start. An end at offset 0 of a text
      node moves to the end of the previous sibling of its nearest
      ancestor-or-self that has one; an end on an element moves down to a text
      node as the start does, and the loop goes round again. */
  function EndIteration(t: Node, start: Boundary, ec: Path, eo: nat, collapsed: bool, original: Boundary): (r: Step)
    requires ValidPath(t, ec)
    ensures r.Continue? ==> IsText(t, r.container)
    ensures r.Continue? ==> r.offset == 0 || r.offset == TextLength(t, r.container)
    ensures r.Continue? && IsText(t, ec) ==> DocIndex(t, r.container) < DocIndex(t, ec)
    ensures r.Done? ==>
              || r.end == Fallback(start, original, collapsed)
              || AtEndOf(t, r.end)
              || (r.end == Boundary(ec, eo) && !IsElement(t, ec) && !(IsText(t, ec) && eo == 0))
  {
    if collapsed && Boundary(ec, eo) == start then Done(start)
    else
      var moved :=
        if IsText(t, ec) && eo == 0 then
          match AscendToPrevious(t, ec)
          case None => None
          case Some(q) => Some(Boundary(q, NodeLength(At(t, q))))
        else Some(Boundary(ec, eo));
      match moved
      case None => Done(Fallback(start, original, collapsed))
      case Some(b) =>
        if IsElement(t, b.container) then
          match DescendFromOffset(t, b.container, b.offset)
          case None => Done(Fallback(start, original, collapsed))
          case Some(d) =>
            DescendFromOffsetWithin(t, b.container, b.offset);
            if IsText(t, ec) then
              AscendToPreviousEarlier(t, ec);
              Continue(d.container, d.offset)
            else Continue(d.container, d.offset)
        else Done(b)
  }

  /** The end loop. It terminates: after the first pass the end is always on a
      text node, and every further pass moves it strictly earlier in document
      order. */
  function EndLoop(t: Node, start: Boundary, ec: Path, eo: nat, collapsed: bool, original: Boundary): (r: Boundary)
    requires ValidPath(t, ec) && ValidPath(t, start.container) && ValidPath(t, original.container)
    ensures ValidPath(t, r.container)
    ensures ValidBoundary(t, Boundary(ec, eo)) && ValidBoundary(t, start) && ValidBoundary(t, original) ==> ValidBoundary(t, r)
    ensures || r == Fallback(start, original, collapsed)
            || AtEndOf(t, r)
            || (r == Boundary(ec, eo) && !IsElement(t, ec) && !(IsText(t, ec) && eo == 0))
    decreases if IsText(t, ec) then DocIndex(t, ec) else Size(t)
  {
    match EndIteration(t, start, ec, eo, collapsed, original)
    case Done(b) => b
    case Continue(q, o) =>
      DocIndexBelowSize(t, q);
      EndLoop(t, start, q, o, collapsed, original)
  }

  /** The whole normalization: resolve the start, run the end loop from the
      range's end, and call each setter only when its boundary changed. */
  function Normalize(t: Node, r: Range): (n: Normalized)
    requires ValidPath(t, r.start.container) && ValidPath(t, r.end.container)
    ensures n.setStartCalled <==> n.start != r.start
    ensures n.setEndCalled <==> n.end != r.end
    ensures ValidBoundary(t, r.start) && ValidBoundary(t, r.end) ==> ValidBoundary(t, n.start) && ValidBoundary(t, n.end)
    ensures IsElement(t, n.start.container) ==> n.start == r.start
    ensures IsElement(t, n.end.container) ==> n.end == r.end || (r.collapsed && n.end == n.start)
    ensures n.start != r.start ==> n.start.offset == 0 || n.start.offset == TextLength(t, n.start.container)
    ensures n.end != r.end && IsText(t, n.end.container) ==>
              n.end.offset == TextLength(t, n.end.container) || (r.collapsed && n.end == n.start)
  {
    var s := ResolveStart(t, r.start);
    var e := EndLoop(t, s, r.end.container, r.end.offset, r.collapsed, r.end);
    var startChanged := s != r.start;
    var endChanged := e != r.end;
    Normalized(if startChanged then s else r.start, if endChanged then e else r.end, startChanged, endChanged)
  }
}
