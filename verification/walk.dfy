/**
 The two tree walks a range boundary is moved with: climbing to the nearest
 ancestor-or-self that has a next (or previous) sibling, and descending along
 the first-child (or last-child) spine of a subtree until a text node is met.
 Each walk is given a closed-form characterisation next to its definition.
 */
module Walk {
  import opened Tree
  import opened DocumentOrder

  /** `q` is the next sibling of the deepest ancestor-or-self of `p` that has one. */
  ghost predicate NearestNext(t: Node, p: Path, q: Path)
  {
    && 1 <= |q| <= |p|
    && NextSibling(t, p[..|q|]) == Some(q)
    && forall j :: |q| < j <= |p| ==> NextSibling(t, p[..j]).None?
  }

  /** No ancestor-or-self of `p` has a next sibling. */
  ghost predicate NoNext(t: Node, p: Path)
  {
    forall j :: 0 <= j <= |p| ==> NextSibling(t, p[..j]).None?
  }

  /** `q` is the previous sibling of the deepest ancestor-or-self of `p` that has one. */
  ghost predicate NearestPrevious(t: Node, p: Path, q: Path)
  {
    && 1 <= |q| <= |p|
    && PreviousSibling(t, p[..|q|]) == Some(q)
    && forall j :: |q| < j <= |p| ==> PreviousSibling(t, p[..j]).None?
  }

  /** No ancestor-or-self of `p` has a previous sibling. */
  ghost predicate NoPrevious(t: Node, p: Path)
  {
    forall j :: 0 <= j <= |p| ==> PreviousSibling(t, p[..j]).None?
  }

  /** `while (n && !n.nextSibling) n = n.parentNode; if (n) n = n.nextSibling`,
      with None for the `null` reached above the root. */
  function AscendToNext(t: Node, p: Path): (r: Option<Path>)
    requires ValidPath(t, p)
    ensures r.None? <==> NoNext(t, p)
    ensures r.Some? ==> NearestNext(t, p, r.value) && ValidPath(t, r.value)
    decreases |p|
  {
    if p == [] then None
    else
      match NextSibling(t, p)
      case Some(q) =>
        assert p[..|p|] == p;
        Some(q)
      case None =>
        ParentValid(t, p);
        var r := AscendToNext(t, Parent(p));
        ClimbPastNext(t, p, r);
        r
  }

  /** Climbing past a node with no next sibling: the answer for its parent is its own. */
  lemma ClimbPastNext(t: Node, p: Path, r: Option<Path>)
    requires p != [] && NextSibling(t, p).None?
    requires r.None? <==> NoNext(t, Parent(p))
    requires r.Some? ==> NearestNext(t, Parent(p), r.value)
    ensures r.None? <==> NoNext(t, p)
    ensures r.Some? ==> NearestNext(t, p, r.value)
  {
    assert p[..|p|] == p;
    forall j | 0 <= j <= |Parent(p)|
      ensures Parent(p)[..j] == p[..j]
    {
    }
    if NoNext(t, Parent(p)) {
      forall j | 0 <= j <= |p|
        ensures NextSibling(t, p[..j]).None?
      {
        if j < |p| {
          assert NextSibling(t, Parent(p)[..j]).None?;
        }
      }
    }
    if NoNext(t, p) {
      forall j | 0 <= j <= |Parent(p)|
        ensures NextSibling(t, Parent(p)[..j]).None?
      {
        assert NextSibling(t, p[..j]).None?;
      }
    }
    if r.Some? {
      var q := r.value;
      assert NextSibling(t, Parent(p)[..|q|]) == Some(q);
      forall j | |q| < j <= |p|
        ensures NextSibling(t, p[..j]).None?
      {
        if j < |p| {
          assert NextSibling(t, Parent(p)[..j]).None?;
        }
      }
    }
  }

  /** `while (n && !n.previousSibling) n = n.parentNode; if (n) n = n.previousSibling`. */
  function AscendToPrevious(t: Node, p: Path): (r: Option<Path>)
    requires ValidPath(t, p)
    ensures r.None? <==> NoPrevious(t, p)
    ensures r.Some? ==> NearestPrevious(t, p, r.value) && ValidPath(t, r.value)
    decreases |p|
  {
    if p == [] then None
    else
      match PreviousSibling(t, p)
      case Some(q) =>
        assert p[..|p|] == p;
        Some(q)
      case None =>
        ParentValid(t, p);
        var r := AscendToPrevious(t, Parent(p));
        ClimbPastPrevious(t, p, r);
        r
  }

  /** Climbing past a node with no previous sibling: the answer for its parent is its own. */
  lemma ClimbPastPrevious(t: Node, p: Path, r: Option<Path>)
    requires p != [] && PreviousSibling(t, p).None?
    requires r.None? <==> NoPrevious(t, Parent(p))
    requires r.Some? ==> NearestPrevious(t, Parent(p), r.value)
    ensures r.None? <==> NoPrevious(t, p)
    ensures r.Some? ==> NearestPrevious(t, p, r.value)
  {
    assert p[..|p|] == p;
    forall j | 0 <= j <= |Parent(p)|
      ensures Parent(p)[..j] == p[..j]
    {
    }
    if NoPrevious(t, Parent(p)) {
      forall j | 0 <= j <= |p|
        ensures PreviousSibling(t, p[..j]).None?
      {
        if j < |p| {
          assert PreviousSibling(t, Parent(p)[..j]).None?;
        }
      }
    }
    if NoPrevious(t, p) {
      forall j | 0 <= j <= |Parent(p)|
        ensures PreviousSibling(t, Parent(p)[..j]).None?
      {
        assert PreviousSibling(t, p[..j]).None?;
      }
    }
    if r.Some? {
      var q := r.value;
      assert PreviousSibling(t, Parent(p)[..|q|]) == Some(q);
      forall j | |q| < j <= |p|
        ensures PreviousSibling(t, p[..j]).None?
      {
        if j < |p| {
          assert PreviousSibling(t, Parent(p)[..j]).None?;
        }
      }
    }
  }

  /** Conversely, climbing finds the nearest next sibling whenever there is one. */
  lemma {:induction false} AscendToNextFinds(t: Node, p: Path, q: Path)
    requires ValidPath(t, p) && NearestNext(t, p, q)
    ensures AscendToNext(t, p) == Some(q)
    decreases |p|
  {
    assert p[..|p|] == p;
    if |q| < |p| {
      ParentValid(t, p);
      assert NextSibling(t, p).None?;
      NearestNextOfParent(t, p, q);
      AscendToNextFinds(t, Parent(p), q);
    }
  }

  /** Conversely, climbing finds the nearest previous sibling whenever there is one. */
  lemma {:induction false} AscendToPreviousFinds(t: Node, p: Path, q: Path)
    requires ValidPath(t, p) && NearestPrevious(t, p, q)
    ensures AscendToPrevious(t, p) == Some(q)
    decreases |p|
  {
    assert p[..|p|] == p;
    if |q| < |p| {
      ParentValid(t, p);
      assert PreviousSibling(t, p).None?;
      NearestPreviousOfParent(t, p, q);
      AscendToPreviousFinds(t, Parent(p), q);
    }
  }

  lemma NearestNextOfParent(t: Node, p: Path, q: Path)
    requires p != [] && NearestNext(t, p, q) && |q| < |p|
    ensures NearestNext(t, Parent(p), q)
  {
    assert Parent(p)[..|q|] == p[..|q|];
    forall j | |q| < j <= |Parent(p)|
      ensures NextSibling(t, Parent(p)[..j]).None?
    {
      assert Parent(p)[..j] == p[..j];
    }
  }

  lemma NearestPreviousOfParent(t: Node, p: Path, q: Path)
    requires p != [] && NearestPrevious(t, p, q) && |q| < |p|
    ensures NearestPrevious(t, Parent(p), q)
  {
    assert Parent(p)[..|q|] == p[..|q|];
    forall j | |q| < j <= |Parent(p)|
      ensures PreviousSibling(t, Parent(p)[..j]).None?
    {
      assert Parent(p)[..j] == p[..j];
    }
  }

  /** The previous sibling found by climbing, with its whole subtree, lies
      strictly before the starting node in document order. */
  lemma AscendToPreviousEarlier(t: Node, p: Path)
    requires ValidPath(t, p) && AscendToPrevious(t, p).Some?
    ensures DocEnd(t, AscendToPrevious(t, p).value) <= DocIndex(t, p)
    ensures DocIndex(t, AscendToPrevious(t, p).value) < DocIndex(t, p)
  {
    var q := AscendToPrevious(t, p).value;
    var a := p[..|q|];
    AncestorValid(t, p, |q|);
    PreviousSiblingEnds(t, a);
    DescendantWithin(t, a, p);
    SizeOfChildren(At(t, q));
  }

  /** One step down the spine: `a` is not text, and `i` is its first child
      (or, following `lastChild`, its last child). */
  ghost predicate SpineStep(t: Node, a: Path, i: nat, toLast: bool)
  {
    && ValidPath(t, a)
    && !At(t, a).Text?
    && i < |ChildNodes(At(t, a))|
    && i == (if toLast then |ChildNodes(At(t, a))| - 1 else 0)
  }

  /** `q` is reached from `p` by following only first (or only last) children
      through non-text nodes. */
  ghost predicate Spine(t: Node, p: Path, q: Path, toLast: bool)
  {
    && ValidPath(t, q)
    && AncestorOrSelf(p, q)
    && forall j :: |p| <= j < |q| ==> SpineStep(t, q[..j], q[j], toLast)
  }

  /** Every node is on its own spine. */
  lemma SpineSelf(t: Node, p: Path, toLast: bool)
    requires ValidPath(t, p)
    ensures Spine(t, p, p, toLast)
  {
    assert p[..|p|] == p;
  }

  /** `while (n && n.nodeType !== 3) n = toLast ? n.lastChild : n.firstChild`,
      with None when the walk runs off a childless node. */
  function Descend(t: Node, p: Path, toLast: bool): (r: Option<Path>)
    requires ValidPath(t, p)
    ensures r.Some? ==> Spine(t, p, r.value, toLast) && IsText(t, r.value)
    decreases Size(At(t, p))
  {
    if At(t, p).Text? then
      assert p[..|p|] == p;
      Some(p)
    else
      var next := if toLast then LastChild(t, p) else FirstChild(t, p);
      match next
      case None => None
      case Some(c) =>
        ChildSmaller(At(t, p), Last(c));
        var r := Descend(t, c, toLast);
        if r.Some? then
          var q := r.value;
          assert q[..|c|] == c;
          assert q[..|p|] == p by { assert q[..|p|] == q[..|c|][..|p|]; }
          assert q[|p|] == Last(c);
          assert SpineStep(t, q[..|p|], q[|p|], toLast);
          r
        else r
  }

  /** Conversely, the descent finds any text node at the bottom of the spine. */
  lemma {:induction false} DescendComplete(t: Node, p: Path, q: Path, toLast: bool)
    requires Spine(t, p, q, toLast) && IsText(t, q)
    ensures ValidPath(t, p) && Descend(t, p, toLast) == Some(q)
    decreases |q| - |p|
  {
    AncestorValid(t, q, |p|);
    if |p| == |q| {
      assert q == q[..|p|];
    } else {
      var c := SpineTail(t, p, q, toLast);
      DescendComplete(t, c, q, toLast);
    }
  }

  /** Below the top of a longer spine, the walk's next step is the spine's next node. */
  lemma SpineTail(t: Node, p: Path, q: Path, toLast: bool) returns (c: Path)
    requires Spine(t, p, q, toLast) && |p| < |q|
    ensures ValidPath(t, p) && !At(t, p).Text?
    ensures (if toLast then LastChild(t, p) else FirstChild(t, p)) == Some(c)
    ensures Spine(t, c, q, toLast)
  {
    AncestorValid(t, q, |p|);
    var i := q[|p|];
    assert SpineStep(t, q[..|p|], i, toLast);
    c := p + [i];
    assert q[..|c|] == c by { assert q[..|p| + 1] == q[..|p|] + [q[|p|]]; }
  }

  /** The child an element boundary selects: `childNodes[offset]`, or the last
      child when the offset is at or past the end (line 52's `>=`). */
  function ChildIndex(offset: nat, count: nat): nat
    requires count > 0
  {
    if offset >= count then count - 1 else offset
  }

  /** `q` is the text node at the bottom of the spine that the element boundary
      (p, offset) selects: first children below `childNodes[offset]`, or last
      children below the last child when the offset is past the children. */
  ghost predicate SelectedText(t: Node, p: Path, offset: nat, q: Path)
    requires IsElement(t, p)
  {
    var n := |At(t, p).children|;
    && n > 0
    && Spine(t, p + [ChildIndex(offset, n)], q, offset >= n)
    && IsText(t, q)
  }

  /** Descent from an element boundary (container `p`, offset `offset`): pick a
      child, follow the spine to a text node, and place the offset at that
      text's end when the last child was taken, at 0 otherwise. */
  function DescendFromOffset(t: Node, p: Path, offset: nat): (r: Option<Boundary>)
    requires IsElement(t, p)
    ensures r.Some? ==> SelectedText(t, p, offset, r.value.container)
    ensures r.Some? ==> r.value.offset == if offset >= |At(t, p).children| then TextLength(t, r.value.container) else 0
  {
    var count := |At(t, p).children|;
    var toLast := offset >= count;
    if count == 0 then None  // `childNodes[-1]` is undefined
    else
      var i := ChildIndex(offset, count);
      ChildAt(t, p, i);
      match Descend(t, p + [i], toLast)
      case None => None
      case Some(q) => Some(Boundary(q, if toLast then TextLength(t, q) else 0))
  }

  /** Conversely, the text node at the bottom of the selected spine is found. */
  lemma DescendFromOffsetComplete(t: Node, p: Path, offset: nat, q: Path)
    requires IsElement(t, p) && SelectedText(t, p, offset, q)
    ensures DescendFromOffset(t, p, offset)
         == Some(Boundary(q, if offset >= |At(t, p).children| then TextLength(t, q) else 0))
  {
    var n := |At(t, p).children|;
    DescendComplete(t, p + [ChildIndex(offset, n)], q, offset >= n);
  }

  /** When the selected spine ends without a text node, the descent fails. */
  lemma DescendFromOffsetFails(t: Node, p: Path, offset: nat)
    requires IsElement(t, p)
    requires forall q :: !SelectedText(t, p, offset, q)
    ensures DescendFromOffset(t, p, offset).None?
  {
  }

  /** The text node a descent reaches lies inside the subtree it started from. */
  lemma DescendFromOffsetWithin(t: Node, p: Path, offset: nat)
    requires IsElement(t, p) && DescendFromOffset(t, p, offset).Some?
    ensures DocIndex(t, p) < DocIndex(t, DescendFromOffset(t, p, offset).value.container)
    ensures DocIndex(t, DescendFromOffset(t, p, offset).value.container) < DocEnd(t, p)
  {
    var q := DescendFromOffset(t, p, offset).value.container;
    var c := p + [ChildIndex(offset, |At(t, p).children|)];
    assert AncestorOrSelf(c, q);
    assert AncestorOrSelf(p, c);
    assert AncestorOrSelf(p, q) by { assert q[..|p|] == q[..|c|][..|p|]; }
    DescendantWithin(t, c, q);
    DescendantWithin(t, p, c);
    ParentValid(t, c);
    assert Parent(c) == p;
    SizeOfChildren(At(t, q));
  }
}
