/**
 The document tree the range normalizer walks: an immutable ordered tree of
 text, element and other nodes, in which a node's identity is the path of
 child indices that leads to it from the root. DOM navigation (`parentNode`,
 `nextSibling`, `previousSibling`, `firstChild`, `lastChild`) becomes
 arithmetic on paths, and `===` between nodes becomes path equality.
 */
module Tree {

  datatype Option<T> = None | Some(value: T)

  /** Text is nodeType 3, Element is nodeType 1; Other stands for every other
      kind (comments, documents, fragments, ...), which may still have children. */
  datatype Node =
    | Text(data: string)
    | Element(children: seq<Node>)
    | Other(children: seq<Node>)

  /** A node, named by the child indices from the root down to it. */
  type Path = seq<nat>

  /** A boundary point of a range: a container node and an offset into it. */
  datatype Boundary = Boundary(container: Path, offset: nat)

  function ChildNodes(n: Node): seq<Node>
  {
    if n.Text? then [] else n.children
  }

  /** `nodeValue.length` for text, `childNodes.length` for everything else. */
  function NodeLength(n: Node): nat
  {
    if n.Text? then |n.data| else |n.children|
  }

  function Parent(p: Path): Path
    requires p != []
  {
    p[..|p| - 1]
  }

  function Last(p: Path): nat
    requires p != []
  {
    p[|p| - 1]
  }

  /** The node a path names, or None when the path leaves the tree. */
  function Lookup(t: Node, p: Path): Option<Node>
    decreases |p|
  {
    if p == [] then Some(t)
    else
      match Lookup(t, Parent(p))
      case None => None
      case Some(n) => if Last(p) < |ChildNodes(n)| then Some(ChildNodes(n)[Last(p)]) else None
  }

  predicate ValidPath(t: Node, p: Path)
  {
    Lookup(t, p).Some?
  }

  function At(t: Node, p: Path): Node
    requires ValidPath(t, p)
  {
    Lookup(t, p).value
  }

  predicate IsText(t: Node, p: Path)
  {
    ValidPath(t, p) && At(t, p).Text?
  }

  predicate IsElement(t: Node, p: Path)
  {
    ValidPath(t, p) && At(t, p).Element?
  }

  /** The length of the text node at `p` (zero for any other node). */
  function TextLength(t: Node, p: Path): nat
  {
    if IsText(t, p) then |At(t, p).data| else 0
  }

  /** A boundary the DOM would accept: text offsets within the characters,
      element offsets within the gaps between children. */
  predicate ValidBoundary(t: Node, b: Boundary)
  {
    && ValidPath(t, b.container)
    && (IsText(t, b.container) || IsElement(t, b.container) ==> b.offset <= NodeLength(At(t, b.container)))
  }

  /** `a` is `p` itself or one of its ancestors. */
  predicate AncestorOrSelf(a: Path, p: Path)
  {
    |a| <= |p| && p[..|a|] == a
  }

  /** `n.nextSibling`; None plays the part of `null`. */
  function NextSibling(t: Node, p: Path): (r: Option<Path>)
    ensures r.Some? ==> ValidPath(t, r.value) && p != [] && r.value == Parent(p) + [Last(p) + 1]
  {
    if p == [] then None
    else
      match Lookup(t, Parent(p))
      case None => None
      case Some(par) =>
        if Last(p) + 1 < |ChildNodes(par)| then
          assert Parent(Parent(p) + [Last(p) + 1]) == Parent(p);
          Some(Parent(p) + [Last(p) + 1])
        else None
  }

  /** `n.previousSibling`. */
  function PreviousSibling(t: Node, p: Path): (r: Option<Path>)
    ensures r.Some? ==> ValidPath(t, r.value) && p != [] && Last(p) > 0 && r.value == Parent(p) + [Last(p) - 1]
  {
    if p == [] || !ValidPath(t, p) then None
    else if Last(p) > 0 then
      assert Parent(Parent(p) + [Last(p) - 1]) == Parent(p);
      Some(Parent(p) + [Last(p) - 1])
    else None
  }

  /** `n.firstChild`. */
  function FirstChild(t: Node, p: Path): (r: Option<Path>)
    ensures r.None? <==> !ValidPath(t, p) || ChildNodes(At(t, p)) == []
    ensures r.Some? ==> ValidPath(t, r.value) && r.value == p + [0] && At(t, r.value) == ChildNodes(At(t, p))[0]
  {
    if ValidPath(t, p) && ChildNodes(At(t, p)) != [] then
      ChildAt(t, p, 0);
      Some(p + [0])
    else None
  }

  /** `n.lastChild`. */
  function LastChild(t: Node, p: Path): (r: Option<Path>)
    ensures r.None? <==> !ValidPath(t, p) || ChildNodes(At(t, p)) == []
    ensures r.Some? ==> ValidPath(t, r.value) && r.value == p + [|ChildNodes(At(t, p))| - 1]
    ensures r.Some? ==> At(t, r.value) == ChildNodes(At(t, p))[|ChildNodes(At(t, p))| - 1]
  {
    if ValidPath(t, p) && ChildNodes(At(t, p)) != [] then
      ChildAt(t, p, |ChildNodes(At(t, p))| - 1);
      Some(p + [|ChildNodes(At(t, p))| - 1])
    else None
  }

  lemma ChildAt(t: Node, p: Path, i: nat)
    requires ValidPath(t, p) && i < |ChildNodes(At(t, p))|
    ensures ValidPath(t, p + [i]) && At(t, p + [i]) == ChildNodes(At(t, p))[i]
  {
    assert Parent(p + [i]) == p;
  }

  lemma ParentValid(t: Node, p: Path)
    requires ValidPath(t, p) && p != []
    ensures ValidPath(t, Parent(p))
    ensures Last(p) < |ChildNodes(At(t, Parent(p)))|
    ensures At(t, p) == ChildNodes(At(t, Parent(p)))[Last(p)]
  {
  }

  /** Every ancestor of a node in the tree is in the tree. */
  lemma {:induction false} AncestorValid(t: Node, p: Path, k: nat)
    requires ValidPath(t, p) && k <= |p|
    ensures ValidPath(t, p[..k])
    decreases |p|
  {
    if k == |p| {
      assert p[..k] == p;
    } else {
      ParentValid(t, p);
      AncestorValid(t, Parent(p), k);
      assert Parent(p)[..k] == p[..k];
    }
  }
}
