/**
 Document (pre-)order on the nodes of a tree. `DocIndex(t, p)` is the number
 of nodes that precede `p` in document order, and the subtree of `p` occupies
 exactly the indices `DocIndex(t, p) .. DocEnd(t, p) - 1`.
 */
module DocumentOrder {
  import opened Tree

  /** The number of nodes in the subtree rooted at `n`. */
  function Size(n: Node): nat
    decreases n
  {
    match n
    case Text(_) => 1
    case Element(cs) => 1 + SizeOf(cs)
    case Other(cs) => 1 + SizeOf(cs)
  }

  /** The number of nodes in a forest of sibling subtrees. */
  function SizeOf(ns: seq<Node>): nat
    decreases ns
  {
    if ns == [] then 0 else SizeOf(ns[..|ns| - 1]) + Size(ns[|ns| - 1])
  }

  /** Position of the node at `p` in document order (the root is 0). */
  function DocIndex(t: Node, p: Path): nat
    requires ValidPath(t, p)
    decreases |p|
  {
    if p == [] then 0
    else
      ParentValid(t, p);
      DocIndex(t, Parent(p)) + 1 + SizeOf(ChildNodes(At(t, Parent(p)))[..Last(p)])
  }

  /** The first document-order position after the subtree of `p`. */
  function DocEnd(t: Node, p: Path): nat
    requires ValidPath(t, p)
  {
    DocIndex(t, p) + Size(At(t, p))
  }

  lemma SizeOfChildren(n: Node)
    ensures Size(n) == 1 + SizeOf(ChildNodes(n))
  {
  }

  lemma SizeOfSnoc(ns: seq<Node>, i: nat)
    requires i < |ns|
    ensures SizeOf(ns[..i + 1]) == SizeOf(ns[..i]) + Size(ns[i])
  {
    assert ns[..i + 1][..i] == ns[..i];
  }

  lemma {:induction false} SizeOfPrefix(ns: seq<Node>, i: nat)
    requires i <= |ns|
    ensures SizeOf(ns[..i]) <= SizeOf(ns)
    decreases |ns|
  {
    if i < |ns| {
      SizeOfPrefix(ns[..|ns| - 1], i);
      assert ns[..|ns| - 1][..i] == ns[..i];
    } else {
      assert ns[..i] == ns;
    }
  }

  /** A child's subtree is strictly smaller than its parent's. */
  lemma ChildSmaller(n: Node, i: nat)
    requires i < |ChildNodes(n)|
    ensures Size(ChildNodes(n)[i]) < Size(n)
  {
    SizeOfSnoc(ChildNodes(n), i);
    SizeOfPrefix(ChildNodes(n), i + 1);
    SizeOfChildren(n);
  }

  /** A descendant sits inside the document-order interval of its ancestor. */
  lemma {:induction false} DescendantWithin(t: Node, a: Path, p: Path)
    requires ValidPath(t, p) && AncestorOrSelf(a, p)
    ensures ValidPath(t, a)
    ensures DocIndex(t, a) <= DocIndex(t, p)
    ensures DocEnd(t, p) <= DocEnd(t, a)
    decreases |p|
  {
    if |a| == |p| {
      assert a == p;
    } else {
      ParentValid(t, p);
      assert Parent(p)[..|a|] == a;
      DescendantWithin(t, a, Parent(p));
      var cs := ChildNodes(At(t, Parent(p)));
      SizeOfSnoc(cs, Last(p));
      SizeOfPrefix(cs, Last(p) + 1);
      SizeOfChildren(At(t, Parent(p)));
    }
  }

  /** The subtree of a previous sibling ends exactly where the node begins. */
  lemma PreviousSiblingEnds(t: Node, p: Path)
    requires PreviousSibling(t, p).Some?
    ensures DocEnd(t, PreviousSibling(t, p).value) == DocIndex(t, p)
  {
    var q := PreviousSibling(t, p).value;
    ParentValid(t, p);
    assert Parent(q) == Parent(p);
    SizeOfSnoc(ChildNodes(At(t, Parent(p))), Last(q));
  }

  /** Every node of the tree has a position below the tree's size. */
  lemma DocIndexBelowSize(t: Node, p: Path)
    requires ValidPath(t, p)
    ensures DocIndex(t, p) < Size(t)
  {
    DescendantWithin(t, [], p);
  }
}
