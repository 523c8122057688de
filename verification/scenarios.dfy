/**
 Concrete trees and ranges, with the normalized range each one must produce.
 Each scenario resolves its start and its end in separate steps, following
 the boundary rules of module NormalizeProperties.
 */
module Scenarios {
  import opened Tree
  import opened Walk
  import opened RangeNormalize
  import opened NormalizeProperties

  /** `<div><i>asdf </i><b>asdf</b> asdf</div>` */
  function BoldTree(): Node
  {
    Element([Element([Text("asdf ")]), Element([Text("asdf")]), Text(" asdf")])
  }

  lemma BoldTreeNodes()
    ensures ValidPath(BoldTree(), [0]) && At(BoldTree(), [0]) == Element([Text("asdf ")])
    ensures ValidPath(BoldTree(), [0, 0]) && At(BoldTree(), [0, 0]) == Text("asdf ")
    ensures ValidPath(BoldTree(), [1]) && At(BoldTree(), [1]) == Element([Text("asdf")])
    ensures ValidPath(BoldTree(), [1, 0]) && At(BoldTree(), [1, 0]) == Text("asdf")
    ensures ValidPath(BoldTree(), [2]) && At(BoldTree(), [2]) == Text(" asdf")
  {
    assert Parent([0, 0]) == [0] && Parent([1, 0]) == [1];
  }

  /** The end of "asdf " moves past `<i>` into `<b>`, to the start of "asdf". */
  lemma BoldStartPastItalic()
    ensures ResolveStart(BoldTree(), Boundary([0, 0], 5)) == Boundary([1, 0], 0)
  {
    var t := BoldTree();
    BoldTreeNodes();
    assert [0, 0][..1] == [0] && [0, 0][..2] == [0, 0];
    assert NearestNext(t, [0, 0], [1]);
    assert [1] + [ChildIndex(0, 1)] == [1, 0];
    SpineSelf(t, [1, 0], false);
    assert SelectedText(t, [1], 0, [1, 0]);
    StartAtTextEndIntoElement(t, Boundary([0, 0], 5), [1], [1, 0]);
  }

  /** The start of " asdf" moves back into `<b>`, to the end of "asdf". */
  lemma BoldEndBeforeTail(s: Boundary)
    requires ValidPath(BoldTree(), s.container)
    ensures EndLoop(BoldTree(), s, [2], 0, false, Boundary([2], 0)) == Boundary([1, 0], 4)
  {
    var t := BoldTree();
    BoldTreeNodes();
    assert [2][..1] == [2];
    assert NearestPrevious(t, [2], [1]);
    assert [1] + [ChildIndex(1, 1)] == [1, 0];
    SpineSelf(t, [1, 0], true);
    assert SelectedText(t, [1], 1, [1, 0]);
    EndAtTextStartIntoElement(t, s, [2], false, Boundary([2], 0), [1], [1, 0]);
  }

  /** A range from the end of "asdf " inside `<i>` to the start of the trailing
      " asdf" becomes the whole text inside `<b>`. */
  lemma WrappingOutsideOfBold()
    ensures Normalize(BoldTree(), Range(Boundary([0, 0], 5), Boundary([2], 0), false))
         == Normalized(Boundary([1, 0], 0), Boundary([1, 0], 4), true, true)
  {
    BoldTreeNodes();
    BoldStartPastItalic();
    BoldEndBeforeTail(Boundary([1, 0], 0));
  }

  lemma BoldStartOnBold()
    ensures ResolveStart(BoldTree(), Boundary([1], 0)) == Boundary([1, 0], 0)
  {
    var t := BoldTree();
    BoldTreeNodes();
    assert [1] + [ChildIndex(0, 1)] == [1, 0];
    SpineSelf(t, [1, 0], false);
    assert SelectedText(t, [1], 0, [1, 0]);
    StartOnElementReachesText(t, Boundary([1], 0), [1, 0]);
  }

  lemma BoldEndOnBold(s: Boundary)
    requires ValidPath(BoldTree(), s.container)
    ensures EndLoop(BoldTree(), s, [1], 1, false, Boundary([1], 1)) == Boundary([1, 0], 4)
  {
    var t := BoldTree();
    BoldTreeNodes();
    assert [1] + [ChildIndex(1, 1)] == [1, 0];
    SpineSelf(t, [1, 0], true);
    assert SelectedText(t, [1], 1, [1, 0]);
    EndOnElementReachesText(t, s, Boundary([1], 1), false, Boundary([1], 1), [1, 0]);
  }

  /** A range around the child of `<b>` becomes the whole text inside `<b>`. */
  lemma WrappingBold()
    ensures Normalize(BoldTree(), Range(Boundary([1], 0), Boundary([1], 1), false))
         == Normalized(Boundary([1, 0], 0), Boundary([1, 0], 4), true, true)
  {
    BoldTreeNodes();
    BoldStartOnBold();
    BoldEndOnBold(Boundary([1, 0], 0));
  }

  /** A range already on the text inside `<b>` is left alone, with no writes. */
  lemma TextInsideBold()
    ensures Normalize(BoldTree(), Range(Boundary([1, 0], 0), Boundary([1, 0], 4), false))
         == Normalized(Boundary([1, 0], 0), Boundary([1, 0], 4), false, false)
  {
    BoldTreeNodes();
    NoWrites(BoldTree(), Range(Boundary([1, 0], 0), Boundary([1, 0], 4), false));
  }

  /** `<div>` holding four sibling text nodes "a", "b", "c", "d". */
  function LettersTree(): Node
  {
    Element([Text("a"), Text("b"), Text("c"), Text("d")])
  }

  lemma LettersTreeNodes()
    ensures forall i :: 0 <= i < 4 ==> ValidPath(LettersTree(), [i]) && At(LettersTree(), [i]).Text?
    ensures forall i :: 0 <= i < 4 ==> |At(LettersTree(), [i]).data| == 1
  {
    forall i | 0 <= i < 4
      ensures ValidPath(LettersTree(), [i]) && At(LettersTree(), [i]).Text? && |At(LettersTree(), [i]).data| == 1
    {
      assert Parent([i]) == [];
    }
  }

  /** (a, 1)..(d, 0) becomes (b, 0)..(c, 1). */
  lemma SiblingTexts()
    ensures Normalize(LettersTree(), Range(Boundary([0], 1), Boundary([3], 0), false))
         == Normalized(Boundary([1], 0), Boundary([2], 1), true, true)
  {
    var t := LettersTree();
    LettersTreeNodes();
    assert [0][..1] == [0] && [3][..1] == [3];
    assert NearestNext(t, [0], [1]);
    StartAtTextEndToNonElement(t, Boundary([0], 1), [1]);
    assert NearestPrevious(t, [3], [2]);
    EndAtTextStartToNonElement(t, Boundary([1], 0), [3], false, Boundary([3], 0), [2]);
  }

  /** `<div><i>blah</i><br><b>hello</b></div>`, the `<br>` an empty element. */
  function BreakTree(): Node
  {
    Element([Element([Text("blah")]), Element([]), Element([Text("hello")])])
  }

  lemma BreakTreeNodes()
    ensures ValidPath(BreakTree(), [0]) && At(BreakTree(), [0]) == Element([Text("blah")])
    ensures ValidPath(BreakTree(), [0, 0]) && At(BreakTree(), [0, 0]) == Text("blah")
    ensures ValidPath(BreakTree(), [1]) && At(BreakTree(), [1]) == Element([])
    ensures ValidPath(BreakTree(), [2]) && At(BreakTree(), [2]) == Element([Text("hello")])
    ensures ValidPath(BreakTree(), [2, 0]) && At(BreakTree(), [2, 0]) == Text("hello")
  {
    assert Parent([0, 0]) == [0] && Parent([2, 0]) == [2];
  }

  /** The empty `<br>` selects no text node, whatever the offset. */
  lemma BreakHasNoText(offset: nat)
    ensures IsElement(BreakTree(), [1]) && forall x :: !SelectedText(BreakTree(), [1], offset, x)
  {
    BreakTreeNodes();
  }

  /** The end of "blah" moves past `<i>` onto the empty `<br>`, finds no text, and stays. */
  lemma BreakStartBeforeBreak()
    ensures ResolveStart(BreakTree(), Boundary([0, 0], 4)) == Boundary([0, 0], 4)
  {
    var t := BreakTree();
    BreakTreeNodes();
    assert [0, 0][..1] == [0] && [0, 0][..2] == [0, 0];
    assert NextSibling(t, [0]) == Some([1]) && NextSibling(t, [0, 0]).None?;
    assert NearestNext(t, [0, 0], [1]);
    BreakHasNoText(0);
    StartAtTextEndElementWithoutText(t, Boundary([0, 0], 4), [1]);
  }

  /** The start of "hello" moves back onto the empty `<br>`, finds no text, and falls back. */
  lemma BreakEndAfterBreak(s: Boundary)
    requires ValidPath(BreakTree(), s.container)
    ensures EndLoop(BreakTree(), s, [2, 0], 0, false, Boundary([2, 0], 0)) == Boundary([2, 0], 0)
  {
    var t := BreakTree();
    BreakTreeNodes();
    assert [2, 0][..1] == [2] && [2, 0][..2] == [2, 0];
    assert NearestPrevious(t, [2, 0], [1]);
    BreakHasNoText(NodeLength(At(t, [1])));
    EndAtTextStartElementWithoutText(t, s, [2, 0], false, Boundary([2, 0], 0), [1]);
  }

  /** Both boundaries meet the empty `<br>`, find no text in it, and fall back:
      the range is left as it was, with no writes. */
  lemma EmptyElementBetween()
    ensures Normalize(BreakTree(), Range(Boundary([0, 0], 4), Boundary([2, 0], 0), false))
         == Normalized(Boundary([0, 0], 4), Boundary([2, 0], 0), false, false)
  {
    BreakTreeNodes();
    BreakStartBeforeBreak();
    BreakEndAfterBreak(Boundary([0, 0], 4));
  }

  /** `<div><b>x</b>y</div>` */
  function RepeatTree(): Node
  {
    Element([Element([Text("x")]), Text("y")])
  }

  /** Normalizing twice can move a boundary again: a start on `<b>` past its
      only child first lands at the end of "x", and a second pass moves it on
      to the start of "y". */
  lemma NotIdempotent()
    ensures ResolveStart(RepeatTree(), Boundary([0], 1)) == Boundary([0, 0], 1)
    ensures ResolveStart(RepeatTree(), Boundary([0, 0], 1)) == Boundary([1], 0)
  {
    var t := RepeatTree();
    assert Parent([0, 0]) == [0];
    assert ValidPath(t, [0]) && At(t, [0]) == Element([Text("x")]);
    assert ValidPath(t, [0, 0]) && At(t, [0, 0]) == Text("x");
    assert ValidPath(t, [1]) && At(t, [1]) == Text("y");
    assert [0] + [ChildIndex(1, 1)] == [0, 0];
    SpineSelf(t, [0, 0], true);
    assert SelectedText(t, [0], 1, [0, 0]);
    StartOnElementReachesText(t, Boundary([0], 1), [0, 0]);
    assert [0, 0][..1] == [0] && [0, 0][..2] == [0, 0];
    assert NearestNext(t, [0, 0], [1]);
    StartAtTextEndToNonElement(t, Boundary([0, 0], 1), [1]);
  }

  /** `<div>` holding two sibling text nodes "a" and "b". */
  function PairTree(): Node
  {
    Element([Text("a"), Text("b")])
  }

  /** A collapsed range at the end of "a": the start moves on to the start of
      "b", while the end, which is neither the resolved start nor at a text's
      start, stays where it was. With the setters as field updates, the result
      holds two different boundaries and only `setStart` is called. */
  lemma CollapsedSplits()
    ensures Normalize(PairTree(), Range(Boundary([0], 1), Boundary([0], 1), true))
         == Normalized(Boundary([1], 0), Boundary([0], 1), true, false)
  {
    var t := PairTree();
    assert Parent([0]) == [] && Parent([1]) == [];
    assert ValidPath(t, [0]) && At(t, [0]) == Text("a");
    assert ValidPath(t, [1]) && At(t, [1]) == Text("b");
    assert [0][..1] == [0];
    assert NearestNext(t, [0], [1]);
    StartAtTextEndToNonElement(t, Boundary([0], 1), [1]);
    EndSettled(t, Boundary([1], 0), Boundary([0], 1), true, Boundary([0], 1));
  }
}
