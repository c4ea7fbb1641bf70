/** The selectable text list drawn on the start screen (src/menu.rs).
    Each row is a label paired with the value that choosing it yields. */
module Menus {

  /** What `next`/`prev` do at the ends of the list. */
  datatype EndBehavior = Wrap | Clamp

  /** The policy `change_end_behavior` switches to. */
  function Toggled(b: EndBehavior): (r: EndBehavior)
    ensures r != b
  {
    match b
    case Wrap => Clamp
    case Clamp => Wrap
  }

  /** Switching the policy twice gives the original policy back. */
  lemma ToggledTwice(b: EndBehavior)
    ensures Toggled(Toggled(b)) == b
  {
  }

  /** An RGBA colour; only the drawing code reads it. */
  datatype Color = Rgba(r: int, g: int, b: int, a: int)

  const RAYWHITE := Rgba(245, 245, 245, 255)

  /** Every field of a menu at one moment, for stating which fields an update touches. */
  datatype MenuView<T> = MenuView(
    index: int,
    leftSel: string,
    rightSel: string,
    endBehavior: EndBehavior,
    items: seq<(string, T)>,
    fontSize: int,
    color: Color)

  class Menu<T> {
    var index: int
    var leftSel: string
    var rightSel: string
    var endBehavior: EndBehavior
    var items: seq<(string, T)>
    var fontSize: int
    var color: Color

    function View(): MenuView<T>
      reads this
    {
      MenuView(index, leftSel, rightSel, endBehavior, items, fontSize, color)
    }

    /** The index designates an existing row. */
    predicate InRange()
      reads this
    {
      0 <= index < |items|
    }

    /** An empty menu with the default decorations. */
    constructor New()
      ensures View() == MenuView(0, "> ", " <", Wrap, [], 40, RAYWHITE)
    {
      index := 0;
      leftSel := "> ";
      rightSel := " <";
      endBehavior := Wrap;
      items := [];
      fontSize := 40;
      color := RAYWHITE;
    }

    /** A menu over the given rows, the first one highlighted. */
    constructor From(rows: seq<(string, T)>)
      ensures View() == MenuView(0, "> ", " <", Wrap, rows, 40, RAYWHITE)
      ensures |rows| > 0 ==> InRange()
    {
      index := 0;
      leftSel := "> ";
      rightSel := " <";
      endBehavior := Wrap;
      items := rows;
      fontSize := 40;
      color := RAYWHITE;
    }

    method ChangeEndBehavior()
      modifies this
      ensures endBehavior != old(endBehavior)
      ensures View() == old(View()).(endBehavior := Toggled(old(endBehavior)))
    {
      endBehavior := Toggled(endBehavior);
    }

    method SetFontSize(size: int)
      modifies this
      ensures View() == old(View()).(fontSize := size)
    {
      fontSize := size;
    }

    method SetColor(c: Color)
      modifies this
      ensures View() == old(View()).(color := c)
    {
      color := c;
    }

    method SetSelectionIndicators(left: string, right: string)
      modifies this
      ensures View() == old(View()).(leftSel := left, rightSel := right)
    {
      leftSel := left;
      rightSel := right;
    }

    /** The saturating policy, as written: only a negative candidate changes
        the index (to 0); any other candidate keeps the current index. */
    function IndexClamp(val: int): (r: int)
      reads this
      ensures r == index || r == 0
      ensures r != index ==> val < 0
      ensures val < 0 ==> r == 0
      ensures InRange() ==> 0 <= r < |items|
    {
      if val < 0 then 0 else index
    }

    /** The cyclic policy, as written: a candidate past the last row gives 0,
        a negative one gives the last row, and an in-range candidate keeps the
        current index rather than moving to the candidate. */
    function IndexWrap(val: int): (r: int)
      reads this
      ensures r == index || r == 0 || r == |items| - 1
      ensures r != index ==> val < 0 || val >= |items|
      ensures val >= |items| ==> r == 0
      ensures 0 <= val < |items| ==> r == index
      ensures val < 0 ==> r == |items| - 1
      ensures InRange() ==> 0 <= r < |items|
    {
      var len := |items| - 1;
      if val > len then 0
      else if val < 0 then len
      else index
    }

    /** The index `next` stores. */
    function NextIndex(): (r: int)
      reads this
      ensures endBehavior == Wrap && index == |items| - 1 ==> r == 0
      ensures endBehavior == Wrap && 0 <= index < |items| - 1 ==> r == index
      ensures endBehavior == Clamp && index >= -1 ==> r == index
      ensures InRange() ==> 0 <= r < |items|
    {
      match endBehavior
      case Wrap => IndexWrap(index + 1)
      case Clamp => IndexClamp(index + 1)
    }

    /** The index `prev` stores. */
    function PrevIndex(): (r: int)
      reads this
      ensures endBehavior == Wrap && index == 0 ==> r == |items| - 1
      ensures endBehavior == Wrap && 0 < index < |items| ==> r == index
      ensures endBehavior == Clamp && index >= 0 ==> r == index
      ensures InRange() ==> 0 <= r < |items|
    {
      match endBehavior
      case Wrap => IndexWrap(index - 1)
      case Clamp => IndexClamp(index - 1)
    }

    method Next()
      modifies this
      ensures index == old(NextIndex())
      ensures View() == old(View()).(index := index)
      ensures old(InRange()) ==> InRange()
    {
      index := NextIndex();
    }

    method Prev()
      modifies this
      ensures index == old(PrevIndex())
      ensures View() == old(View()).(index := index)
      ensures old(InRange()) ==> InRange()
    {
      index := PrevIndex();
    }

    /** The value paired with the highlighted row. */
    function Select(): (v: T)
      reads this
      requires InRange()
    {
      items[index].1
    }
  }

  /** On an empty menu under Wrap, `prev` from index 0 leaves the range:
      the index becomes -1, so no row is highlighted. */
  lemma EmptyWrapPrevLeavesRange<T>(m: Menu<T>)
    requires m.items == [] && m.endBehavior == Wrap && m.index == 0
    ensures m.PrevIndex() == -1
  {
  }
}
