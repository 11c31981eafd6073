/** Cursors, and the paginator that records where a page begins and ends. */
module Pagination {
  import opened Wrappers

  datatype CursorChoiceAfter<+Pos> = After(pos: Pos) | AfterInclusive(pos: Pos)
  datatype CursorChoiceBefore<+Pos> = Before(pos: Pos) | BeforeInclusive(pos: Pos)

  datatype CursorChoice<+Pos> =
    | ChooseAfter(after: CursorChoiceAfter<Pos>)
    | ChooseBefore(before: CursorChoiceBefore<Pos>)

  datatype Cursor<+Pos> = Cursor(after: Option<CursorChoiceAfter<Pos>>, before: Option<CursorChoiceBefore<Pos>>)

  /** The positions of the items that have one, in item order. */
  function Positions<Item, Pos>(items: seq<Item>, itemToPos: Item -> Option<Pos>): seq<Pos> {
    if items == [] then [] else
    Positions(items[..|items| - 1], itemToPos) +
    match itemToPos(items[|items| - 1])
    case Some(p) => [p]
    case None => []
  }

  /** The cursor pair of a page whose positioned items stand at `ps`. */
  function CursorOf<Pos>(ps: seq<Pos>): Cursor<Pos> {
    if ps == [] then Cursor(None, None) else Cursor(Some(After(ps[|ps| - 1])), Some(Before(ps[0])))
  }

  class Paginator<Item, Pos> {
    const itemToPos: Item -> Option<Pos>
    var iter: seq<Item>
    var before: Option<CursorChoiceBefore<Pos>>
    var after: Option<CursorChoiceAfter<Pos>>
    ghost var yielded: seq<Item>

    ghost predicate Valid()
      reads this
    {
      Cursor(after, before) == CursorOf(Positions(yielded, itemToPos))
    }

    constructor (iter: seq<Item>, itemToPos: Item -> Option<Pos>)
      ensures Valid() && yielded == [] && this.iter == iter && this.itemToPos == itemToPos
    {
      this.iter, this.itemToPos := iter, itemToPos;
      before, after, yielded := None, None, [];
    }

    method Next() returns (item: Option<Item>)
      requires Valid()
      modifies this
      ensures Valid()
      ensures old(iter) == [] ==> item == None && iter == [] && yielded == old(yielded)
      ensures old(iter) != [] ==>
        item == Some(old(iter[0])) && iter == old(iter)[1..] && yielded == old(yielded) + [old(iter[0])]
    {
      if iter == [] {
        return None;
      }
      var x := iter[0];
      iter := iter[1..];
      var pos := itemToPos(x);
      if pos.Some? {
        if before.None? {
          before := Some(Before(pos.value));
        }
        after := Some(After(pos.value));
      }
      yielded := yielded + [x];
      assert yielded[..|yielded| - 1] == old(yielded);
      return Some(x);
    }

    /** Drains the iterator; the cursor names the first and the last positioned item. */
    method Collect() returns (cursor: Cursor<Pos>, items: seq<Item>)
      requires Valid() && yielded == []
      modifies this
      ensures items == old(iter)
      ensures cursor == CursorOf(Positions(items, itemToPos))
    {
      items := [];
      var next := Next();
      while next.Some?
        invariant Valid()
        invariant next.Some? ==> items + [next.value] + iter == old(iter) && yielded == items + [next.value]
        invariant next.None? ==> items == old(iter) && yielded == items
        decreases |iter| + (if next.Some? then 1 else 0)
      {
        items := items + [next.value];
        next := Next();
      }
      cursor := Cursor(after, before);
    }
  }

  /** When every item has a position, the positions are the items' own. */
  lemma {:induction false} PositionsOfAll<Item, Pos>(items: seq<Item>, itemToPos: Item -> Option<Pos>)
    requires forall x :: x in items ==> itemToPos(x).Some?
    ensures |Positions(items, itemToPos)| == |items|
    ensures forall i :: 0 <= i < |items| ==> Positions(items, itemToPos)[i] == itemToPos(items[i]).value
  {
    if items != [] {
      PositionsOfAll(items[..|items| - 1], itemToPos);
    }
  }
}
