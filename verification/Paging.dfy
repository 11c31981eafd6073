/** Walking a listing page by page with the cursors that the paginator records. */
module Paging {
  import opened Keys
  import opened Listing
  import opened Pagination
  import opened Sorted
  import opened Wrappers

  /** What is still to be shown at a forward cursor. */
  ghost function Remaining<V(!new)>(l: Listable, db: Db<V>, order: Order, at: Option<CursorChoiceAfter<Height64>>)
    : seq<Height64>
  {
    match at
    case None => Full(l, db, order)
    case Some(c) => Filter(Full(l, db, order), Past(c, order))
  }

  ghost function Forward(at: Option<CursorChoiceAfter<Height64>>): HeightCursor {
    match at
    case None => None
    case Some(c) => Some(ChooseAfter(c))
  }

  lemma FullAscending<V(!new)>(l: Listable, db: Db<V>, order: Order)
    ensures Ascending(Less(order), Full(l, db, order))
    ensures forall h :: h in Full(l, db, order) <==> At(l, h) in db
  {
    LessIsStrict();
    SortSpec(Less(order), Stored(l, db));
  }

  /** In an ascending list the items past a cursor form a tail. */
  lemma {:induction false} PastSplits(s: seq<Height64>, c: CursorChoiceAfter<Height64>, order: Order) returns (i: nat)
    requires Ascending(Less(order), s)
    ensures i <= |s| && forall k :: 0 <= k < |s| ==> (Past(c, order)(s[k]) <==> k >= i)
  {
    i := 0;
    while i < |s| && !Past(c, order)(s[i])
      invariant i <= |s| && forall k :: 0 <= k < i ==> !Past(c, order)(s[k])
    {
      i := i + 1;
    }
    forall k | i <= k < |s| ensures Past(c, order)(s[k]) {
      if i < k {
        assert Less(order)(s[i], s[k]);
      }
    }
  }

  lemma RemainingIsTail<V(!new)>(l: Listable, db: Db<V>, order: Order, at: Option<CursorChoiceAfter<Height64>>)
    returns (i: nat)
    ensures i <= |Full(l, db, order)| && Remaining(l, db, order, at) == Full(l, db, order)[i..]
  {
    var full := Full(l, db, order);
    match at {
      case None => i := 0;
      case Some(c) =>
        FullAscending(l, db, order);
        i := PastSplits(full, c, order);
        FilterIsTail(full, Past(c, order), i);
    }
  }

  /** Past the item at position `j` of the full listing lies what follows position `j`. */
  lemma RemainingAfterItem<V(!new)>(l: Listable, db: Db<V>, order: Order, j: nat)
    requires j < |Full(l, db, order)|
    ensures Remaining(l, db, order, Some(After(Full(l, db, order)[j]))) == Full(l, db, order)[j + 1..]
  {
    var full := Full(l, db, order);
    var c := After(full[j]);
    FullAscending(l, db, order);
    forall k | 0 <= k < |full| ensures Past(c, order)(full[k]) <==> k >= j + 1 {
      if k < j { assert Less(order)(full[k], full[j]); }
      if j < k { assert Less(order)(full[j], full[k]); }
    }
    FilterIsTail(full, Past(c, order), j + 1);
  }

  lemma PageIsCut<V(!new)>(
      l: Listable, db: Db<V>, order: Order, limit: nat, at: Option<CursorChoiceAfter<Height64>>)
    ensures Page(l, db, Forward(at), order, limit) == Take(Remaining(l, db, order, at), limit)
  {
  }

  /** Following the `after` cursor of a page drops exactly that page. */
  lemma AfterPage<V(!new)>(
      l: Listable, db: Db<V>, order: Order, limit: nat, at: Option<CursorChoiceAfter<Height64>>)
    requires Page(l, db, Forward(at), order, limit) != []
    ensures
      var page := Page(l, db, Forward(at), order, limit);
      && page <= Remaining(l, db, order, at)
      && Remaining(l, db, order, CursorOf(page).after) == Remaining(l, db, order, at)[|page|..]
  {
    hide Page, Remaining, Full;
    var page := Page(l, db, Forward(at), order, limit);
    var i := RemainingIsTail(l, db, order, at);
    PageIsCut(l, db, order, limit, at);
    assert page[|page| - 1] == Full(l, db, order)[i + |page| - 1];
    RemainingAfterItem(l, db, order, i + |page| - 1);
  }

  /** The pages met by following `after` until a page comes back empty. */
  ghost function Walk<V(!new)>(
      l: Listable, db: Db<V>, order: Order, limit: nat, at: Option<CursorChoiceAfter<Height64>>)
    : seq<seq<Height64>>
    requires limit >= 1
    decreases |Remaining(l, db, order, at)|
  {
    var page := Page(l, db, Forward(at), order, limit);
    if page == [] then [] else
    AfterPage(l, db, order, limit, at);
    [page] + Walk(l, db, order, limit, CursorOf(page).after)
  }

  function Concat<T>(ss: seq<seq<T>>): seq<T> {
    if ss == [] then [] else ss[0] + Concat(ss[1..])
  }

  lemma ConcatCons<T>(s: seq<T>, ss: seq<seq<T>>)
    ensures Concat([s] + ss) == s + Concat(ss)
    ensures Concat<T>([]) == []
  {
  }

  /** The pages of a walk join up, without gap or repeat, to all that was ahead of its start. */
  lemma {:induction false} WalkShowsTheRest<V(!new)>(
      l: Listable, db: Db<V>, order: Order, limit: nat, at: Option<CursorChoiceAfter<Height64>>)
    requires limit >= 1
    ensures Concat(Walk(l, db, order, limit, at)) == Remaining(l, db, order, at)
    ensures forall page :: page in Walk(l, db, order, limit, at) ==> 0 < |page| <= limit
    decreases |Remaining(l, db, order, at)|
  {
    hide Page, Remaining, Concat;
    var page := Page(l, db, Forward(at), order, limit);
    PageIsCut(l, db, order, limit, at);
    ConcatCons(page, Walk(l, db, order, limit, CursorOf(page).after));
    if page != [] {
      AfterPage(l, db, order, limit, at);
      WalkShowsTheRest(l, db, order, limit, CursorOf(page).after);
    }
  }

  /** Walking from the start shows the whole listing: every stored height once, in order. */
  lemma WalkShowsEverything<V(!new)>(l: Listable, db: Db<V>, order: Order, limit: nat)
    requires limit >= 1
    ensures Concat(Walk(l, db, order, limit, None)) == Full(l, db, order)
  {
    WalkShowsTheRest(l, db, order, limit, None);
  }

  /** In an ascending list the items ahead of an item are those before it. */
  lemma AheadOfItem(s: seq<Height64>, order: Order, j: nat)
    requires Ascending(Less(order), s) && j < |s|
    ensures forall k :: 0 <= k < |s| ==> (Ahead(Before(s[j]), order)(s[k]) <==> k < j)
  {
    forall k | 0 <= k < |s| ensures Ahead(Before(s[j]), order)(s[k]) <==> k < j {
      if k < j { assert Less(order)(s[k], s[j]); }
      if j < k { assert Less(order)(s[j], s[k]); }
    }
  }

  /** A page's `before` cursor leads back to the items just ahead of that page. */
  lemma BeforeLeadsBack<V(!new)>(
      l: Listable, db: Db<V>, order: Order, limit: nat, j: nat, page: seq<Height64>, backLimit: nat)
    requires j + |page| <= |Full(l, db, order)| && page == Full(l, db, order)[j..j + |page|] && page != []
    ensures
      Page(l, db, Some(ChooseBefore(CursorOf(page).before.value)), order, backLimit)
      == Last(Full(l, db, order)[..j], backLimit)
  {
    var full := Full(l, db, order);
    FullAscending(l, db, order);
    AheadOfItem(full, order, j);
    FilterIsFront(full, Ahead(Before(full[j]), order), j);
    hide Full, Filter, Ahead;
    assert CursorOf(page).before == Some(Before(full[j]));
  }

  /** Paginating the stored results by height records exactly the page's cursors. */
  lemma RecordedCursor<V(!new)>(
      l: Listable, db: Db<V>, page: seq<Height64>, results: seq<(Key, V)>, itemToPos: ((Key, V)) -> Option<Height64>)
    requires Shows(l, db, page, results)
    requires forall r: (Key, V) :: itemToPos(r) == if r.0.Block? || r.0.NonEmptyBlock? then Some(r.0.height) else None
    ensures CursorOf(Positions(results, itemToPos)) == CursorOf(page)
  {
    forall r | r in results ensures itemToPos(r).Some? {
    }
    PositionsOfAll(results, itemToPos);
    assert Positions(results, itemToPos) == page;
  }

  function HeightOf<V>(item: (Key, V)): Option<Height64> {
    if item.0.Block? || item.0.NonEmptyBlock? then Some(item.0.height) else None
  }

  /** One listed page is the specified one, and so is the cursor that the paginator records. */
  lemma ListedPage<V(!new)>(
      l: Listable, db: Db<V>, order: Order, limit: nat, at: Option<CursorChoiceAfter<Height64>>)
    requires KeysEncoded(db)
    ensures ListPaginated(l, db, Forward(at), order, limit).Ok?
    ensures var page, items := Page(l, db, Forward(at), order, limit), ListPaginated(l, db, Forward(at), order, limit).value;
      && Shows(l, db, page, items)
      && CursorOf(Positions(items, HeightOf)) == CursorOf(page)
  {
    hide Page, ListPaginated;
    PaginationIsExact(l, db, Forward(at), order, limit);
    var items := ListPaginated(l, db, Forward(at), order, limit).value;
    RecordedCursor(l, db, Page(l, db, Forward(at), order, limit), items, HeightOf);
  }

  /** The walk as a client makes it: list a page, take the `after` cursor that the paginator
      recorded on its items, and list again from there. */
  ghost function ListedWalk<V(!new)>(
      l: Listable, db: Db<V>, order: Order, limit: nat, at: Option<CursorChoiceAfter<Height64>>)
    : seq<seq<(Key, V)>>
    requires limit >= 1 && KeysEncoded(db)
    decreases |Remaining(l, db, order, at)|
  {
    ListedPage(l, db, order, limit, at);
    var items := ListPaginated(l, db, Forward(at), order, limit).value;
    if items == [] then [] else
    AfterPage(l, db, order, limit, at);
    [items] + ListedWalk(l, db, order, limit, CursorOf(Positions(items, HeightOf)).after)
  }

  lemma ShowsConcat<V(!new)>(
      l: Listable, db: Db<V>, hs: seq<Height64>, items: seq<(Key, V)>, more: seq<Height64>, rest: seq<(Key, V)>)
    requires Shows(l, db, hs, items) && Shows(l, db, more, rest)
    ensures Shows(l, db, hs + more, items + rest)
  {
  }

  lemma {:induction false} ListedWalkShowsTheRest<V(!new)>(
      l: Listable, db: Db<V>, order: Order, limit: nat, at: Option<CursorChoiceAfter<Height64>>)
    requires limit >= 1 && KeysEncoded(db)
    ensures Shows(l, db, Remaining(l, db, order, at), Concat(ListedWalk(l, db, order, limit, at)))
    ensures forall page :: page in ListedWalk(l, db, order, limit, at) ==> 0 < |page| <= limit
    decreases |Remaining(l, db, order, at)|
  {
    hide Page, Remaining, Concat, ListPaginated;
    ListedPage(l, db, order, limit, at);
    PageIsCut(l, db, order, limit, at);
    var page, items := Page(l, db, Forward(at), order, limit), ListPaginated(l, db, Forward(at), order, limit).value;
    var next := CursorOf(page).after;
    ConcatCons(items, []);
    if items != [] {
      AfterPage(l, db, order, limit, at);
      ListedWalkShowsTheRest(l, db, order, limit, next);
      ConcatCons(items, ListedWalk(l, db, order, limit, next));
      ShowsConcat(l, db, page, items, Remaining(l, db, order, next), Concat(ListedWalk(l, db, order, limit, next)));
      assert page + Remaining(l, db, order, next) == Remaining(l, db, order, at);
    }
  }

  /** Listing page after page with the recorded cursors ends, and yields every stored item of
      the kind once, in the requested order. */
  lemma ListedWalkShowsEverything<V(!new)>(l: Listable, db: Db<V>, order: Order, limit: nat)
    requires limit >= 1 && KeysEncoded(db)
    ensures Shows(l, db, Full(l, db, order), Concat(ListedWalk(l, db, order, limit, None)))
  {
    ListedWalkShowsTheRest(l, db, order, limit, None);
  }
}
