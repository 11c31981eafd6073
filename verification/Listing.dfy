/** Range listing and cursor pagination over the ordered key-value store. */
module Listing {
  import opened Bytes
  import opened Keys
  import opened Pagination
  import opened Sorted
  import opened Wrappers

  datatype Order = LowestToHighest | HighestToLowest

  function ReverseOrder(o: Order): Order {
    if o.LowestToHighest? then HighestToLowest else LowestToHighest
  }

  /** `a` is listed before `b`. */
  predicate Precedes(o: Order, a: Height64, b: Height64) {
    if o.LowestToHighest? then a < b else b < a
  }

  ghost function Less(o: Order): (Height64, Height64) -> bool {
    (a: Height64, b: Height64) => Precedes(o, a, b)
  }

  lemma LessIsStrict()
    ensures forall o :: StrictOrder(Less(o))
  {
  }

  datatype Bound = Included(h: Height64) | Excluded(h: Height64) | Unbounded

  predicate InRange(h: Height64, start: Bound, end: Bound) {
    && (match start case Included(x) => x <= h case Excluded(x) => x < h case Unbounded => true)
    && (match end case Included(x) => h <= x case Excluded(x) => h < x case Unbounded => true)
  }

  type Db<V> = map<ByteString, V>

  /** Every stored key is the encoding of a key, which is so for everything the store writes. */
  ghost predicate KeysEncoded<V(!new)>(db: Db<V>) {
    forall b :: b in db ==> exists k :: b == Serialize(k)
  }

  datatype List<V> = List(
    db: Db<V>, startKey: Key, endKey: Key, lowerExclusive: bool, upperInclusive: bool, startToEnd: bool)

  function MakeList<V(!new)>(l: Listable, db: Db<V>, start: Bound, end: Bound, order: Order): List<V> {
    List(
      db,
      if start.Unbounded? then ToKey(l, 0) else ToKey(l, start.h),
      if end.Unbounded? then ToKey(l, MAX_HEIGHT) else ToKey(l, end.h),
      start.Excluded?,
      !end.Excluded?,
      order.LowestToHighest?)
  }

  ghost function ByteOrder(): (ByteString, ByteString) -> bool {
    (a: ByteString, b: ByteString) => LexLess(a, b)
  }

  lemma ByteOrderIsStrict()
    ensures StrictOrder(ByteOrder())
  {
    var r := ByteOrder();
    forall a, b ensures r(a, b) ==> !r(b, a) { LexTotal(a, b); }
    forall a, b | a != b ensures r(a, b) || r(b, a) { LexTotal(a, b); }
    forall a, b, c | r(a, b) && r(b, c) ensures r(a, c) { LexTransitive(a, b, c); }
  }

  /** The keys that a RocksDB iterator with these bounds visits. */
  ghost function Visited<V(!new)>(list: List<V>): set<ByteString> {
    var lower := if list.lowerExclusive then SerializeImmediateSuccessor(list.startKey) else Serialize(list.startKey);
    var upper := if list.upperInclusive then SerializeImmediateSuccessor(list.endKey) else Serialize(list.endKey);
    set b | b in list.db && !LexLess(b, lower) && LexLess(b, upper)
  }

  type Item<V> = (Decoded, V)

  /** The visited keys in the direction of iteration. */
  ghost function Walked<V(!new)>(list: List<V>): seq<ByteString> {
    var keys := Sort(ByteOrder(), Visited(list));
    if list.startToEnd then keys else Reverse(keys)
  }

  lemma WalkedAreVisited<V(!new)>(list: List<V>)
    ensures forall b :: b in Walked(list) <==> b in Visited(list)
  {
    ByteOrderIsStrict();
    SortSpec(ByteOrder(), Visited(list));
  }

  ghost function IntoIterator<V(!new)>(list: List<V>): seq<Item<V>> {
    WalkedAreVisited(list);
    var keys := Walked(list);
    seq(|keys|, i requires 0 <= i < |keys| => (
      assert keys[i] in keys;
      (Deserialize(keys[i]), list.db[keys[i]])))
  }

  predicate LeastKey(m: ByteString, s: set<ByteString>) {
    m in s && forall b :: b in s ==> b == m || LexLess(m, b)
  }

  lemma LeastIsUnique(s: set<ByteString>, m: ByteString)
    requires LeastKey(m, s)
    ensures Sort(ByteOrder(), s) == [m] + Sort(ByteOrder(), s - {m})
  {
    ByteOrderIsStrict();
    assert IsLeast(ByteOrder(), m, s);
    var least := Least(ByteOrder(), s);
    assert least in s && m in s;
  }

  lemma LeastKeyExists(s: set<ByteString>)
    ensures s != {} ==> exists m :: m in s && LeastKey(m, s)
    ensures s == {} ==> Sort(ByteOrder(), s) == []
  {
    ByteOrderIsStrict();
    SortSpec(ByteOrder(), s);
    if s != {} {
      var m := LeastExists(ByteOrder(), s);
      assert LeastKey(m, s);
    }
  }

  /** Ordered iteration: repeatedly the least key not yet visited. */
  method SortKeys(all: set<ByteString>) returns (keys: seq<ByteString>)
    ensures keys == Sort(ByteOrder(), all)
  {
    hide LexLess;
    keys := [];
    var rest := all;
    while rest != {}
      invariant keys + Sort(ByteOrder(), rest) == Sort(ByteOrder(), all)
      decreases rest
    {
      LeastKeyExists(rest);
      var least :| least in rest && LeastKey(least, rest);
      LeastIsUnique(rest, least);
      rest, keys := rest - {least}, keys + [least];
    }
    LeastKeyExists(rest);
  }

  method Iterate<V(!new)>(list: List<V>) returns (items: seq<Item<V>>)
    ensures items == IntoIterator(list)
  {
    var lower := if list.lowerExclusive then SerializeImmediateSuccessor(list.startKey) else Serialize(list.startKey);
    var upper := if list.upperInclusive then SerializeImmediateSuccessor(list.endKey) else Serialize(list.endKey);
    var keys := SortKeys(set b | b in list.db && !LexLess(b, lower) && LexLess(b, upper));
    var ordered := if list.startToEnd then keys else Reverse(keys);
    WalkedAreVisited(list);
    assert ordered == Walked(list);
    items := seq(|ordered|, i requires 0 <= i < |ordered| => (
      assert ordered[i] in ordered;
      (Deserialize(ordered[i]), list.db[ordered[i]])));
  }

  /** The stored heights of one kind. */
  ghost function Stored<V(!new)>(l: Listable, db: Db<V>): set<Height64> {
    set h: Height64 | 0 <= h < 0x1_0000_0000_0000_0000 && At(l, h) in db
  }

  ghost function StoredInRange<V(!new)>(l: Listable, db: Db<V>, start: Bound, end: Bound): set<Height64> {
    set h | h in Stored(l, db) && InRange(h, start, end)
  }

  /** What a listing means: the stored heights in range, sorted as requested. */
  ghost function Heights<V(!new)>(l: Listable, db: Db<V>, start: Bound, end: Bound, order: Order): seq<Height64> {
    Sort(Less(order), StoredInRange(l, db, start, end))
  }

  /** The items that present stored heights `hs`. */
  ghost predicate Presents<V(!new)>(l: Listable, db: Db<V>, hs: seq<Height64>, items: seq<Item<V>>) {
    && |items| == |hs|
    && forall i :: 0 <= i < |hs| ==>
         At(l, hs[i]) in db && items[i] == (Decoded(ToKey(l, hs[i])), db[At(l, hs[i])])
  }

  /** The successor trick turns the half-open byte range into any of the four interval forms. */
  lemma VisitedByBounds<V(!new)>(list: List<V>, s: ByteString)
    ensures s in Visited(list) <==>
      && s in list.db
      && (LexLess(Serialize(list.startKey), s) || (!list.lowerExclusive && s == Serialize(list.startKey)))
      && (LexLess(s, Serialize(list.endKey)) || (list.upperInclusive && s == Serialize(list.endKey)))
  {
    var lo, hi := Serialize(list.startKey), Serialize(list.endKey);
    ZeroByteIsImmediateSuccessor(lo, s);
    ZeroByteIsImmediateSuccessor(hi, s);
    LexTotal(s, lo);
  }

  lemma OutsideRange(l: Listable, a: Height64, k: Key, b: Height64)
    requires LexLess(Serialize(k), At(l, a)) || LexLess(At(l, b), Serialize(k))
    ensures (k.Block? || k.NonEmptyBlock?) && k == ToKey(l, k.height) ==> k.height < a || b < k.height
  {
    if (k.Block? || k.NonEmptyBlock?) && k == ToKey(l, k.height) {
      HeightOrder(l, k.height, a);
      HeightOrder(l, b, k.height);
    }
  }

  /** The byte bounds admit exactly the keys of this kind whose height is in range. */
  lemma VisitedExact<V(!new)>(l: Listable, db: Db<V>, start: Bound, end: Bound, order: Order, k: Key)
    requires Serialize(k) in db
    ensures Serialize(k) in Visited(MakeList(l, db, start, end, order)) <==>
      (k.Block? || k.NonEmptyBlock?) && k == ToKey(l, k.height) && InRange(k.height, start, end)
  {
    var list := MakeList(l, db, start, end, order);
    var a := if start.Unbounded? then 0 else start.h;
    var b := if end.Unbounded? then MAX_HEIGHT else end.h;
    VisitedByBounds(list, Serialize(k));
    assert list.startKey == ToKey(l, a) && list.endKey == ToKey(l, b);
    LexTotal(Serialize(k), At(l, a));
    LexTotal(Serialize(k), At(l, b));
    if LexLess(Serialize(k), At(l, a)) || LexLess(At(l, b), Serialize(k)) {
      OutsideRange(l, a, k, b);
    } else {
      KeysOfAKindAreContiguous(l, a, k, b);
      HeightOrder(l, a, k.height);
      HeightOrder(l, k.height, b);
    }
  }

  function Encoded(l: Listable, hs: seq<Height64>): (r: seq<ByteString>)
    ensures |r| == |hs| && forall i :: 0 <= i < |hs| ==> r[i] == At(l, hs[i])
  {
    seq(|hs|, i requires 0 <= i < |hs| => At(l, hs[i]))
  }

  lemma HeightsElements<V(!new)>(l: Listable, db: Db<V>, start: Bound, end: Bound, order: Order)
    ensures Ascending(Less(order), Heights(l, db, start, end, order))
    ensures forall h :: h in Heights(l, db, start, end, order) <==> At(l, h) in db && InRange(h, start, end)
  {
    LessIsStrict();
    SortSpec(Less(order), StoredInRange(l, db, start, end));
  }

  /** The visited keys are the encodings of the heights in range. */
  lemma VisitedElements<V(!new)>(l: Listable, db: Db<V>, start: Bound, end: Bound, order: Order, b: ByteString)
    requires KeysEncoded(db)
    ensures b in Visited(MakeList(l, db, start, end, order))
      <==> b in Encoded(l, Heights(l, db, start, end, LowestToHighest))
  {
    var up := Heights(l, db, start, end, LowestToHighest);
    HeightsElements(l, db, start, end, LowestToHighest);
    if b in Encoded(l, up) {
      var i :| 0 <= i < |up| && Encoded(l, up)[i] == b;
      assert up[i] in up;
      VisitedExact(l, db, start, end, order, ToKey(l, up[i]));
    }
    if b in Visited(MakeList(l, db, start, end, order)) {
      var k :| b == Serialize(k);
      VisitedExact(l, db, start, end, order, k);
      assert k.height in up;
      var i :| 0 <= i < |up| && up[i] == k.height;
      assert Encoded(l, up)[i] == b;
    }
  }

  lemma EncodedAscending(l: Listable, hs: seq<Height64>)
    requires Ascending(Less(LowestToHighest), hs)
    ensures Ascending(ByteOrder(), Encoded(l, hs))
  {
    forall i, j | 0 <= i < j < |hs| ensures ByteOrder()(At(l, hs[i]), At(l, hs[j])) {
      assert Less(LowestToHighest)(hs[i], hs[j]);
      HeightOrder(l, hs[i], hs[j]);
    }
  }

  lemma VisitedInOrder<V(!new)>(l: Listable, db: Db<V>, start: Bound, end: Bound, order: Order)
    requires KeysEncoded(db)
    ensures Sort(ByteOrder(), Visited(MakeList(l, db, start, end, order)))
         == Encoded(l, Heights(l, db, start, end, LowestToHighest))
  {
    var encoded := Encoded(l, Heights(l, db, start, end, LowestToHighest));
    var visited := Visited(MakeList(l, db, start, end, order));
    HeightsElements(l, db, start, end, LowestToHighest);
    EncodedAscending(l, Heights(l, db, start, end, LowestToHighest));
    forall b ensures b in encoded <==> b in visited {
      VisitedElements(l, db, start, end, order, b);
    }
    ByteOrderIsStrict();
    SortIsUnique(ByteOrder(), visited, encoded);
  }

  lemma ReverseEncoded(l: Listable, hs: seq<Height64>)
    ensures Reverse(Encoded(l, hs)) == Encoded(l, Reverse(hs))
  {
  }

  lemma HeightsReversed<V(!new)>(l: Listable, db: Db<V>, start: Bound, end: Bound, order: Order)
    ensures Heights(l, db, start, end, ReverseOrder(order)) == Reverse(Heights(l, db, start, end, order))
  {
    LessIsStrict();
    SortReversed(Less(order), Less(ReverseOrder(order)), StoredInRange(l, db, start, end));
  }

  /** The keys in the direction of iteration encode the heights in the requested order. */
  lemma WalkedInOrder<V(!new)>(l: Listable, db: Db<V>, start: Bound, end: Bound, order: Order)
    requires KeysEncoded(db)
    ensures Walked(MakeList(l, db, start, end, order)) == Encoded(l, Heights(l, db, start, end, order))
  {
    var up := Heights(l, db, start, end, LowestToHighest);
    VisitedInOrder(l, db, start, end, order);
    if order.HighestToLowest? {
      HeightsReversed(l, db, start, end, order);
      ReverseEncoded(l, up);
    }
  }

  /** Range exactness: a listing yields each stored key of its kind that is in range,
      once, in the requested direction, with its value, and nothing else. */
  lemma ListIsExact<V(!new)>(l: Listable, db: Db<V>, start: Bound, end: Bound, order: Order)
    requires KeysEncoded(db)
    ensures Presents(l, db, Heights(l, db, start, end, order), IntoIterator(MakeList(l, db, start, end, order)))
  {
    var hs := Heights(l, db, start, end, order);
    var items := IntoIterator(MakeList(l, db, start, end, order));
    WalkedInOrder(l, db, start, end, order);
    HeightsElements(l, db, start, end, order);
    forall i | 0 <= i < |hs|
      ensures At(l, hs[i]) in db && items[i] == (Decoded(ToKey(l, hs[i])), db[At(l, hs[i])])
    {
      assert hs[i] in hs;
      KeyRoundTrip(ToKey(l, hs[i]), ToKey(l, hs[i]));
    }
  }

  /** Collecting stops with an error at the first item that does not decode. */
  function Collect<V(!new)>(items: seq<Item<V>>): Result<seq<(Key, V)>, Decoded> {
    if items == [] then Ok([]) else
    if !items[0].0.Decoded? then Err(items[0].0) else
    match Collect(items[1..])
    case Ok(rest) => Ok([(items[0].0.key, items[0].1)] + rest)
    case Err(e) => Err(e)
  }

  type HeightCursor = Option<CursorChoice<Height64>>

  function AfterBound(c: CursorChoiceAfter<Height64>): Bound {
    match c case After(p) => Excluded(p) case AfterInclusive(p) => Included(p)
  }

  function BeforeBound(c: CursorChoiceBefore<Height64>): Bound {
    match c case Before(p) => Excluded(p) case BeforeInclusive(p) => Included(p)
  }

  /** The key range, and whether results are reversed, that a cursor is translated to. */
  function RangeOf(cursor: HeightCursor, order: Order): (Bound, Bound) {
    var (s, e) := match cursor
      case None => (Unbounded, Unbounded)
      case Some(ChooseBefore(before)) => (Unbounded, BeforeBound(before))
      case Some(ChooseAfter(after)) => (AfterBound(after), Unbounded);
    if order.LowestToHighest? then (s, e) else (e, s)
  }

  predicate Reverses(cursor: HeightCursor) {
    cursor.Some? && cursor.value.ChooseBefore?
  }

  ghost function ListPaginated<V(!new)>(l: Listable, db: Db<V>, cursor: HeightCursor, order: Order, limit: nat)
    : Result<seq<(Key, V)>, Decoded>
  {
    var (start, end) := RangeOf(cursor, order);
    var direction := if Reverses(cursor) then ReverseOrder(order) else order;
    match Collect(Take(IntoIterator(MakeList(l, db, start, end, direction)), limit))
    case Ok(results) => Ok(if Reverses(cursor) then Reverse(results) else results)
    case Err(err) => Err(err)
  }

  /** The full listing in the requested order. */
  ghost function Full<V(!new)>(l: Listable, db: Db<V>, order: Order): seq<Height64> {
    Sort(Less(order), Stored(l, db))
  }

  predicate IsPast(c: CursorChoiceAfter<Height64>, order: Order, h: Height64) {
    Precedes(order, c.pos, h) || (c.AfterInclusive? && h == c.pos)
  }

  predicate IsAhead(c: CursorChoiceBefore<Height64>, order: Order, h: Height64) {
    Precedes(order, h, c.pos) || (c.BeforeInclusive? && h == c.pos)
  }

  ghost function Past(c: CursorChoiceAfter<Height64>, order: Order): Height64 -> bool {
    (h: Height64) => IsPast(c, order, h)
  }

  ghost function Ahead(c: CursorChoiceBefore<Height64>, order: Order): Height64 -> bool {
    (h: Height64) => IsAhead(c, order, h)
  }

  /** What a page means, on the full listing: the first `limit` items past an `After`
      cursor, the last `limit` items ahead of a `Before` cursor. */
  ghost function Page<V(!new)>(l: Listable, db: Db<V>, cursor: HeightCursor, order: Order, limit: nat): seq<Height64> {
    var full := Full(l, db, order);
    match cursor
    case None => Take(full, limit)
    case Some(ChooseAfter(c)) => Take(Filter(full, Past(c, order)), limit)
    case Some(ChooseBefore(c)) => Last(Filter(full, Ahead(c, order)), limit)
  }

  ghost predicate Shows<V(!new)>(l: Listable, db: Db<V>, hs: seq<Height64>, results: seq<(Key, V)>) {
    && |results| == |hs|
    && forall i :: 0 <= i < |hs| ==> At(l, hs[i]) in db && results[i] == (ToKey(l, hs[i]), db[At(l, hs[i])])
  }

  lemma {:induction false} CollectPresented<V(!new)>(l: Listable, db: Db<V>, hs: seq<Height64>, items: seq<Item<V>>)
    requires Presents(l, db, hs, items)
    ensures Collect(items).Ok? && Shows(l, db, hs, Collect(items).value)
  {
    if items != [] {
      CollectPresented(l, db, hs[1..], items[1..]);
    }
  }

  lemma RangeIsFilter<V(!new)>(l: Listable, db: Db<V>, start: Bound, end: Bound, order: Order, keep: Height64 -> bool)
    requires forall h :: InRange(h, start, end) <==> keep(h)
    ensures Heights(l, db, start, end, order) == Filter(Full(l, db, order), keep)
  {
    LessIsStrict();
    SortOfSubset(Less(order), Stored(l, db), keep);
    assert StoredInRange(l, db, start, end) == Subset(Stored(l, db), keep);
  }

  /** Listing the translated range, cutting, and reversing again gives the page. */
  lemma TranslatedRangeIsThePage<V(!new)>(l: Listable, db: Db<V>, cursor: HeightCursor, order: Order, limit: nat)
    ensures
      var (start, end) := RangeOf(cursor, order);
      Page(l, db, cursor, order, limit) ==
        if Reverses(cursor) then Reverse(Take(Heights(l, db, start, end, ReverseOrder(order)), limit))
        else Take(Heights(l, db, start, end, order), limit)
  {
    var (start, end) := RangeOf(cursor, order);
    var full := Full(l, db, order);
    LessIsStrict();
    match cursor {
      case None =>
        assert StoredInRange(l, db, start, end) == Stored(l, db);
      case Some(ChooseAfter(c)) =>
        RangeIsFilter(l, db, start, end, order, Past(c, order));
      case Some(ChooseBefore(c)) =>
        RangeIsFilter(l, db, start, end, order, Ahead(c, order));
        HeightsReversed(l, db, start, end, order);
        LastByReversing(Filter(full, Ahead(c, order)), limit);
    }
  }

  lemma ShowsReversed<V(!new)>(l: Listable, db: Db<V>, hs: seq<Height64>, results: seq<(Key, V)>)
    requires Shows(l, db, hs, results)
    ensures Shows(l, db, Reverse(hs), Reverse(results))
  {
  }

  /** All cursor forms, both orders: a page is what its cursor means, in the requested order. */
  lemma PaginationIsExact<V(!new)>(l: Listable, db: Db<V>, cursor: HeightCursor, order: Order, limit: nat)
    requires KeysEncoded(db)
    ensures ListPaginated(l, db, cursor, order, limit).Ok?
    ensures Shows(l, db, Page(l, db, cursor, order, limit), ListPaginated(l, db, cursor, order, limit).value)
  {
    var (start, end) := RangeOf(cursor, order);
    var direction := if Reverses(cursor) then ReverseOrder(order) else order;
    var hs := Heights(l, db, start, end, direction);
    var items := IntoIterator(MakeList(l, db, start, end, direction));
    ListIsExact(l, db, start, end, direction);
    CollectPresented(l, db, Take(hs, limit), Take(items, limit));
    ShowsReversed(l, db, Take(hs, limit), Collect(Take(items, limit)).value);
    TranslatedRangeIsThePage(l, db, cursor, order, limit);
  }

  const ZEROS: Hash32 := seq(32, _ => 0)
  const ONES: Hash32 := seq(32, _ => 255)

  lemma {:induction false} ExtremeBytes(x: ByteString, lo: ByteString, hi: ByteString)
    requires |x| == |lo| == |hi|
    requires forall i :: 0 <= i < |x| ==> lo[i] == 0 && hi[i] == 255
    ensures !LexLess(x, lo) && !LexLess(hi, x)
  {
    if x != [] {
      ExtremeBytes(x[1..], lo[1..], hi[1..]);
    }
  }

  /** The bounds of `list_txns` admit exactly the transaction index. */
  lemma TxnScanIsExact<V(!new)>(db: Db<V>, k: Key)
    requires Serialize(k) in db
    ensures Serialize(k) in Visited(List(db, TxnByHash(ZEROS), TxnByHash(ONES), false, true, true)) <==> k.TxnByHash?
  {
    var list := List(db, TxnByHash(ZEROS), TxnByHash(ONES), false, true, true);
    var s, lo, hi := Serialize(k), Serialize(TxnByHash(ZEROS)), Serialize(TxnByHash(ONES));
    VisitedByBounds(list, s);
    LexTotal(s, lo);
    LexTotal(s, hi);
    assert s[0] == Kind(k) && lo[0] == hi[0] == 4;
    if k.TxnByHash? {
      assert s[1..] == k.hash && lo[1..] == ZEROS && hi[1..] == ONES;
      ExtremeBytes(k.hash, ZEROS, ONES);
    }
  }
}
