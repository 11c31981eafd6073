/** Whole runs of the block cache, and what a fresh cache retains. */
module CacheRuns {
  import opened Basics
  import opened BlockCaching
  import opened FiniteSets
  import opened Maps

  datatype Op<Body> = Insert(b: Block<Body>) | Confirm(h: Height) | Remove(x: CryptoHash)

  ghost function Step<Body>(c: Cache<Body>, op: Op<Body>): Cache<Body> {
    match op
    case Insert(b) => c.Inserted(b)
    case Confirm(h) => c.Confirmed(h)
    case Remove(x) => c.Removed(x)
  }

  /** Callers confirm only cached heights, never drop the confirmed block, and a hash stands
      for one height. */
  ghost predicate Proper<Body>(c: Cache<Body>, op: Op<Body>, heightOf: CryptoHash -> Height) {
    match op
    case Insert(b) => heightOf(b.hash) == b.height
    case Confirm(h) => h in c.index
    case Remove(x) => heightOf(x) != c.height
  }

  ghost predicate Named<Body>(c: Cache<Body>, heightOf: CryptoHash -> Height) {
    forall x :: x in c.blocks ==> c.blocks[x].height == heightOf(x)
  }

  ghost predicate ProperRun<Body>(c: Cache<Body>, ops: seq<Op<Body>>, heightOf: CryptoHash -> Height)
    decreases |ops|
  {
    ops == [] || (Proper(c, ops[0], heightOf) && ProperRun(Step(c, ops[0]), ops[1..], heightOf))
  }

  ghost function After<Body>(c: Cache<Body>, ops: seq<Op<Body>>): Cache<Body>
    decreases |ops|
  {
    if ops == [] then c else After(Step(c, ops[0]), ops[1..])
  }

  lemma StepKeeps<Body>(c: Cache<Body>, op: Op<Body>, heightOf: CryptoHash -> Height)
    requires c.Valid() && Named(c, heightOf) && Proper(c, op, heightOf)
    ensures Step(c, op).Valid() && Named(Step(c, op), heightOf) && Step(c, op).capacity == c.capacity
    ensures Step(c, op).height >= c.height && Step(c, op).maxHeight >= c.maxHeight
  {
    match op
    case Insert(b) => c.InsertedIsValid(b);
    case Confirm(h) => c.ConfirmedIsSound(h);
    case Remove(x) => c.RemovedIsValid(x);
  }

  /** Over any run the index names stored blocks of the right height, the confirmed block stays
      cached, the bound holds, and neither height goes back. */
  lemma {:induction false} RunsStayValid<Body>(c: Cache<Body>, ops: seq<Op<Body>>, heightOf: CryptoHash -> Height)
    requires c.Valid() && Named(c, heightOf) && ProperRun(c, ops, heightOf)
    ensures After(c, ops).Valid() && After(c, ops).capacity == c.capacity
    ensures After(c, ops).height >= c.height && After(c, ops).maxHeight >= c.maxHeight
    decreases |ops|
  {
    if ops != [] {
      StepKeeps(c, ops[0], heightOf);
      RunsStayValid(Step(c, ops[0]), ops[1..], heightOf);
    }
  }

  /** Exactly what an insert stores: its block, unless that is below the confirmed height, or above
      the top of a full cache. */
  lemma InsertStoresExactly<Body>(c: Cache<Body>, b: Block<Body>)
    ensures var next := c.Inserted(b);
      var stored := b.height in next.index && next.index[b.height] == b.hash && b.hash in next.blocks
        && next.blocks[b.hash] == b;
      && (b.height >= c.height && !(|c.blocks| >= c.capacity && b.height > c.Top().0) ==> stored)
      && (b.height < c.height || (|c.blocks| >= c.capacity && b.height > c.Top().0) ==>
            next.index == c.index && next.blocks == c.blocks)
  {
  }

  /** A block is looked at when it is not below the confirmed height of the moment. */
  ghost predicate LookedAt<Body>(c: Cache<Body>, ops: seq<Op<Body>>, i: int) {
    0 <= i < |ops| && ops[i].Insert? && ops[i].b.height >= After(c, ops[..i]).height
  }

  lemma AfterOneMore<Body>(c: Cache<Body>, ops: seq<Op<Body>>, i: nat)
    requires 0 < i <= |ops|
    ensures After(c, ops[..i]) == After(Step(c, ops[0]), ops[1..][..i - 1])
  {
    hide Step;
    assert ops[..i][1..] == ops[1..][..i - 1];
  }

  lemma AfterStep<Body>(c: Cache<Body>, ops: seq<Op<Body>>)
    requires ops != []
    ensures After(c, ops) == After(Step(c, ops[0]), ops[1..])
  {
  }

  lemma OneLook<Body>(c: Cache<Body>, op: Op<Body>)
    ensures Step(c, op).maxHeight ==
      if op.Insert? && op.b.height >= c.height && op.b.height > c.maxHeight then op.b.height else c.maxHeight
  {
  }

  /** Over any run the highest height seen is the greatest of the one at the start and of all blocks
      looked at, whether the cache stored them or turned them away. */
  lemma {:induction false} MaxHeightIsHighestSeen<Body>(c: Cache<Body>, ops: seq<Op<Body>>)
    ensures var max := After(c, ops).maxHeight;
      && c.maxHeight <= max && (forall i :: LookedAt(c, ops, i) ==> ops[i].b.height <= max)
      && (max == c.maxHeight || exists i :: LookedAt(c, ops, i) && ops[i].b.height == max)
    decreases |ops|
  {
    hide Cache.Removed, Cache.Stored, Cache.Top;
    if ops != [] {
      var next, rest := Step(c, ops[0]), ops[1..];
      MaxHeightIsHighestSeen(next, rest);
      assert ops[..0] == [] && After(c, []) == c;
      OneLook(c, ops[0]);
      hide Step, After;
      forall i | 0 < i < |ops| ensures LookedAt(c, ops, i) <==> LookedAt(next, rest, i - 1) {
        AfterOneMore(c, ops, i);
      }
      var max := After(next, rest).maxHeight;
      forall i | LookedAt(c, ops, i) ensures ops[i].b.height <= max {
        if i > 0 {
          assert LookedAt(next, rest, i - 1);
        }
      }
      if max != next.maxHeight {
        var i :| LookedAt(next, rest, i) && rest[i].b.height == max;
        assert LookedAt(c, ops, i + 1);
      } else if max != c.maxHeight {
        assert LookedAt(c, ops, 0);
      }
      AfterStep(c, ops);
    }
  }

  /** A full cache that turns a block away is behind: from then on there is a gap below it. */
  lemma TurnedAwayMeansAGap<Body>(c: Cache<Body>, b: Block<Body>)
    requires c.Valid() && |c.blocks| >= c.capacity && b.height > MaxOf(c.index.Keys)
    ensures c.Inserted(b).Gap() && c.Inserted(b).maxHeight >= b.height
  {
    assert b.height !in c.index && c.height <= MaxOf(c.index.Keys);
  }

  /** A stored block the index forgot is never dropped by confirming. */
  lemma OrphansOutliveConfirms<Body>(c: Cache<Body>, x: CryptoHash, h: Height)
    requires c.Sound() && x in c.blocks
    ensures x in c.Confirmed(h).blocks <==> !(exists k :: k in c.index && k < h && c.index[k] == x)
    ensures x !in c.index.Values ==> x in c.Confirmed(h).blocks && x !in c.Confirmed(h).index.Values
  {
  }

  lemma RemovedTopIsTight<Body>(c: Cache<Body>)
    requires c.Valid() && c.Tight()
    ensures c.Removed(c.Top().1).Tight()
    ensures c.Removed(c.Top().1).index.Keys == c.index.Keys - {c.Top().0}
  {
  }

  lemma {:induction false} ImageSize<Body>(c: Cache<Body>, heights: set<Height>)
    requires c.Sound() && heights <= c.index.Keys
    ensures |set h | h in heights :: c.index[h]| == |heights|
  {
    if heights == {} {
    } else {
      var h :| h in heights;
      ImageSize(c, heights - {h});
      var rest := set k | k in heights - {h} :: c.index[k];
      assert forall k :: k in heights ==> c.blocks[c.index[k]].height == k;
      assert c.index[h] !in rest;
      assert (set k | k in heights :: c.index[k]) == rest + {c.index[h]};
    }
  }

  /** As many index entries as blocks means every block is indexed. */
  lemma IndexedWhenTight<Body>(c: Cache<Body>)
    requires c.Sound() && c.Tight()
    ensures forall x :: x in c.blocks ==> c.blocks[x].height in c.index && c.index[c.blocks[x].height] == x
  {
    var heights := c.index.Keys;
    var hashes := set h | h in heights :: c.index[h];
    ImageSize(c, heights);
    assert hashes <= c.blocks.Keys;
    SameSize(hashes, c.blocks.Keys);
  }

  /** The only insert that leaves an orphan: another block of a cached height, unless that
      height is the top one and the cache is full. */
  lemma OrphanExactly<Body>(c: Cache<Body>, b: Block<Body>)
    requires c.Valid() && c.Tight() && c.Commits(b)
    ensures c.Inserted(b).Tight() <==>
      !(b.height in c.index && c.index[b.height] != b.hash && !(c.Full() && b.height == c.Top().0))
  {
    if c.height <= b.height && !(c.Full() && b.height > c.Top().0) {
      var r := if c.Full() then c.Removed(c.Top().1) else c;
      RemovedTopIsTight(c);
      c.RemovedIsSound(c.Top().1);
      assert c.Inserted(b).blocks == r.blocks[b.hash := b];
      assert c.Inserted(b).index == r.index[b.height := b.hash];
      PutSize(r.blocks, b.hash, b);
      PutSize(r.index, b.height, b.hash);
      IndexedWhenTight(r);
    }
  }

  /** Confirming drops blocks and index entries in step. */
  lemma ConfirmedIsTight<Body>(c: Cache<Body>, h: Height)
    requires c.Sound() && c.Tight()
    ensures c.Confirmed(h).Tight()
  {
    c.ConfirmedIsSound(h);
    IndexedWhenTight(c);
    var d := c.Confirmed(h);
    ImageSize(d, d.index.Keys);
    var hashes := set k | k in d.index.Keys :: d.index[k];
    assert hashes <= d.blocks.Keys;
    forall x | x in d.blocks ensures x in hashes {
      assert c.index[c.blocks[x].height] == x;
      assert d.index[c.blocks[x].height] == x;
    }
    assert hashes == d.blocks.Keys;
  }

  /** Inserting a block the cache already holds: nothing is lost exactly when the cache has
      room or the block is the top one. */
  lemma ReinsertionLosesTheTop<Body>(c: Cache<Body>, b: Block<Body>)
    requires c.Valid() && c.Tight() && b.hash in c.blocks && c.blocks[b.hash] == b
    ensures b.height in c.index
    ensures c.Inserted(b).index.Keys == c.index.Keys <==> !c.Full() || b.height == c.Top().0
  {
    IndexedWhenTight(c);
    RemovedTopIsTight(c);
  }

  /** `kept` is what a bounded cache of the lowest `capacity` of the `seen` heights holds. */
  ghost predicate Lowest(kept: set<Height>, seen: set<Height>, capacity: nat) {
    && kept <= seen
    && |kept| <= capacity
    && (kept == seen || |kept| == capacity)
    && (forall k, h :: k in kept && h in seen && h !in kept ==> k < h)
  }

  /** There is only one such set. */
  lemma LowestIsUnique(a: set<Height>, b: set<Height>, seen: set<Height>, capacity: nat)
    requires Lowest(a, seen, capacity) && Lowest(b, seen, capacity)
    ensures a == b
  {
    if a <= b {
      if a != seen {
        SubsetSize(b, b);
        SameSize(a, b);
      }
    } else {
      var x :| x in a && x !in b;
      assert x in seen;
      assert b <= a;
      SameSize(b, a);
    }
  }

  lemma LowestSkips(kept: set<Height>, seen: set<Height>, capacity: nat, x: Height)
    requires Lowest(kept, seen, capacity) && |kept| == capacity
    requires forall k :: k in kept ==> k < x
    ensures Lowest(kept, seen + {x}, capacity)
  {
  }

  lemma LowestGrows(kept: set<Height>, seen: set<Height>, capacity: nat, x: Height)
    requires Lowest(kept, seen, capacity) && |kept| < capacity && x !in seen
    ensures Lowest(kept + {x}, seen + {x}, capacity)
  {
  }

  lemma LowestReplaces(kept: set<Height>, seen: set<Height>, capacity: nat, top: Height, x: Height)
    requires Lowest(kept, seen, capacity) && |kept| == capacity && x !in seen
    requires top in kept && (forall k :: k in kept ==> k <= top) && x < top
    ensures Lowest(kept - {top} + {x}, seen + {x}, capacity)
  {
  }

  /** The heights from the start on, the start's own among them. */
  ghost function Heights<Body>(start: Block<Body>, bs: seq<Block<Body>>): set<Height> {
    {start.height} + set i | 0 <= i < |bs| && bs[i].height >= start.height :: bs[i].height
  }

  ghost function InsertAll<Body>(c: Cache<Body>, bs: seq<Block<Body>>): Cache<Body> {
    if bs == [] then c else InsertAll(c, bs[..|bs| - 1]).Inserted(bs[|bs| - 1])
  }

  ghost function Fresh<Body>(start: Block<Body>, capacity: nat): Cache<Body> {
    Cache(start.height, start.height, map[start.hash := start], map[start.height := start.hash], capacity)
  }

  /** From the start on, heights are distinct and a hash stands for one block. Blocks below the
      start may be anything. */
  ghost predicate DistinctFrom<Body>(start: Block<Body>, bs: seq<Block<Body>>) {
    && (forall i :: 0 <= i < |bs| ==> bs[i].height != start.height)
    && (forall i :: 0 <= i < |bs| && bs[i].height > start.height ==> bs[i].hash != start.hash)
    && (forall i, j :: 0 <= i < j < |bs| && bs[i].height > start.height && bs[j].height > start.height ==>
          bs[i].height != bs[j].height && bs[i].hash != bs[j].hash)
  }

  lemma InsertedKeys<Body>(c: Cache<Body>, b: Block<Body>)
    requires c.Valid() && c.Tight() && b.height > c.height
    ensures c.Inserted(b).index.Keys ==
      if !c.Full() then c.index.Keys + {b.height}
      else if b.height > MaxOf(c.index.Keys) then c.index.Keys
      else c.index.Keys - {MaxOf(c.index.Keys)} + {b.height}
  {
  }

  lemma InsertKeepsLowest<Body>(c: Cache<Body>, b: Block<Body>, seen: set<Height>)
    requires c.Valid() && c.Tight() && b.height > c.height
    requires Lowest(c.index.Keys, seen, c.capacity) && b.height !in seen
    ensures Lowest(c.Inserted(b).index.Keys, seen + {b.height}, c.capacity)
  {
    InsertedKeys(c, b);
    var kept := c.index.Keys;
    assert |kept| == |c.blocks| <= c.capacity;
    assert b.height !in kept;
    hide Cache.Inserted, Cache.Tight, Cache.Sound, MaxOf, Lowest;
    if |kept| < c.capacity {
      LowestGrows(kept, seen, c.capacity, b.height);
    } else if b.height > MaxOf(kept) {
      LowestSkips(kept, seen, c.capacity, b.height);
    } else {
      LowestReplaces(kept, seen, c.capacity, MaxOf(kept), b.height);
    }
  }

  lemma NewHeightStaysTight<Body>(c: Cache<Body>, b: Block<Body>)
    requires c.Valid() && c.Tight() && b.hash !in c.blocks && b.height !in c.index
    ensures c.Inserted(b).Valid() && c.Inserted(b).Tight()
  {
    c.InsertedIsValid(b);
    OrphanExactly(c, b);
  }

  lemma InsertedBlocks<Body>(c: Cache<Body>, b: Block<Body>)
    requires c.Sound()
    ensures forall x :: x in c.Inserted(b).blocks ==>
      c.Inserted(b).blocks[x] == b || (x in c.blocks && c.Inserted(b).blocks[x] == c.blocks[x])
    ensures c.Inserted(b).height == c.height && c.Inserted(b).capacity == c.capacity
  {
  }

  ghost predicate HoldsOnly<Body>(c: Cache<Body>, start: Block<Body>, bs: seq<Block<Body>>) {
    forall x :: x in c.blocks ==> (
      && c.blocks[x].hash == x
      && (c.blocks[x] == start || (c.blocks[x] in bs && c.blocks[x].height > start.height)))
  }

  lemma FreshIsLowest<Body>(start: Block<Body>, capacity: nat)
    requires capacity >= 1
    ensures Fresh(start, capacity).Valid() && Fresh(start, capacity).Tight()
    ensures Lowest(Fresh(start, capacity).index.Keys, {start.height}, capacity)
    ensures HoldsOnly(Fresh(start, capacity), start, [])
  {
  }

  lemma NewToTheCache<Body>(c: Cache<Body>, start: Block<Body>, bs: seq<Block<Body>>)
    requires bs != [] && DistinctFrom(start, bs) && HoldsOnly(c, start, bs[..|bs| - 1])
    requires bs[|bs| - 1].height > start.height
    ensures bs[|bs| - 1].hash !in c.blocks
    ensures bs[|bs| - 1].height !in Heights(start, bs[..|bs| - 1])
  {
  }

  lemma HoldsOnlyMore<Body>(c: Cache<Body>, start: Block<Body>, bs: seq<Block<Body>>)
    requires bs != [] && c.Sound() && HoldsOnly(c, start, bs[..|bs| - 1])
    requires bs[|bs| - 1].height > start.height
    ensures HoldsOnly(c.Inserted(bs[|bs| - 1]), start, bs)
  {
  }

  /** Exactly the lowest `capacity` of the heights from the start on, each with its block. */
  ghost predicate Retains<Body>(c: Cache<Body>, start: Block<Body>, bs: seq<Block<Body>>, capacity: nat) {
    && c.Valid() && c.Tight() && c.height == start.height && c.capacity == capacity
    && Lowest(c.index.Keys, Heights(start, bs), capacity)
    && HoldsOnly(c, start, bs)
  }

  lemma HeightsGrow<Body>(start: Block<Body>, bs: seq<Block<Body>>)
    requires bs != []
    ensures Heights(start, bs) == Heights(start, bs[..|bs| - 1])
      + if bs[|bs| - 1].height >= start.height then {bs[|bs| - 1].height} else {}
  {
  }

  lemma RetainsNewHeight<Body>(c: Cache<Body>, start: Block<Body>, bs: seq<Block<Body>>, capacity: nat)
    requires bs != [] && DistinctFrom(start, bs) && Retains(c, start, bs[..|bs| - 1], capacity)
    requires bs[|bs| - 1].height > start.height
    ensures Retains(c.Inserted(bs[|bs| - 1]), start, bs, capacity)
  {
    var b := bs[|bs| - 1];
    var seen := Heights(start, bs[..|bs| - 1]);
    NewToTheCache(c, start, bs);
    hide Lowest;
    HeightsGrow(start, bs);
    hide HoldsOnly, DistinctFrom, Heights, Cache.Inserted, Cache.Tight, Cache.Sound;
    InsertKeepsLowest(c, b, seen);
    NewHeightStaysTight(c, b);
    InsertedBlocks(c, b);
    HoldsOnlyMore(c, start, bs);
  }

  lemma RetainsBelow<Body>(c: Cache<Body>, start: Block<Body>, bs: seq<Block<Body>>, capacity: nat)
    requires bs != [] && Retains(c, start, bs[..|bs| - 1], capacity) && bs[|bs| - 1].height < start.height
    ensures Retains(c.Inserted(bs[|bs| - 1]), start, bs, capacity)
  {
    HeightsGrow(start, bs);
    assert Heights(start, bs) == Heights(start, bs[..|bs| - 1]);
    hide Lowest, Heights, Cache.Tight, Cache.Sound;
    assert c.Inserted(bs[|bs| - 1]) == c;
    assert forall x :: x in bs[..|bs| - 1] ==> x in bs;
  }

  lemma RetainsOneMore<Body>(c: Cache<Body>, start: Block<Body>, bs: seq<Block<Body>>, capacity: nat)
    requires bs != [] && DistinctFrom(start, bs) && Retains(c, start, bs[..|bs| - 1], capacity)
    ensures Retains(c.Inserted(bs[|bs| - 1]), start, bs, capacity)
  {
    hide Retains;
    if bs[|bs| - 1].height < start.height {
      RetainsBelow(c, start, bs, capacity);
    } else {
      RetainsNewHeight(c, start, bs, capacity);
    }
  }

  /** What a fresh cache holds after inserting blocks of distinct heights, in any order, and
      whatever blocks below the start. */
  lemma {:induction false} FreshCacheKeepsTheLowest<Body>(start: Block<Body>, bs: seq<Block<Body>>, capacity: nat)
    requires capacity >= 1 && DistinctFrom(start, bs)
    ensures Retains(InsertAll(Fresh(start, capacity), bs), start, bs, capacity)
  {
    if bs == [] {
      FreshIsLowest(start, capacity);
      assert Heights(start, bs) == {start.height};
    } else {
      FreshCacheKeepsTheLowest(start, bs[..|bs| - 1], capacity);
      hide Retains;
      RetainsOneMore(InsertAll(Fresh(start, capacity), bs[..|bs| - 1]), start, bs, capacity);
    }
  }
}
