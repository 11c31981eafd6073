/** The bounded cache of unconfirmed blocks. */
module BlockCaching {
  import opened Basics
  import opened FiniteSets
  import opened Wrappers

  datatype Block<+Body> = Block(height: Height, hash: CryptoHash, body: Body)

  ghost function MaxOf(s: set<Height>): (m: Height)
    requires s != {}
    ensures m in s && forall x :: x in s ==> x <= m
  {
    var x :| x in s;
    if s == {x} then x else
    assert s == (s - {x}) + {x};
    var m := MaxOf(s - {x});
    if x > m then x else m
  }

  datatype Cache<Body> = Cache(
    height: Height,
    maxHeight: Height,
    blocks: map<CryptoHash, Block<Body>>,
    index: map<Height, CryptoHash>,
    capacity: nat)
  {
    /** Every index entry names a stored block of that height, nothing is below the confirmed
        height or above the highest seen, and the size is within bounds. */
    ghost predicate Sound() {
      && capacity >= 1 && |blocks| <= capacity
      && (forall x :: x in blocks ==> blocks[x].hash == x)
      && (forall h :: h in index ==> index[h] in blocks && blocks[index[h]].height == h)
      && (forall h :: h in index ==> height <= h <= maxHeight)
    }

    /** Sound, with the confirmed block in the cache. */
    ghost predicate Valid() {
      Sound() && height in index
    }

    /** No stored block is missing from the index. */
    ghost predicate Tight() {
      |blocks| == |index|
    }

    predicate Full() {
      |blocks| >= capacity
    }

    /** The highest indexed height with its hash, or the defaults. */
    ghost function Top(): (Height, CryptoHash) {
      if index == map[] then (0, DEFAULT_HASH) else (MaxOf(index.Keys), index[MaxOf(index.Keys)])
    }

    function Removed(hash: CryptoHash): Cache<Body> {
      if hash in blocks then this.(blocks := blocks - {hash}, index := index - {blocks[hash].height}) else this
    }

    function Stored(b: Block<Body>): Cache<Body> {
      this.(index := index[b.height := b.hash], blocks := blocks[b.hash := b])
    }

    ghost function Inserted(b: Block<Body>): Cache<Body> {
      if height > b.height then this else
      var seen := this.(maxHeight := if b.height > maxHeight then b.height else maxHeight);
      if Full() && b.height > Top().0 then seen
      else if Full() then seen.Removed(Top().1).Stored(b)
      else seen.Stored(b)
    }

    function Confirmed(h: Height): Cache<Body> {
      this.(
        height := h,
        index := map k | k in index && k >= h :: index[k],
        blocks := map x | x in blocks && !(exists k :: k in index && k < h && index[k] == x) :: blocks[x])
    }

    /** A hash commits to its block, and so to the height. */
    ghost predicate Commits(b: Block<Body>) {
      b.hash in blocks ==> blocks[b.hash].height == b.height
    }

    /** The one case where the bound is passed: with nothing indexed there is nothing to evict for a
        block of height 0. */
    predicate PassesBound(b: Block<Body>) {
      && index == map[] && |blocks| >= capacity && height == b.height == 0
      && DEFAULT_HASH !in blocks && b.hash !in blocks
    }

    /** A full cache takes no block above its top one. */
    ghost predicate Takes(b: Block<Body>) {
      !(Full() && b.height > Top().0)
    }

    lemma RemovedIsSound(hash: CryptoHash)
      requires Sound()
      ensures Removed(hash).Sound()
      ensures hash in blocks ==> |Removed(hash).blocks| == |blocks| - 1
    {
    }

    lemma StoredIsSound(b: Block<Body>)
      requires Sound() && Commits(b) && height <= b.height <= maxHeight && |blocks| < capacity
      ensures Stored(b).Sound() && b.height in Stored(b).index
    {
    }

    lemma EvictsSoundly(b: Block<Body>)
      requires Sound() && Commits(b) && Full() && height <= b.height <= maxHeight && b.height <= Top().0
      ensures Removed(Top().1).Stored(b).Sound() <==> !PassesBound(b)
    {
      RemovedIsSound(Top().1);
      if Top().1 in blocks {
        Removed(Top().1).StoredIsSound(b);
      }
    }

    /** Inserting keeps the cache sound and within bounds, exactly but for that case. */
    lemma InsertedIsSound(b: Block<Body>)
      requires Sound() && Commits(b)
      ensures Inserted(b).Sound() <==> !PassesBound(b)
    {
      if height <= b.height {
        var seen := this.(maxHeight := if b.height > maxHeight then b.height else maxHeight);
        assert seen.Sound();
        if Full() && b.height <= Top().0 {
          seen.EvictsSoundly(b);
        } else if !Full() {
          seen.StoredIsSound(b);
        }
      }
    }

    lemma ConfirmedStays(b: Block<Body>)
      requires Valid()
      ensures height in Inserted(b).index && Inserted(b).height == height
    {
      assert height <= Top().0 && index[Top().0] in blocks && blocks[index[Top().0]].height == Top().0;
      hide MaxOf, Sound;
    }

    /** The confirmed block is never the one evicted. */
    lemma InsertedIsValid(b: Block<Body>)
      requires Valid() && Commits(b)
      ensures Inserted(b).Valid()
    {
      InsertedIsSound(b);
      ConfirmedStays(b);
      hide Inserted, Sound;
    }

    lemma ConfirmedIsSound(h: Height)
      requires Sound()
      ensures Confirmed(h).Sound()
      ensures Confirmed(h).Valid() <==> h in index
    {
      var c := Confirmed(h);
      forall k | k in c.index ensures c.index[k] in c.blocks {
        assert forall j :: j in index && index[j] == index[k] ==> j == blocks[index[j]].height == k;
      }
      assert c.blocks.Keys <= blocks.Keys;
      SubsetSize(c.blocks.Keys, blocks.Keys);
    }

    /** Dropping a block keeps the cache valid unless it is the confirmed one. */
    lemma RemovedIsValid(hash: CryptoHash)
      requires Valid()
      ensures Removed(hash).Valid() <==> !(hash in blocks && blocks[hash].height == height)
    {
    }

    /** Some height above the confirmed one, up to the highest seen, is not cached. */
    ghost predicate Gap() {
      exists h :: height < h <= maxHeight && h !in index
    }

    /** `n` rounds of committing the next block and confirming it; none if one is missing. */
    ghost function Advanced(n: nat): Option<Cache<Body>>
      decreases n
    {
      if n == 0 then Some(this) else
      if height + 1 in index then Confirmed(height + 1).Advanced(n - 1) else None
    }

    /** Confirming the next block keeps the confirmed block cached, and the gaps. */
    lemma NextConfirmed()
      requires Sound() && height + 1 in index
      ensures Confirmed(height + 1).Valid() && (Confirmed(height + 1).Gap() <==> Gap())
    {
      ConfirmedIsSound(height + 1);
      assert forall k :: k > height ==> (k in Confirmed(height + 1).index <==> k in index);
    }

    /** Without a gap, committing block by block reaches the highest height seen in exactly
        the number of steps it is away, and never misses. */
    lemma {:induction false} NoGapCatchesUp(n: nat)
      requires Valid() && !Gap() && height + n == maxHeight
      ensures Advanced(n).Some? && Advanced(n).value.height == maxHeight && Advanced(n).value.Valid()
      decreases n
    {
      if n > 0 {
        NextConfirmed();
        hide Sound;
        Confirmed(height + 1).NoGapCatchesUp(n - 1);
      }
    }

    /** And with a gap it cannot. */
    lemma {:induction false} GapBlocks(n: nat)
      requires Sound() && Gap() && height + n == maxHeight
      ensures Advanced(n) == None
      decreases n
    {
      var h :| height < h <= maxHeight && h !in index;
      if height + 1 in index {
        NextConfirmed();
        hide Sound;
        Confirmed(height + 1).GapBlocks(n - 1);
      }
    }
  }

  class BlockCache<Body> {
    var height: Height
    var maxHeight: Height
    var blocks: map<CryptoHash, Block<Body>>
    var blockHashHeights: map<Height, CryptoHash>
    const maxCacheSize: nat

    ghost function State(): Cache<Body>
      reads this
    {
      Cache(height, maxHeight, blocks, blockHashHeights, maxCacheSize)
    }

    method Remove(hash: CryptoHash)
      modifies this`blocks, this`blockHashHeights
      ensures State() == old(State()).Removed(hash)
    {
      if hash in blocks {
        var b := blocks[hash];
        blocks := blocks - {hash};
        blockHashHeights := blockHashHeights - {b.height};
      }
    }

    method Insert(b: Block<Body>)
      modifies this
      ensures State() == old(State()).Inserted(b)
    {
      hide Cache.Sound, Cache.Commits;
      if height > b.height {
        return;
      }
      if b.height > maxHeight {
        maxHeight := b.height;
      }
      var top, topHash := 0, DEFAULT_HASH;
      if blockHashHeights != map[] {
        ghost var m := MaxOf(blockHashHeights.Keys);
        top :| top in blockHashHeights && forall k :: k in blockHashHeights ==> k <= top;
        topHash := blockHashHeights[top];
      }
      var atCapacity := |blocks| >= maxCacheSize;
      if atCapacity && b.height > top {
        return;
      }
      if atCapacity {
        Remove(topHash);
      }
      blockHashHeights := blockHashHeights[b.height := b.hash];
      blocks := blocks[b.hash := b];
    }

    constructor (start: Block<Body>, maxCacheSize: nat)
      requires maxCacheSize >= 1
      ensures State() == Cache(
        start.height, start.height, map[start.hash := start], map[start.height := start.hash], maxCacheSize)
      ensures State().Valid() && State().Tight()
    {
      height, maxHeight, this.maxCacheSize := start.height, start.height, maxCacheSize;
      blocks, blockHashHeights := map[], map[];
      new;
      Insert(start);
    }

    method Confirm(h: Height)
      modifies this
      ensures State() == old(State()).Confirmed(h)
    {
      height := h;
      var toRemove := set k | k in blockHashHeights && k < h;
      ghost var was, index := blocks, blockHashHeights;
      ghost var gone: set<Height> := {};
      while toRemove != {}
        invariant height == h && maxHeight == old(maxHeight)
        invariant gone + toRemove == set k | k in index && k < h
        invariant gone !! toRemove
        invariant blockHashHeights == index - gone
        invariant blocks == map x | x in was && !(exists k :: k in gone && index[k] == x) :: was[x]
        decreases toRemove
      {
        var k :| k in toRemove;
        var hash := blockHashHeights[k];
        blockHashHeights := blockHashHeights - {k};
        blocks := blocks - {hash};
        toRemove, gone := toRemove - {k}, gone + {k};
      }
    }

    method GetByHeight(h: Height) returns (r: Option<Block<Body>>)
      ensures r == if h in blockHashHeights && blockHashHeights[h] in blocks
                   then Some(blocks[blockHashHeights[h]]) else None
    {
      r := if h in blockHashHeights && blockHashHeights[h] in blocks then Some(blocks[blockHashHeights[h]]) else None;
    }

    /** Exact: out of sync just when a height is missing between the confirmed and the
        highest seen. */
    method IsOutOfSync() returns (r: bool)
      requires State().Sound() && blockHashHeights != map[]
      ensures r == State().Gap()
    {
      ghost var m := MaxOf(blockHashHeights.Keys);
      var top :| top in blockHashHeights && forall k :: k in blockHashHeights ==> k <= top;
      if maxHeight > top {
        assert maxHeight !in blockHashHeights;
        return true;
      }
      var h := height + 1;
      while h <= maxHeight
        invariant height < h
        invariant forall k :: height < k < h && k <= maxHeight ==> k in blockHashHeights
        decreases maxHeight + 1 - h
      {
        if h !in blockHashHeights {
          return true;
        }
        h := h + 1;
      }
      return false;
    }

    method GetNextCommitBlock() returns (r: Option<Block<Body>>)
      requires State().Sound()
      ensures r.Some? <==> height + 1 in blockHashHeights
      ensures r.Some? ==> r.value.height == height + 1 && r.value.hash == blockHashHeights[height + 1]
      ensures r.Some? ==> r.value == blocks[blockHashHeights[height + 1]]
    {
      r := GetByHeight(height + 1);
    }
  }
}
