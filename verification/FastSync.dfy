/** Fast sync: rebuilding the tree from the elements a peer sent, up to the enclosed block. */
module FastSync {
  import opened Basics
  import opened Wrappers
  import opened NotesTrees
  import opened BlockCaching
  import opened CacheRuns
  import opened FiniteSets
  import opened Sequences
  import opened Validation

  /** The last of the three panics comes after the tree was written. */
  datatype Handled =
    | NoBlock
    | RootPanic
    | RootMismatch
    | CollisionFailure
    | MissingElements
    | NullPanicked
    | LatePanic
    | Synced

  const U64_MAX: nat := 0xFFFF_FFFF_FFFF_FFFF

  /** The elements the tree lacks. */
  function Lacking(elements: seq<Element>, tree: set<Element>): set<Element> {
    SetOf(elements) - tree
  }

  function BlockElements(b: ChainBlock): set<Element> {
    SetOf(LeavesOf(b))
  }

  /** What a chunk adds to the tree: what is lacking, short of the block's own leaves. */
  function Additions(b: ChainBlock, elements: seq<Element>, tree: set<Element>): set<Element> {
    Lacking(elements, tree) - BlockElements(b)
  }

  /** The chunk passes all checks. */
  ghost predicate Matches(env: Env, b: ChainBlock, elements: seq<Element>, tree: set<Element>) {
    && RootWith(env.root, tree, Lacking(elements, tree)) == Some(b.body.rootHash)
    && BlockElements(b) <= Lacking(elements, tree)
    && Apart(Additions(b, elements, tree))
    && Lsbs(Additions(b, elements, tree)) !! Lsbs(tree)
  }

  /** It also leaves out the null element, so that the insert does not panic. */
  ghost predicate Acceptable(env: Env, b: ChainBlock, elements: seq<Element>, tree: set<Element>) {
    Matches(env, b, elements, tree) && ZERO !in Lacking(elements, tree)
  }

  lemma NullIsNoLeaf(b: ChainBlock)
    ensures ZERO !in BlockElements(b)
  {
    assert ZERO !in LeavesOf(b);
  }

  class SyncWorker {
    const notesTree: NotesTree
    const blockCache: BlockCache<BlockState>

    constructor (notesTree: NotesTree, blockCache: BlockCache<BlockState>)
      ensures this.notesTree == notesTree && this.blockCache == blockCache
    {
      this.notesTree, this.blockCache := notesTree, blockCache;
    }

    /** The elements outside the block, as a batch; none if two of them share a slot. */
    method Collect(lacking: set<Element>, blockElements: set<Element>)
      returns (ok: bool, batch: Batch, left: set<Element>)
      ensures fresh(batch) && batch.Valid()
      ensures ok <==> Apart(lacking - blockElements)
      ensures ok ==> batch.elements == lacking - blockElements && left == blockElements - lacking
    {
      batch := new Batch();
      ok, left := true, blockElements;
      var todo := lacking;
      while todo != {}
        invariant todo <= lacking && batch.Valid() && fresh(batch)
        invariant batch.elements == lacking - todo - blockElements
        invariant left == blockElements - (lacking - todo)
        decreases todo
      {
        var e :| e in todo;
        todo := todo - {e};
        if e in blockElements {
          left := left - {e};
          continue;
        }
        ok := batch.Insert(e);
        if !ok {
          var other :| other in batch.elements && Lsb(other) == Lsb(e);
          return;
        }
      }
    }

    /** The part under the lock of the tree: none if the tree was brought up to the block. */
    method RebuildTree(env: Env, b: ChainBlock, elements: seq<Element>) returns (refusal: Option<Handled>)
      modifies notesTree
      ensures refusal == None <==> Acceptable(env, b, elements, old(notesTree.elements))
      ensures refusal == Some(RootPanic) <==>
        RootWith(env.root, old(notesTree.elements), Lacking(elements, old(notesTree.elements))).None?
      ensures refusal == Some(NullPanicked) <==>
        Matches(env, b, elements, old(notesTree.elements)) && ZERO in Lacking(elements, old(notesTree.elements))
      ensures refusal.Some? ==> refusal.value !in {NoBlock, Synced, LatePanic}
      ensures notesTree.elements == if refusal == None
        then old(notesTree.elements) + Additions(b, elements, old(notesTree.elements))
        else old(notesTree.elements)
    {
      var tree, blockElements := notesTree.elements, BlockElements(b);
      var lacking := Lacking(elements, tree);
      var root := RootWith(env.root, tree, lacking);
      hide RootWith, BlockElements, Lacking, Apart;
      if root.None? {
        return Some(RootPanic);
      }
      if root.value != b.body.rootHash {
        return Some(RootMismatch);
      }
      var ok, batch, left := Collect(lacking, blockElements);
      assert Additions(b, elements, tree) == lacking - blockElements;
      if !ok {
        return Some(CollisionFailure);
      }
      assert left == {} <==> blockElements <= lacking by {
        assert forall x :: x in blockElements && x !in lacking ==> x in left;
      }
      if left != {} {
        return Some(MissingElements);
      }
      assert ZERO in batch.elements <==> ZERO in lacking by {
        NullIsNoLeaf(b);
      }
      var insertion := notesTree.InsertBatch(batch);
      match insertion {
        case Inserted => return None;
        case SlotTaken => return Some(CollisionFailure);
        case NullPanic => return Some(NullPanicked);
      }
    }

    /** All or nothing: the tree and the cache change exactly when the chunk is acceptable. The
        height before that of the block underflows at 0, which only overflow checks catch. */
    method HandleSnapshotChunkFast(
        env: Env, block: Option<ChainBlock>, elements: seq<Element>, overflowChecks: bool) returns (r: Handled)
      modifies notesTree, blockCache
      ensures r == NoBlock <==> block.None?
      ensures r == NoBlock ==> notesTree.elements == old(notesTree.elements) && blockCache.State() == old(blockCache.State())
      ensures block.Some? ==> var tree, b := old(notesTree.elements), block.value;
        var underflows, before := b.height == 0 && overflowChecks, if b.height == 0 then U64_MAX else b.height - 1;
        && (r == RootPanic <==> RootWith(env.root, tree, Lacking(elements, tree)).None?)
        && (r == NullPanicked <==> Matches(env, b, elements, tree) && ZERO in elements && ZERO !in tree)
        && (r == LatePanic <==>
              Acceptable(env, b, elements, tree) && (underflows || env.mode.Validator?))
        && (r == Synced <==>
              Acceptable(env, b, elements, tree) && !underflows && !env.mode.Validator?)
        && notesTree.elements == (if Acceptable(env, b, elements, tree) then tree + Additions(b, elements, tree) else tree)
        && blockCache.State() == (
             if r == Synced then old(blockCache.State()).Confirmed(before).Inserted(b)
             else if r == LatePanic && !underflows then old(blockCache.State()).Confirmed(before)
             else old(blockCache.State()))
    {
      hide Matches, Additions, RootWith, Cache.Inserted, Cache.Confirmed, Cache.Sound, Cache.Commits;
      if block.None? {
        return NoBlock;
      }
      var b := block.value;
      var refusal := RebuildTree(env, b, elements);
      if refusal.Some? {
        return refusal.value;
      }
      if b.height == 0 && overflowChecks {
        return LatePanic;
      }
      blockCache.Confirm(if b.height == 0 then U64_MAX else b.height - 1);
      if env.mode.Validator? {
        return LatePanic;
      }
      blockCache.Insert(b);
      return Synced;
    }
  }

  /** Without the checks a chunk of height 0 leaves nothing of a cache of 64-bit heights but what
      stands at the greatest, and does not even cache its block. */
  lemma WrappingEmptiesTheCache(c: Cache<BlockState>, b: ChainBlock)
    requires b.height == 0 && forall h :: h in c.index ==> h <= U64_MAX
    ensures var synced := c.Confirmed(U64_MAX).Inserted(b);
      && synced.height == U64_MAX && synced == c.Confirmed(U64_MAX)
      && (forall h :: h in synced.index ==> h == U64_MAX)
  {
  }

  /** Such a chunk: the elements 0 and 1, with a block without leaves that carries their root, to
      a node with an empty tree. */
  lemma NullChunkPanics(root: RootFunction, height: Height)
    ensures var (env, b) := (Env(_ => true, root, Node), Block(height, height, BlockState(root({0, 1}), [])));
      Matches(env, b, [0, 1], {}) && ZERO in Lacking([0, 1], {}) && !Acceptable(env, b, [0, 1], {})
  {
    var (env, b) := (Env(_ => true, root, Node), Block(height, height, BlockState(root({0, 1}), [])));
    assert LeavesOf(b) == [];
    assert SetOf([0, 1]) == {0, 1};
    assert Lacking([0, 1], {}) == {0, 1} == Additions(b, [0, 1], {});
    assert Lsbs({}) == {} && Lsb(0) == 0 && Lsb(1) == 1;
    assert Fitting({}, {0, 1}) == {0, 1} && {} + {0, 1} == {0, 1};
  }

  /** After an accepted chunk the block's leaves are new to the tree, and the root check of the
      block passes, whether or not any slots collide. So if its leaves are pairwise distinct,
      the block passes validation exactly when its transactions are admissible. */
  lemma SyncedBlocksValidate(env: Env, b: ChainBlock, elements: seq<Element>, tree: set<Element>, store: Store)
    requires Acceptable(env, b, elements, tree)
    ensures var rebuilt := tree + Additions(b, elements, tree);
      && SetOf(LeavesOf(b)) !! rebuilt
      && rebuilt + SetOf(LeavesOf(b)) == tree + SetOf(elements)
      && ExpectedRoot(env.root, LeavesOf(b), rebuilt) == Some(b.body.rootHash)
      && (NoDup(LeavesOf(b)) ==>
            (ValidateBlock(env, b, store, rebuilt).Ok? <==> AllAdmissible(env, b.body.txns, b.height, store)))
  {
    var added, leaves := Additions(b, elements, tree), BlockElements(b);
    var rebuilt := tree + added;
    BlockPassesExactly(env, b, store, rebuilt);
    hide LeavesOf, NoDup, AllAdmissible, ValidateBlock;
    assert added + leaves == Lacking(elements, tree);
    RootWithInTwoSteps(env.root, tree, added, leaves);
    assert rebuilt + leaves == tree + SetOf(elements);
    if LeavesOf(b) == [] {
      assert leaves == {};
      assert Fitting(rebuilt, leaves) == {};
      assert rebuilt + {} == rebuilt;
    }
  }

  /** The block is then the next to commit exactly when the cache, once confirmed, has room or
      holds a higher block to give way. */
  lemma SyncedBlockIsNext(c: Cache<BlockState>, b: ChainBlock)
    requires c.Sound() && b.height >= 1
    ensures var next := c.Confirmed(b.height - 1);
      var synced := next.Inserted(b);
      && synced.height + 1 == b.height
      && (b.height in synced.index && synced.index[b.height] == b.hash
          && b.hash in synced.blocks && synced.blocks[b.hash] == b
          <==> next.Takes(b))
      && (!next.Takes(b) ==> b.height !in synced.index)
  {
    var next := c.Confirmed(b.height - 1);
    c.ConfirmedIsSound(b.height - 1);
    if next.Full() && b.height > next.Top().0 {
      assert b.height !in next.index;
    }
  }

  /** There is room for it in a cache for two blocks or more that has every block indexed. */
  lemma TightCachesHaveRoom(c: Cache<BlockState>, b: ChainBlock)
    requires c.Sound() && c.Tight() && c.capacity >= 2 && b.height >= 1
    ensures c.Confirmed(b.height - 1).Takes(b)
  {
    var next := c.Confirmed(b.height - 1);
    ConfirmedIsTight(c, b.height - 1);
    if next.index.Keys <= {b.height - 1} {
      SubsetSize(next.index.Keys, {b.height - 1});
      assert !next.Full();
    } else {
      var k :| k in next.index && k != b.height - 1;
      assert next.Top().0 >= k >= b.height;
    }
  }
}
