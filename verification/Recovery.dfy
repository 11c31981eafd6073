/** Loading a node from its store and its tree, after a crash at any point of a commit. */
module Recovery {
  import opened Basics
  import opened Wrappers
  import opened NotesTrees
  import opened Sequences
  import opened BlockCaching
  import opened Validation
  import opened Committing
  import opened ChainRuns
  import opened Samples

  /** A fresh start, the last block, an error of the replay, or a panic. */
  datatype Loaded = Genesis | AtBlock(b: ChainBlock) | Failed(error: Error) | LoadPanic

  ghost function Load(env: Env, l: Ledger, badBlocks: set<Height>): (Loaded, Ledger) {
    if l.store == map[] then (Genesis, GENESIS) else
    var top := MaxOf(l.store.Keys);
    var b := l.store[top];
    if env.root(l.tree) == b.body.rootHash then (AtBlock(b), l) else
    if top == 0 || top - 1 !in l.store then (LoadPanic, l) else
    if env.root(l.tree) != l.store[top - 1].body.rootHash then (Genesis, GENESIS) else
    var (r, tree) := Applied(l.tree, LeavesOf(b), top in badBlocks);
    var now := Ledger(l.store, tree);
    if r == Err(Panicked) then (LoadPanic, now) else
    if r.Err? then (Failed(r.error), now) else
    if env.root(tree) != b.body.rootHash then (LoadPanic, now) else (AtBlock(b), now)
  }

  method LoadDbAndSmirk(env: Env, node: NodeShared) returns (r: Loaded)
    modifies node, node.notesTree
    ensures (r, node.State()) == Load(env, old(node.State()), node.badBlocks)
  {
    if node.store == map[] {
      node.notesTree.elements := {};
      return Genesis;
    }
    ghost var m := MaxOf(node.store.Keys);
    var top :| top in node.store && forall h :: h in node.store ==> h <= top;
    assert top == m;
    var b := node.store[top];
    if env.root(node.notesTree.elements) == b.body.rootHash {
      return AtBlock(b);
    }
    if top == 0 || top - 1 !in node.store {
      return LoadPanic;
    }
    if env.root(node.notesTree.elements) != node.store[top - 1].body.rootHash {
      node.store, node.notesTree.elements := map[], {};
      return Genesis;
    }
    var applied := ApplyBlockToTree(node.notesTree, b, top in node.badBlocks);
    if applied == Err(Panicked) {
      return LoadPanic;
    }
    if applied.Err? {
      return Failed(applied.error);
    }
    return if env.root(node.notesTree.elements) != b.body.rootHash then LoadPanic else AtBlock(b);
  }

  /** The top block of a store. */
  ghost function TopOf(l: Ledger): ChainBlock
    requires l.store != map[]
  {
    l.store[MaxOf(l.store.Keys)]
  }

  /** Exactly when loading changes nothing: the tree has the root of the top block, or there is
      neither block nor note. */
  lemma LoadChangesNothingExactly(env: Env, l: Ledger, badBlocks: set<Height>)
    ensures l.store != map[] ==>
      (Load(env, l, badBlocks) == (AtBlock(TopOf(l)), l) <==> env.root(l.tree) == TopOf(l).body.rootHash)
    ensures l.store == map[] ==> (Load(env, l, badBlocks) == (Genesis, l) <==> l.tree == {})
  {
    if l.store != map[] {
      var top := MaxOf(l.store.Keys);
      var (r, tree) := Applied(l.tree, LeavesOf(TopOf(l)), top in badBlocks);
      hide Applied, MaxOf, LeavesOf;
      if tree == l.tree {
        assert Load(env, l, badBlocks).0 == AtBlock(TopOf(l)) ==> env.root(l.tree) == TopOf(l).body.rootHash;
      }
    }
  }

  /** The ledger of a chain, by height. */
  lemma ChainTop(env: Env, bs: seq<ChainBlock>)
    requires Accepted(env, GENESIS, bs) && Consecutive(bs) && bs != []
    ensures var l := After(GENESIS, bs);
      && l.store != map[] && MaxOf(l.store.Keys) == |bs| && l.store[|bs|] == bs[|bs| - 1]
      && env.root(l.tree) == bs[|bs| - 1].body.rootHash
  {
    hide After, Accepted, ChainLeaves;
    StoreHoldsTheChain(bs, env);
    HeadersCarryTheRoot(env, GENESIS, bs, |bs| - 1);
    EveryNoteIsUsedOnce(env, GENESIS, bs);
    assert bs[..|bs|] == bs;
    assert |bs| in After(GENESIS, bs).store.Keys;
  }

  /** So a node that stopped between the commits of a chain from genesis loads as it was. */
  lemma LoadIsIdentityOnChains(env: Env, bs: seq<ChainBlock>, badBlocks: set<Height>)
    requires Accepted(env, GENESIS, bs) && Consecutive(bs)
    ensures Load(env, After(GENESIS, bs), badBlocks)
         == (if bs == [] then Genesis else AtBlock(bs[|bs| - 1]), After(GENESIS, bs))
  {
    LoadChangesNothingExactly(env, After(GENESIS, bs), badBlocks);
    if bs != [] {
      ChainTop(env, bs);
    }
  }

  /** What is on disk when a commit stops after the store was written and before the tree was. */
  function Interrupted(l: Ledger, b: ChainBlock): Ledger {
    Ledger(l.store[b.height := b], l.tree)
  }

  /** The notes of a block that find their slot free. */
  function Novel(l: Ledger, b: ChainBlock): set<Element> {
    Fitting(l.tree, SetOf(LeavesOf(b)))
  }

  /** What a commit that was not interrupted comes to. */
  function Finished(l: Ledger, b: ChainBlock): (Loaded, Ledger) {
    (if Committed(l, b, false).0.Ok? then AtBlock(b) else Failed(Collision), Committed(l, b, false).1)
  }

  predicate Above(l: Ledger, h: Height) {
    forall k | k in l.store :: k < h
  }

  predicate HasPredecessor(l: Ledger, b: ChainBlock) {
    b.height > 0 && b.height - 1 in l.store
  }

  /** The block before is stored, and the tree has its root. */
  predicate Follows(env: Env, l: Ledger, b: ChainBlock) {
    HasPredecessor(l, b) && l.store[b.height - 1].body.rootHash == env.root(l.tree)
  }

  lemma InterruptedTop(l: Ledger, b: ChainBlock)
    requires Above(l, b.height)
    ensures var i := Interrupted(l, b); i.store != map[] && MaxOf(i.store.Keys) == b.height && i.store[b.height] == b
  {
    assert Interrupted(l, b).store.Keys == l.store.Keys + {b.height};
  }

  /** Where the header carries another root than the tree has, loading redoes the commit, starts
      over, or panics. */
  lemma LoadRedoesTheCommit(env: Env, l: Ledger, b: ChainBlock, badBlocks: set<Height>)
    requires ValidateBlock(env, b, l.store, l.tree).Ok? && b.height !in badBlocks && Above(l, b.height)
    requires env.root(l.tree) != b.body.rootHash
    ensures Load(env, Interrupted(l, b), badBlocks) ==
      if !HasPredecessor(l, b) then (LoadPanic, Interrupted(l, b))
      else if Follows(env, l, b) then Finished(l, b)
      else (Genesis, GENESIS)
  {
    ValidatedBlocksCommit(env, l, b);
    InterruptedTop(l, b);
    hide ValidateBlock, LeavesOf, Insertable, MaxOf;
  }

  /** What loading makes of any top block above the rest, valid or not, bad or not, whose header does
      not carry the root of the tree: that of the commit that was cut short, with the checks of the
      replay. Of a bad block the notes that the tree has are left out. */
  lemma LoadReplaysExactly(env: Env, l: Ledger, b: ChainBlock, badBlocks: set<Height>)
    requires Above(l, b.height) && env.root(l.tree) != b.body.rootHash
    ensures var (leaves, bad, i) := (LeavesOf(b), b.height in badBlocks, Ledger(l.store[b.height := b], l.tree));
      var batch := if bad then Outside(leaves, l.tree) else leaves;
      var done := i.(tree := l.tree + SetOf(leaves));
      Load(env, i, badBlocks) ==
        if b.height == 0 || b.height - 1 !in l.store then (LoadPanic, i)
        else if env.root(l.tree) != l.store[b.height - 1].body.rootHash then (Genesis, GENESIS)
        else if !bad && exists x :: x in leaves && x in l.tree then (LoadPanic, i)
        else if !Insertable(batch, l.tree) then (Failed(Collision), i)
        else if env.root(done.tree) == b.body.rootHash then (AtBlock(b), done)
        else (LoadPanic, done)
  {
    hide LeavesOf, Insertable, MaxOf, Applied;
    InterruptedTop(l, b);
    AppliedExactly(l.tree, LeavesOf(b), b.height in badBlocks);
  }

  /** The header of a valid block carries the root with its novel notes: the present root if
      there are none, though the block may have leaves. */
  lemma HeaderRoot(env: Env, l: Ledger, b: ChainBlock)
    requires ValidateBlock(env, b, l.store, l.tree).Ok?
    ensures b.body.rootHash == env.root(l.tree + Novel(l, b)) && l.tree !! Novel(l, b)
    ensures LeavesOf(b) != [] && Novel(l, b) == {} ==> Committed(l, b, false).0 == Err(Collision)
    ensures LeavesOf(b) == [] ==> Novel(l, b) == {} && Committed(l, b, false) == (Ok(Unit), Interrupted(l, b))
  {
    BlockPassesExactly(env, b, l.store, l.tree);
    ValidatedBlocksCommit(env, l, b);
    var leaves := LeavesOf(b);
    hide LeavesOf, ValidateBlock, AllAdmissible, NoDup, Apart;
    assert forall x :: x in l.tree ==> Lsb(x) in Lsbs(l.tree);
    if leaves == [] {
      assert SetOf(leaves) == {} && Novel(l, b) == {};
      assert l.tree + {} == l.tree && l.tree + SetOf(leaves) == l.tree;
    } else if Novel(l, b) == {} {
      assert leaves[0] in SetOf(leaves);
      assert Lsb(leaves[0]) in Lsbs(SetOf(leaves)) * Lsbs(l.tree);
    }
  }

  /** A novel note that was applied is in the tree. */
  lemma FinishedIsNotInterrupted(env: Env, l: Ledger, b: ChainBlock)
    requires ValidateBlock(env, b, l.store, l.tree).Ok? && Novel(l, b) != {}
    ensures Finished(l, b) != (AtBlock(b), Interrupted(l, b))
    ensures Finished(l, b).0 != LoadPanic && Finished(l, b).0 != Genesis
  {
    ValidatedBlocksCommit(env, l, b);
    HeaderRoot(env, l, b);
    hide ValidateBlock, LeavesOf, Insertable, Committed, Applied;
    assert Novel(l, b) <= SetOf(LeavesOf(b));
  }

  /** What loading makes of an interrupted commit, on any ledger below the block. It comes to
      what the commit would have, be it a refusal, exactly when the block adds nothing, or has a
      note whose slot is free and follows the block before, by height and root. With all slots
      taken the tree refuses the block, but loading takes it as applied. The roots with and
      without the novel notes are taken to differ. */
  lemma LoadFinishesTheCommit(env: Env, l: Ledger, b: ChainBlock, badBlocks: set<Height>)
    requires ValidateBlock(env, b, l.store, l.tree).Ok? && b.height !in badBlocks && Above(l, b.height)
    requires env.root(l.tree) == env.root(l.tree + Novel(l, b)) ==> Novel(l, b) == {}
    ensures var r := Load(env, Interrupted(l, b), badBlocks);
      && (r == Finished(l, b) <==> LeavesOf(b) == [] || (Novel(l, b) != {} && Follows(env, l, b)))
      && (r == (AtBlock(b), Interrupted(l, b)) <==> Novel(l, b) == {})
      && (r.0 == LoadPanic <==> Novel(l, b) != {} && !HasPredecessor(l, b))
      && (r.0 == Genesis <==> Novel(l, b) != {} && HasPredecessor(l, b) && !Follows(env, l, b))
  {
    HeaderRoot(env, l, b);
    InterruptedTop(l, b);
    assert l.tree + {} == l.tree;
    hide ValidateBlock, LeavesOf, Novel, Committed, Applied, MaxOf;
    if Novel(l, b) != {} {
      LoadRedoesTheCommit(env, l, b, badBlocks);
      FinishedIsNotInterrupted(env, l, b);
    }
  }

  lemma InsertableIsNovel(l: Ledger, b: ChainBlock)
    requires Insertable(LeavesOf(b), l.tree)
    ensures Novel(l, b) == SetOf(LeavesOf(b)) && (Novel(l, b) == {} <==> LeavesOf(b) == [])
  {
    var leaves := LeavesOf(b);
    hide LeavesOf;
    assert forall x :: x in SetOf(leaves) ==> Lsb(x) in Lsbs(SetOf(leaves));
    assert leaves != [] ==> leaves[0] in SetOf(leaves);
  }

  /** For a block that fits the tree: an interrupted commit is recovered exactly when the block
      adds nothing, or follows the block before; otherwise loading panics where that one is not
      stored, and else starts over from genesis. The roots before and after are taken to differ
      if the trees do. */
  lemma RecoversExactly(env: Env, l: Ledger, b: ChainBlock, badBlocks: set<Height>)
    requires ValidateBlock(env, b, l.store, l.tree).Ok? && b.height !in badBlocks && Above(l, b.height)
    requires Insertable(LeavesOf(b), l.tree)
    requires env.root(l.tree) == env.root(l.tree + SetOf(LeavesOf(b))) ==> LeavesOf(b) == []
    ensures var r := Load(env, Interrupted(l, b), badBlocks);
      && (r == (AtBlock(b), Committed(l, b, false).1) <==> LeavesOf(b) == [] || Follows(env, l, b))
      && (r.0 == LoadPanic <==> LeavesOf(b) != [] && !HasPredecessor(l, b))
      && (r.0 == Genesis <==> LeavesOf(b) != [] && HasPredecessor(l, b) && !Follows(env, l, b))
  {
    InsertableIsNovel(l, b);
    ValidatedBlocksCommit(env, l, b);
    hide ValidateBlock, LeavesOf, Novel, Committed, Insertable;
    LoadFinishesTheCommit(env, l, b, badBlocks);
  }

  /** On a chain from genesis every block but the first follows the one before: so there an
      interrupted commit is recovered except at the first block, unless that adds nothing. */
  lemma ChainsRecoverExactly(env: Env, bs: seq<ChainBlock>, b: ChainBlock, badBlocks: set<Height>)
    requires Accepted(env, GENESIS, bs + [b]) && Consecutive(bs + [b]) && b.height !in badBlocks
    requires var l := After(GENESIS, bs);
      env.root(l.tree) == env.root(l.tree + SetOf(LeavesOf(b))) ==> LeavesOf(b) == []
    ensures var r := Load(env, Interrupted(After(GENESIS, bs), b), badBlocks);
      && (r == (AtBlock(b), After(GENESIS, bs + [b])) <==> bs != [] || LeavesOf(b) == [])
      && (r.0 == LoadPanic <==> bs == [] && LeavesOf(b) != [])
  {
    hide After, Accepted, ValidateBlock, LeavesOf, Insertable, Committed, Load;
    assert (bs + [b])[..|bs|] == bs && (bs + [b])[|bs|] == b;
    assert forall i :: 0 <= i < |bs| ==> bs[i] == (bs + [b])[i];
    var l := After(GENESIS, bs);
    AcceptedLast(env, GENESIS, bs + [b]);
    ValidatedBlocksCommit(env, l, b);
    StoreHoldsTheChain(bs, env);
    if bs != [] {
      ChainTop(env, bs);
    }
    RecoversExactly(env, l, b, badBlocks);
  }

  /** A block can be valid, refused and stored, and taken as applied on loading: its one note
      shares the slot of the note in the tree, so that its header carries the root as it is. The
      note is not in the tree, and passes validation once more. */
  lemma RefusedButLoaded(root: RootFunction)
    ensures
      var env := Trusting(root);
      var (b, again) := (Mint(2, root({1}), [TWIN]), Mint(3, root({1}), [TWIN]));
      var (r, stored) := Committed(First(root), b, false);
      && ValidateBlock(env, b, First(root).store, First(root).tree).Ok?
      && !Insertable(LeavesOf(b), First(root).tree) && r == Err(Collision)
      && 2 in stored.store && stored.store[2] == b && TWIN !in stored.tree
      && Load(env, stored, {}) == (AtBlock(b), stored)
      && ValidateBlock(env, again, stored.store, stored.tree).Ok?
  {
    hide ValidateBlock, LeavesOf, Insertable, Committed, Mint;
    var none: seq<Element> := [];
    assert {1} + SetOf(none) == {1} && [TWIN] + none == [TWIN];
    TwinIsRefused(root, First(root), 2, root({1}), none);
    var stored := Committed(First(root), Mint(2, root({1}), [TWIN]), false).1;
    TwinIsRefused(root, stored, 3, root({1}), none);
    MintHeader(2, root({1}), [TWIN]);
    assert stored.store.Keys == {1, 2};
  }
}
