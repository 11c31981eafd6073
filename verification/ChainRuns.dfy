/** Safety over whole chains of validated blocks. */
module ChainRuns {
  import opened Basics
  import opened Wrappers
  import opened NotesTrees
  import opened Sequences
  import opened Validation
  import opened Committing

  lemma SlotsApart(s: seq<Element>)
    requires SlotsDistinct(s)
    ensures Apart(SetOf(s))
  {
  }

  /** Committing a validated block never panics; it fails only when two notes share a slot, and
      otherwise leaves a tree whose root is the one in the header. */
  lemma ValidatedBlocksCommit(env: Env, l: Ledger, b: ChainBlock)
    requires ValidateBlock(env, b, l.store, l.tree).Ok?
    ensures Committed(l, b, false).0 == if Insertable(LeavesOf(b), l.tree) then Ok(Unit) else Err(Collision)
    ensures Committed(l, b, false).0.Ok? ==>
      && Committed(l, b, false).1 == Ledger(l.store[b.height := b], l.tree + SetOf(LeavesOf(b)))
      && env.root(Committed(l, b, false).1.tree) == b.body.rootHash
    ensures Committed(l, b, false).0.Err? ==> Committed(l, b, false).1.tree == l.tree
  {
    BlockPassesExactly(env, b, l.store, l.tree);
    var leaves := LeavesOf(b);
    hide LeavesOf, ValidateBlock, AllAdmissible;
    if Insertable(leaves, l.tree) {
      if leaves == [] {
        assert l.tree + SetOf(leaves) == l.tree;
      } else {
        SlotsApart(leaves);
        RootWithIsRootAfter(env.root, l.tree, SetOf(leaves));
      }
    }
  }

  /** A bad block, whose collisions are ignored, never panics either; accepted, it leaves the
      same tree as any block with these leaves. */
  lemma BadBlocksOnlyGrowTheTree(tree: set<Element>, b: ChainBlock)
    ensures var leaves := LeavesOf(b);
      var (r, after) := Applied(tree, leaves, true);
      && r != Err(Panicked)
      && after == (if r.Ok? then tree + SetOf(leaves) else tree)
      && (SetOf(leaves) <= tree ==> r.Ok?)
  {
    var leaves := LeavesOf(b);
    var unseen := Outside(leaves, tree);
    assert tree + SetOf(unseen) == tree + SetOf(leaves);
    assert unseen != [] ==> unseen[0] in unseen && unseen[0] in SetOf(leaves);
    assert unseen == [] ==> SetOf(unseen) == {} && Lsbs({}) == {};
  }

  /** A leaf that is in the tree already panics, but for a bad block, of which the tree takes the leaves
      that it lacks. Otherwise the tree takes all leaves, or none where slots collide. */
  lemma AppliedExactly(tree: set<Element>, leaves: seq<Element>, bad: bool)
    ensures var batch := if bad then Outside(leaves, tree) else leaves;
      Applied(tree, leaves, bad) ==
        if !bad && exists x :: x in leaves && x in tree then (Err(Panicked), tree)
        else if Insertable(batch, tree) then (Ok(Unit), tree + SetOf(leaves))
        else (Err(Collision), tree)
  {
    assert (exists x :: x in leaves && x in tree) <==> SetOf(leaves) * tree != {} by {
      assert forall x :: x in leaves && x in tree ==> x in SetOf(leaves) * tree;
    }
    assert bad ==> tree + SetOf(Outside(leaves, tree)) == tree + SetOf(leaves);
  }

  /** Exactly what a commit writes: nothing before that panic; otherwise the store, whatever the tree
      then does, and the tree if it takes the leaves. */
  lemma CommitExactly(l: Ledger, b: ChainBlock, bad: bool)
    ensures var (r, after) := Committed(l, b, bad);
      var batch := if bad then Outside(LeavesOf(b), l.tree) else LeavesOf(b);
      var stored := l.store[b.height := b];
      (r, after) ==
        if !bad && exists x :: x in LeavesOf(b) && x in l.tree then (Err(Panicked), l)
        else if Insertable(batch, l.tree) then (Ok(Unit), Ledger(stored, l.tree + SetOf(LeavesOf(b))))
        else (Err(Collision), Ledger(stored, l.tree))
  {
    AppliedExactly(l.tree, LeavesOf(b), bad);
    hide LeavesOf, Applied, Insertable;
    assert forall x :: x in LeavesOf(b) && x in l.tree ==> x in SetOf(LeavesOf(b)) * l.tree;
  }

  function After(l: Ledger, bs: seq<ChainBlock>): Ledger
    decreases |bs|
  {
    if bs == [] then l else Committed(After(l, bs[..|bs| - 1]), bs[|bs| - 1], false).1
  }

  /** Each block passes validation on the state it meets, and is committed. */
  ghost predicate Accepted(env: Env, l: Ledger, bs: seq<ChainBlock>)
    decreases |bs|
  {
    bs == [] || (
      var b, rest := bs[|bs| - 1], bs[..|bs| - 1];
      && Accepted(env, l, rest)
      && ValidateBlock(env, b, After(l, rest).store, After(l, rest).tree).Ok?
      && Committed(After(l, rest), b, false).0.Ok?)
  }

  function ChainLeaves(bs: seq<ChainBlock>): seq<Element>
    decreases |bs|
  {
    if bs == [] then [] else ChainLeaves(bs[..|bs| - 1]) + LeavesOf(bs[|bs| - 1])
  }

  /** No note is used twice anywhere in the chain, and the tree is exactly what it started with
      and the notes of the chain. */
  lemma {:induction false} EveryNoteIsUsedOnce(env: Env, l: Ledger, bs: seq<ChainBlock>)
    requires Accepted(env, l, bs)
    ensures NoDup(ChainLeaves(bs)) && SetOf(ChainLeaves(bs)) !! l.tree
    ensures After(l, bs).tree == l.tree + SetOf(ChainLeaves(bs))
    decreases |bs|
  {
    if bs == [] {
      assert SetOf(ChainLeaves(bs)) == {};
    } else {
      var b, rest := bs[|bs| - 1], bs[..|bs| - 1];
      EveryNoteIsUsedOnce(env, l, rest);
      var now := After(l, rest);
      BlockPassesExactly(env, b, now.store, now.tree);
      ValidatedBlocksCommit(env, now, b);
      NoDupConcat(ChainLeaves(rest), LeavesOf(b));
      assert SetOf(ChainLeaves(bs)) == SetOf(ChainLeaves(rest)) + SetOf(LeavesOf(b));
    }
  }

  lemma {:induction false} AcceptedPrefix(env: Env, l: Ledger, bs: seq<ChainBlock>, n: nat)
    requires Accepted(env, l, bs) && n <= |bs|
    ensures Accepted(env, l, bs[..n])
    decreases |bs| - n
  {
    if n == |bs| {
      assert bs[..n] == bs;
    } else {
      AcceptedPrefix(env, l, bs, n + 1);
      assert bs[..n + 1][..n] == bs[..n];
    }
  }

  /** Every header carries the root of all notes up to and including its block. */
  lemma HeadersCarryTheRoot(env: Env, l: Ledger, bs: seq<ChainBlock>, i: nat)
    requires Accepted(env, l, bs) && i < |bs|
    ensures bs[i].body.rootHash == env.root(l.tree + SetOf(ChainLeaves(bs[..i + 1])))
  {
    AcceptedPrefix(env, l, bs, i + 1);
    var upTo := bs[..i + 1];
    EveryNoteIsUsedOnce(env, l, upTo);
    assert upTo[..|upTo| - 1] == bs[..i];
    ValidatedBlocksCommit(env, After(l, bs[..i]), bs[i]);
  }

  /** A block that uses a note the chain has used before is refused, whatever else it holds. */
  lemma ReusedNotesAreRefused(env: Env, l: Ledger, bs: seq<ChainBlock>, b: ChainBlock, leaf: Element)
    requires Accepted(env, l, bs) && leaf in LeavesOf(b) && (leaf in ChainLeaves(bs) || leaf in l.tree)
    ensures ValidateBlock(env, b, After(l, bs).store, After(l, bs).tree).Err?
  {
    EveryNoteIsUsedOnce(env, l, bs);
    BlockPassesExactly(env, b, After(l, bs).store, After(l, bs).tree);
    assert leaf in SetOf(LeavesOf(b)) * After(l, bs).tree;
  }

  const GENESIS: Ledger := Ledger(map[], {})

  /** Blocks of the heights that follow `base`. */
  ghost predicate ConsecutiveFrom(base: Height, bs: seq<ChainBlock>) {
    forall i :: 0 <= i < |bs| ==> bs[i].height == base + i + 1
  }

  ghost predicate Consecutive(bs: seq<ChainBlock>) {
    ConsecutiveFrom(0, bs)
  }

  /** A committed block is stored at its height; the rest of the store stays. */
  lemma CommittedStore(l: Ledger, b: ChainBlock)
    requires Committed(l, b, false).0.Ok?
    ensures Committed(l, b, false).1.store == l.store[b.height := b]
  {
  }

  /** An accepted chain is one of a block less, and that block. */
  lemma AcceptedLast(env: Env, l: Ledger, bs: seq<ChainBlock>)
    requires bs != [] && Accepted(env, l, bs)
    ensures var b, rest := bs[|bs| - 1], bs[..|bs| - 1];
      && Accepted(env, l, rest)
      && ValidateBlock(env, b, After(l, rest).store, After(l, rest).tree).Ok?
      && Committed(After(l, rest), b, false).0.Ok?
      && After(l, bs) == Committed(After(l, rest), b, false).1
  {
    hide Committed, ValidateBlock;
  }

  lemma AfterNothing(l: Ledger)
    ensures After(l, []) == l
  {
  }

  lemma {:induction false} StoreHoldsTheRun(env: Env, l: Ledger, base: Height, bs: seq<ChainBlock>)
    requires Accepted(env, l, bs) && ConsecutiveFrom(base, bs) && forall h :: h in l.store ==> h <= base
    ensures var store := After(l, bs).store;
      && (forall h :: h in store <==> h in l.store || base < h <= base + |bs|)
      && (forall h :: h in l.store ==> store[h] == l.store[h])
      && (forall h :: base < h <= base + |bs| ==> store[h] == bs[h - base - 1])
    decreases |bs|
  {
    hide Committed, ValidateBlock, After, Accepted;
    if bs == [] {
      AfterNothing(l);
    } else {
      var rest := bs[..|bs| - 1];
      AcceptedLast(env, l, bs);
      StoreHoldsTheRun(env, l, base, rest);
      CommittedStore(After(l, rest), bs[|bs| - 1]);
    }
  }

  lemma StoreHoldsTheChain(bs: seq<ChainBlock>, env: Env)
    requires Accepted(env, GENESIS, bs) && Consecutive(bs)
    ensures forall h :: h in After(GENESIS, bs).store <==> 1 <= h <= |bs|
    ensures forall h :: 1 <= h <= |bs| ==> After(GENESIS, bs).store[h] == bs[h - 1]
  {
    hide After, Accepted;
    StoreHoldsTheRun(env, GENESIS, 0, bs);
  }
}
