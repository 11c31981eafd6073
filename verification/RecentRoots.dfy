/** Which roots a transaction may be proved against, at intake and in the next block. */
module RecentRoots {
  import opened Basics
  import opened Naturals
  import opened Wrappers
  import opened NotesTrees
  import opened Sequences
  import opened BlockCaching
  import opened Validation
  import opened Committing
  import opened ChainRuns
  import opened Samples

  ghost function RootAfter(env: Env, l: Ledger, bs: seq<ChainBlock>): Element {
    env.root(l.tree + SetOf(ChainLeaves(bs)))
  }

  /** The root after one of the last `count` blocks of a run that began above height `base`, or
      that of an older block in the store, such as a fast-synced node has, if the run is shorter. */
  ghost predicate IsAmongLast(count: nat, env: Env, l: Ledger, base: Height, bs: seq<ChainBlock>, root: Element) {
    || (exists k :: |bs| - count < k <= |bs| && 1 <= k && root == RootAfter(env, l, bs[..k]))
    || (exists h :: h in l.store && base + |bs| - count < h && root == l.store[h].body.rootHash)
  }

  /** Whatever is stored, below the height or above it: a root is recent exactly when one of the 64
      heights up to this one carries it. */
  lemma RecentExactly(root: Element, height: Height, store: Store)
    ensures IsRecent(root, height, store) <==>
      exists h :: h in store && h <= height < h + 64 && store[h].body.rootHash == root
  {
    if exists h :: h in store && h <= height < h + 64 && store[h].body.rootHash == root {
      var h :| h in store && h <= height < h + 64 && store[h].body.rootHash == root;
      assert SaturatingSub(height + 1, RECENT_ROOT_COUNT) <= h < height + 1;
    }
  }

  ghost predicate IsRunFrom(env: Env, l: Ledger, base: Height, bs: seq<ChainBlock>) {
    Accepted(env, l, bs) && ConsecutiveFrom(base, bs) && forall h :: h in l.store ==> h <= base
  }

  lemma StoredRoot(env: Env, l: Ledger, bs: seq<ChainBlock>, k: nat)
    requires Accepted(env, l, bs) && 1 <= k <= |bs|
    ensures bs[k - 1].body.rootHash == RootAfter(env, l, bs[..k])
  {
    HeadersCarryTheRoot(env, l, bs, k - 1);
  }

  lemma WindowExactly(
      env: Env, l: Ledger, base: Height, bs: seq<ChainBlock>, root: Element, height: Height, count: nat)
    requires count + height == base + |bs| + 64 && height <= base + |bs| + 1
    requires var store := After(l, bs).store;
      && (forall h :: h in store <==> h in l.store || base < h <= base + |bs|)
      && (forall h :: h in l.store ==> h <= base && store[h] == l.store[h])
      && (forall k :: 1 <= k <= |bs| ==> store[base + k].body.rootHash == RootAfter(env, l, bs[..k]))
    requires height >= base + |bs|
    ensures IsRecent(root, height, After(l, bs).store) <==> IsAmongLast(count, env, l, base, bs, root)
  {
    hide After, RootAfter;
    var store := After(l, bs).store;
    if IsRecent(root, height, store) {
      var h :| h in store && SaturatingSub(height + 1, RECENT_ROOT_COUNT) <= h < height + 1
        && store[h].body.rootHash == root;
      if h !in l.store {
        var k := h - base;
        assert store[base + k].body.rootHash == RootAfter(env, l, bs[..k]);
      }
    }
    if exists k :: |bs| - count < k <= |bs| && 1 <= k && root == RootAfter(env, l, bs[..k]) {
      var k :| |bs| - count < k <= |bs| && 1 <= k && root == RootAfter(env, l, bs[..k]);
      assert base + k in store && store[base + k].body.rootHash == root;
    }
  }

  /** The window of 64 heights ends at the height that validation is given: for the next block that
      is its own, not stored yet, which leaves 63 roots; at intake the confirmed one, and 64. */
  lemma RecentMeansTheLast63(env: Env, l: Ledger, base: Height, bs: seq<ChainBlock>, root: Element)
    requires IsRunFrom(env, l, base, bs)
    ensures IsRecent(root, base + |bs| + 1, After(l, bs).store) <==> IsAmongLast(63, env, l, base, bs, root)
    ensures IsRecent(root, base + |bs|, After(l, bs).store) <==> IsAmongLast(64, env, l, base, bs, root)
  {
    hide After, Accepted, ChainLeaves, RootAfter;
    StoreHoldsTheRun(env, l, base, bs);
    forall k | 1 <= k <= |bs|
      ensures After(l, bs).store[base + k].body.rootHash == RootAfter(env, l, bs[..k])
    {
      StoredRoot(env, l, bs, k);
      assert After(l, bs).store[base + k] == bs[base + k - base - 1];
    }
    WindowExactly(env, l, base, bs, root, base + |bs| + 1, 63);
    WindowExactly(env, l, base, bs, root, base + |bs|, 64);
  }

  lemma RecentRootIsStored(env: Env, l: Ledger, b: ChainBlock, t: Utxo)
    requires ValidateBlock(env, b, l.store, l.tree).Ok? && t in b.body.txns
    requires t.recentRoot != ZERO && !env.mode.IsProver()
    ensures IsRecent(t.recentRoot, b.height, l.store)
  {
    BlockPassesExactly(env, b, l.store, l.tree);
  }

  /** So outside the prover modes every non-zero root a committed transaction was proved
      against is one of the 63. */
  lemma CommittedRootsAreRecent(env: Env, l: Ledger, base: Height, bs: seq<ChainBlock>, b: ChainBlock, t: Utxo)
    requires IsRunFrom(env, l, base, bs + [b]) && t in b.body.txns
    requires t.recentRoot != ZERO && !env.mode.IsProver()
    ensures IsAmongLast(63, env, l, base, bs, t.recentRoot)
  {
    hide Committed, ValidateBlock, Accepted, After, IsAmongLast;
    assert (bs + [b])[..|bs|] == bs && (bs + [b])[|bs|] == b;
    AcceptedLast(env, l, bs + [b]);
    assert forall i :: 0 <= i < |bs| ==> bs[i] == (bs + [b])[i];
    RecentRootIsStored(env, After(l, bs), b, t);
    RecentMeansTheLast63(env, l, base, bs, t.recentRoot);
  }

  lemma MoreRoots(env: Env, l: Ledger, base: Height, bs: seq<ChainBlock>, root: Element)
    ensures IsAmongLast(63, env, l, base, bs, root) ==> IsAmongLast(64, env, l, base, bs, root)
  {
    hide RootAfter;
  }

  /** What intake accepts is not always accepted in the next block. Exactly which transactions are
      not: those proved against the oldest of the 64 roots, when it is not among the later 63. */
  lemma IntakeExceedsExactly(env: Env, l: Ledger, base: Height, bs: seq<ChainBlock>, t: Utxo)
    requires IsRunFrom(env, l, base, bs)
    ensures var (now, height) := (After(l, bs), base + |bs|);
      var intake := ValidateTxn(env, t, height, now.store, now.tree);
      var next := ValidateTxn(env, t, height + 1, now.store, now.tree);
      && (next.Ok? ==> intake.Ok?)
      && (intake.Ok? && next.Err? <==>
            && env.verify(t) && (forall leaf :: leaf in t.Leaves() ==> leaf < MODULUS)
            && SetOf(NonNull(t.Leaves())) !! now.tree
            && t.recentRoot != ZERO && !env.mode.IsProver()
            && IsAmongLast(64, env, l, base, bs, t.recentRoot) && !IsAmongLast(63, env, l, base, bs, t.recentRoot))
  {
    hide Accepted, After, IsAmongLast, ValidateTxn, IsRecent;
    var (now, height) := (After(l, bs), base + |bs|);
    TxnPassesExactly(env, t, height, now.store, now.tree);
    TxnPassesExactly(env, t, height + 1, now.store, now.tree);
    RecentMeansTheLast63(env, l, base, bs, t.recentRoot);
    MoreRoots(env, l, base, bs, t.recentRoot);
  }

  /** Blocks without transactions, after height `base`. */
  function Idle(base: Height, rootHash: Element, n: nat): seq<ChainBlock> {
    if n == 0 then [] else Idle(base, rootHash, n - 1) + [Block(base + n, base + n, BlockState(rootHash, []))]
  }

  lemma IdleCommits(env: Env, l: Ledger, b: ChainBlock)
    requires b.body == BlockState(env.root(l.tree), [])
    ensures ValidateBlock(env, b, l.store, l.tree).Ok? && LeavesOf(b) == []
    ensures Committed(l, b, false) == (Ok(Unit), Ledger(l.store[b.height := b], l.tree))
  {
    assert LeavesOf(b) == [] && SetOf<Element>([]) == {} && l.tree + {} == l.tree;
    assert Insertable([], l.tree);
    ValidatedBlocksCommit(env, l, b);
    hide Committed;
  }

  lemma IdleStep(env: Env, l: Ledger, bs: seq<ChainBlock>, b: ChainBlock)
    requires Accepted(env, l, bs) && b.body == BlockState(env.root(After(l, bs).tree), [])
    ensures Accepted(env, l, bs + [b]) && After(l, bs + [b]).tree == After(l, bs).tree
    ensures ChainLeaves(bs + [b]) == ChainLeaves(bs)
  {
    var more := bs + [b];
    assert more[..|more| - 1] == bs && more[|more| - 1] == b;
    IdleCommits(env, After(l, bs), b);
    hide ValidateBlock, Committed, LeavesOf;
  }

  lemma NoBlocks(env: Env, l: Ledger)
    ensures Accepted(env, l, []) && After(l, []) == l && ChainLeaves([]) == []
  {
  }

  lemma {:induction false} IdleRun(env: Env, l: Ledger, base: Height, n: nat)
    ensures var bs := Idle(base, env.root(l.tree), n);
      && |bs| == n && Accepted(env, l, bs) && ConsecutiveFrom(base, bs) && After(l, bs).tree == l.tree
      && forall k :: 0 <= k <= n ==> ChainLeaves(bs[..k]) == []
  {
    hide Accepted, After, ChainLeaves, SetOf;
    if n == 0 {
      NoBlocks(env, l);
    } else {
      IdleRun(env, l, base, n - 1);
      var rest, bs := Idle(base, env.root(l.tree), n - 1), Idle(base, env.root(l.tree), n);
      IdleStep(env, l, rest, bs[n - 1]);
      assert rest[..n - 1] == rest && bs[..n] == bs;
      forall k | 0 <= k < n ensures bs[..k] == rest[..k] {}
    }
  }

  /** Where the run has no leaves, and only the block at height 1 carries root 1. */
  lemma OldestOnly(env: Env, l: Ledger, bs: seq<ChainBlock>)
    requires |bs| == 62 && forall k :: 0 <= k <= 62 ==> ChainLeaves(bs[..k]) == []
    requires l.store.Keys == {1, 2} && l.store[1].body.rootHash == 1 && l.store[2].body.rootHash == 2
    requires env.root(l.tree) == 2
    ensures IsAmongLast(64, env, l, 2, bs, 1) && !IsAmongLast(63, env, l, 2, bs, 1)
  {
    hide ChainLeaves;
    assert 1 in l.store && 2 in l.store;
    assert SetOf<Element>([]) == {} && l.tree + {} == l.tree;
  }

  ghost predicate IdleLedger(env: Env, l: Ledger, bs: seq<ChainBlock>) {
    && IsRunFrom(env, l, 2, bs) && |bs| == 62 && After(l, bs).tree == {1, 2}
    && IsAmongLast(64, env, l, 2, bs, 1) && !IsAmongLast(63, env, l, 2, bs, 1)
  }

  function TwoMints(): Ledger {
    Committed(First(Counted), Mint(2, 2, [2]), false).1
  }

  lemma AfterTwoMints()
    ensures var l := TwoMints();
      && l.tree == {1, 2} && l.store.Keys == {1, 2} && Counted(l.tree) == 2
      && l.store[1].body.rootHash == 1 && l.store[2].body.rootHash == 2
  {
    hide Committed;
    Counts();
    SmallSets();
    NoteTwoIsTaken(Counted, First(Counted), 2);
  }

  lemma IdleLedgerAtAnInput()
    ensures IdleLedger(Trusting(Counted), TwoMints(), Idle(2, 2, 62))
  {
    hide Idle, TwoMints, Accepted, After, ChainLeaves, ConsecutiveFrom, IsAmongLast, Counted, SetOf;
    AfterTwoMints();
    IdleRun(Trusting(Counted), TwoMints(), 2, 62);
    OldestOnly(Trusting(Counted), TwoMints(), Idle(2, 2, 62));
  }

  lemma OldestIsRefused(env: Env, l: Ledger, bs: seq<ChainBlock>, t: Utxo)
    requires IdleLedger(env, l, bs) && env.verify(t) && t.recentRoot == 1 && env.mode == Node
    requires (forall leaf :: leaf in t.Leaves() ==> leaf < MODULUS) && SetOf(NonNull(t.Leaves())) !! {1, 2}
    ensures IsRunFrom(env, l, 2, bs) && |bs| == 62
    ensures ValidateTxn(env, t, 64, After(l, bs).store, After(l, bs).tree).Ok?
    ensures ValidateTxn(env, t, 65, After(l, bs).store, After(l, bs).tree).Err?
  {
    hide IsRunFrom, After, ValidateTxn, IsAmongLast, NonNull, SetOf;
    IntakeExceedsExactly(env, l, 2, bs, t);
  }

  lemma NoteThree(t: Utxo)
    requires t.inputs == [] && t.outputs == [3]
    ensures (forall leaf :: leaf in t.Leaves() ==> leaf < MODULUS) && SetOf(NonNull(t.Leaves())) !! {1, 2}
  {
    assert t.Leaves() == [3];
  }

  /** After two mints and 62 blocks more, a transaction proved against the first root. The root
      here counts the notes. */
  lemma IntakeExceedsAtAnInput()
    ensures
      var env, l, bs := Trusting(Counted), TwoMints(), Idle(2, 2, 62);
      var now, t := After(l, bs), Utxo(9, 1, [], [3]);
      && IsRunFrom(env, l, 2, bs) && |bs| == 62
      && ValidateTxn(env, t, 64, now.store, now.tree).Ok?
      && ValidateTxn(env, t, 65, now.store, now.tree).Err?
  {
    var env, l, bs, t := Trusting(Counted), TwoMints(), Idle(2, 2, 62), Utxo(9, 1, [], [3]);
    hide Idle, TwoMints, Accepted, After, ChainLeaves, ConsecutiveFrom, ValidateTxn, IsAmongLast, NonNull, Counted,
      SetOf, IsRunFrom, IdleLedger;
    IdleLedgerAtAnInput();
    NoteThree(t);
    OldestIsRefused(env, l, bs, t);
  }
}
