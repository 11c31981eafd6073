/** Small blocks and the ledgers they lead to, for results that need an input. */
module Samples {
  import opened Basics
  import opened Wrappers
  import opened NotesTrees
  import opened Sequences
  import opened BlockCaching
  import opened Validation
  import opened Committing
  import opened ChainRuns

  /** A node that takes every proof. */
  function Trusting(root: RootFunction): Env {
    Env(_ => true, root, Node)
  }

  /** A block of one transaction with these output notes. */
  function Mint(height: Height, rootHash: Element, notes: seq<Element>): ChainBlock {
    Block(height, height, BlockState(rootHash, [Utxo(height, ZERO, [], notes)]))
  }

  lemma MintHeader(height: Height, rootHash: Element, notes: seq<Element>)
    ensures Mint(height, rootHash, notes).height == height && Mint(height, rootHash, notes).body.rootHash == rootHash
  {
  }

  /** Another note of the slot of note 1. */
  const TWIN: Element := 1 + SLOTS

  lemma Slots()
    ensures Lsb(1) == Lsb(TWIN) == 1 && Lsb(2) == 2 && Lsb(3) == 3
    ensures Lsbs({}) == {} && Lsbs({1}) == {1}
  {
  }

  lemma {:induction false} NonNullOfNotes(notes: seq<Element>)
    requires ZERO !in notes
    ensures NonNull(notes) == notes
  {
    if notes != [] {
      NonNullOfNotes(notes[1..]);
    }
  }

  lemma MintLeaves(height: Height, rootHash: Element, notes: seq<Element>)
    requires ZERO !in notes
    ensures LeavesOf(Mint(height, rootHash, notes)) == notes
  {
    var b := Mint(height, rootHash, notes);
    var t := b.body.txns[0];
    assert TxnLeaves(b.body.txns[1..]) == [] && t.Leaves() == notes;
    assert TxnLeaves(b.body.txns) == notes;
    NonNullOfNotes(notes);
  }

  lemma MintIsAdmissible(root: RootFunction, height: Height, rootHash: Element, notes: seq<Element>, store: Store)
    requires forall n :: n in notes ==> n < MODULUS
    ensures AllAdmissible(Trusting(root), Mint(height, rootHash, notes).body.txns, height, store)
  {
  }

  /** Exactly when a mint passes. */
  lemma MintPasses(root: RootFunction, l: Ledger, height: Height, rootHash: Element, notes: seq<Element>)
    requires notes != [] && ZERO !in notes && forall n :: n in notes ==> n < MODULUS
    ensures LeavesOf(Mint(height, rootHash, notes)) == notes
    ensures ValidateBlock(Trusting(root), Mint(height, rootHash, notes), l.store, l.tree).Ok? <==>
      NoDup(notes) && SetOf(notes) !! l.tree && RootWith(root, l.tree, SetOf(notes)) == Some(rootHash)
  {
    MintLeaves(height, rootHash, notes);
    MintIsAdmissible(root, height, rootHash, notes, l.store);
    BlockPassesExactly(Trusting(root), Mint(height, rootHash, notes), l.store, l.tree);
    hide AllAdmissible, LeavesOf, ValidateBlock;
  }

  /** The ledger of a first block with note 1. */
  function First(root: RootFunction): Ledger {
    Ledger(map[1 := Mint(1, root({1}), [1])], {1})
  }

  lemma FirstStore(root: RootFunction)
    ensures First(root).store.Keys == {1} && First(root).tree == {1}
  {
  }

  lemma FirstCommits(root: RootFunction)
    ensures var b := Mint(1, root({1}), [1]);
      ValidateBlock(Trusting(root), b, GENESIS.store, GENESIS.tree).Ok?
      && Committed(GENESIS, b, false) == (Ok(Unit), First(root))
  {
    var notes: seq<Element> := [1];
    var b := Mint(1, root({1}), notes);
    Slots();
    hide Lsb;
    assert SetOf(notes) == {1} && Fitting({}, {1}) == {1} && {} + {1} == {1};
    MintPasses(root, GENESIS, 1, root({1}), notes);
    hide LeavesOf, ValidateBlock;
    assert Insertable(notes, {});
    ValidatedBlocksCommit(Trusting(root), GENESIS, b);
  }

  lemma TwinCollides(more: seq<Element>)
    requires more == [] || more == [2] || more == [3]
    ensures var notes := SetOf([TWIN] + more);
      && notes == {TWIN} + SetOf(more) && Fitting({1}, notes) == SetOf(more) && Apart(SetOf(more))
      && TWIN in notes && Lsb(TWIN) in Lsbs(notes) * Lsbs({1}) && notes !! {1}
  {
    Slots();
    hide Lsb;
    assert SetOf([TWIN] + more) == {TWIN} + SetOf(more);
    assert more != [] ==> SetOf(more) == {more[0]};
    assert Fitting({1}, SetOf([TWIN] + more)) == SetOf(more);
  }

  lemma RefusedIsStored(env: Env, l: Ledger, b: ChainBlock)
    requires ValidateBlock(env, b, l.store, l.tree).Ok? && !Insertable(LeavesOf(b), l.tree)
    ensures Committed(l, b, false) == (Err(Collision), Ledger(l.store[b.height := b], l.tree))
  {
    ValidatedBlocksCommit(env, l, b);
    BlockPassesExactly(env, b, l.store, l.tree);
    CommitExactly(l, b, false);
    hide ValidateBlock, LeavesOf, Committed;
    assert forall x :: x in LeavesOf(b) ==> x in SetOf(LeavesOf(b));
  }

  /** After the first block, a block with another note of its slot and a note with a free slot:
      valid, stored, and refused by the tree. */
  lemma TwinIsRefused(root: RootFunction, l: Ledger, height: Height, rootHash: Element, more: seq<Element>)
    requires l.tree == {1} && (more == [] || more == [2] || more == [3])
    requires rootHash == root({1} + SetOf(more))
    ensures var (env, b) := (Trusting(root), Mint(height, rootHash, [TWIN] + more));
      && LeavesOf(b) == [TWIN] + more
      && Fitting(l.tree, SetOf(LeavesOf(b))) == SetOf(more)
      && ValidateBlock(env, b, l.store, l.tree).Ok? && !Insertable(LeavesOf(b), l.tree)
      && Committed(l, b, false) == (Err(Collision), Ledger(l.store[height := b], l.tree))
  {
    hide ValidateBlock, LeavesOf, Committed, Fitting, Apart, SetOf, Lsb, Lsbs;
    var (env, b, notes) := (Trusting(root), Mint(height, rootHash, [TWIN] + more), [TWIN] + more);
    TwinCollides(more);
    MintPasses(root, l, height, rootHash, notes);
    MintHeader(height, rootHash, notes);
    ValidatedBlocksCommit(env, l, b);
    RefusedIsStored(env, l, b);
  }

  lemma OneNote(tree: set<Element>, note: Element)
    ensures SetOf([note]) == {note} && NoDup([note])
    ensures Apart(Fitting(tree, {note}))
    ensures Insertable([note], tree) <==> Lsb(note) !in Lsbs(tree)
  {
    hide Lsb;
    assert SetOf([note]) == {note};
    assert Lsbs({note}) == {Lsb(note)};
  }

  lemma SmallSets()
    ensures SetOf<Element>([2]) == {2} && {1} + SetOf<Element>([2]) == {1, 2}
    ensures {1} + SetOf<Element>([]) == {1}
  {
    assert SetOf<Element>([2]) == {2};
  }

  lemma NoteTwoIsTaken(root: RootFunction, l: Ledger, height: Height)
    requires l.tree == {1}
    ensures var b := Mint(height, root({1, 2}), [2]);
      && ValidateBlock(Trusting(root), b, l.store, l.tree).Ok?
      && Committed(l, b, false) == (Ok(Unit), Ledger(l.store[height := b], {1, 2}))
  {
    hide ValidateBlock, LeavesOf, Committed, Mint, SetOf, Insertable, Lsb;
    var two: seq<Element> := [2];
    Slots();
    SmallSets();
    assert Fitting({1}, {2}) == {2};
    MintPasses(root, l, height, root({1, 2}), two);
    MintHeader(height, root({1, 2}), two);
    OneNote({1}, 2);
    ValidatedBlocksCommit(Trusting(root), l, Mint(height, root({1, 2}), two));
  }

  function Counted(notes: set<Element>): Element {
    |notes|
  }

  lemma OneElement(x: Element)
    requires x != 1
    ensures SetOf<Element>([x]) == {x} && |{1} + SetOf<Element>([x])| == 2
  {
    assert SetOf<Element>([x]) == {x};
    assert {1} + {x} == {1, x};
  }

  lemma Counts()
    ensures Counted({1}) == 1 && Counted({1} + SetOf<Element>([2])) == 2 && Counted({1} + SetOf<Element>([3])) == 2
  {
    OneElement(2);
    OneElement(3);
  }
}
