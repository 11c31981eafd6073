/** Committing blocks: the store is written first, the tree second. */
module Committing {
  import opened Basics
  import opened Wrappers
  import opened NotesTrees
  import opened Sequences
  import opened Validation

  datatype Ledger = Ledger(store: Store, tree: set<Element>)

  predicate SlotsDistinct(s: seq<Element>) {
    forall i, j | 0 <= i < j < |s| :: Lsb(s[i]) != Lsb(s[j])
  }

  /** A batch of these elements is accepted by the tree. */
  predicate Insertable(batch: seq<Element>, tree: set<Element>) {
    SlotsDistinct(batch) && Lsbs(SetOf(batch)) !! Lsbs(tree)
  }

  function Applied(tree: set<Element>, leaves: seq<Element>, ignoreCollisions: bool): (Outcome, set<Element>) {
    if !ignoreCollisions && SetOf(leaves) * tree != {} then (Err(Panicked), tree) else
    var batch := if ignoreCollisions then Outside(leaves, tree) else leaves;
    if Insertable(batch, tree) then (Ok(Unit), tree + SetOf(batch)) else (Err(Collision), tree)
  }

  function Committed(l: Ledger, b: ChainBlock, skip: bool): (Outcome, Ledger) {
    if !skip && SetOf(LeavesOf(b)) * l.tree != {} then (Err(Panicked), l) else
    var (r, tree) := Applied(l.tree, LeavesOf(b), skip);
    (r, Ledger(l.store[b.height := b], tree))
  }

  lemma {:induction false} SameSlotMeansTaken(s: seq<Element>, k: nat)
    requires k < |s| && SlotsDistinct(s[..k])
    ensures SlotsDistinct(s[..k + 1]) <==> Lsb(s[k]) !in Lsbs(SetOf(s[..k]))
    ensures SetOf(s[..k + 1]) == SetOf(s[..k]) + {s[k]}
  {
  }

  lemma SlotsOfPrefix(s: seq<Element>, k: nat)
    requires k <= |s| && !SlotsDistinct(s[..k])
    ensures !SlotsDistinct(s)
  {
  }

  /** One insert after the other: a batch of all of them exactly when their slots differ. */
  method BatchFrom(elements: seq<Element>) returns (ok: bool, batch: Batch)
    ensures fresh(batch) && batch.Valid()
    ensures ok <==> SlotsDistinct(elements)
    ensures ok ==> batch.elements == SetOf(elements)
  {
    batch := new Batch();
    ok := true;
    var k := 0;
    while k < |elements|
      invariant 0 <= k <= |elements|
      invariant batch.Valid() && fresh(batch)
      invariant SlotsDistinct(elements[..k]) && batch.elements == SetOf(elements[..k])
    {
      SameSlotMeansTaken(elements, k);
      ok := batch.Insert(elements[k]);
      if !ok {
        SlotsOfPrefix(elements, k + 1);
        return;
      }
      k := k + 1;
    }
    assert elements[..k] == elements;
  }

  method ApplyBlockToTree(tree: NotesTree, b: ChainBlock, ignoreCollisions: bool) returns (r: Outcome)
    modifies tree
    ensures (r, tree.elements) == Applied(old(tree.elements), LeavesOf(b), ignoreCollisions)
  {
    var leaves := LeavesOf(b);
    var i := 0;
    while i < |leaves|
      invariant 0 <= i <= |leaves|
      invariant !ignoreCollisions ==> forall k :: 0 <= k < i ==> leaves[k] !in tree.elements
    {
      if !ignoreCollisions && leaves[i] in tree.elements {
        assert leaves[i] in SetOf(leaves) * tree.elements;
        return Err(Panicked);
      }
      i := i + 1;
    }
    var entries := if ignoreCollisions then Outside(leaves, tree.elements) else leaves;
    var ok, batch := BatchFrom(entries);
    if !ok {
      return Err(Collision);
    }
    assert ZERO !in entries;
    var insertion := tree.InsertBatch(batch);
    match insertion {
      case Inserted => return Ok(Unit);
      case SlotTaken => return Err(Collision);
      case NullPanic => assert false;
    }
  }

  /** The parts of a node that a commit writes. */
  class NodeShared {
    var store: Store
    const notesTree: NotesTree
    const badBlocks: set<Height>

    constructor (badBlocks: set<Height>)
      ensures store == map[] && notesTree.elements == {} && fresh(notesTree)
      ensures this.badBlocks == badBlocks
    {
      store := map[];
      notesTree := new NotesTree();
      this.badBlocks := badBlocks;
    }

    ghost function State(): Ledger
      reads this, notesTree
    {
      Ledger(store, notesTree.elements)
    }

    method CommitProposal(b: ChainBlock) returns (r: Outcome)
      modifies this, notesTree
      ensures (r, State()) == Committed(old(State()), b, b.height in badBlocks)
    {
      var leaves := LeavesOf(b);
      var skipValidation := b.height in badBlocks;
      var i := 0;
      while i < |leaves|
        invariant 0 <= i <= |leaves|
        invariant !skipValidation ==> forall k :: 0 <= k < i ==> leaves[k] !in notesTree.elements
      {
        if !skipValidation && leaves[i] in notesTree.elements {
          assert leaves[i] in SetOf(leaves) * notesTree.elements;
          return Err(Panicked);
        }
        i := i + 1;
      }
      store := store[b.height := b];
      r := ApplyBlockToTree(notesTree, b, skipValidation);
    }
  }
}
