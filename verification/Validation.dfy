/** Validating a transaction against the tree and the recent roots, and a block of them. */
module Validation {
  import opened Basics
  import opened Naturals
  import opened Sequences
  import opened Wrappers
  import opened NotesTrees
  import opened BlockCaching

  const RECENT_ROOT_COUNT: nat := 64

  datatype Mode = Validator | Node | Prover | MockProver {
    predicate IsProver() {
      Prover? || MockProver?
    }
  }

  type TxnHash = nat

  datatype Utxo = Utxo(hash: TxnHash, recentRoot: Element, inputs: seq<Element>, outputs: seq<Element>) {
    function Leaves(): seq<Element> {
      inputs + outputs
    }
  }

  datatype BlockState = BlockState(rootHash: Element, txns: seq<Utxo>)
  type ChainBlock = Block<BlockState>
  type Store = map<Height, ChainBlock>

  datatype Error =
    | InvalidSignature
    | InvalidProof
    | UtxoRootIsNotRecentEnough(recentRoot: Element, failing: TxnHash)
    | InvalidElementSize(element: Element)
    | NoteAlreadySpent(note: Element, failing: TxnHash)
    | OutputNoteExists(note: Element)
    | LeafAlreadyInsertedInTheSameBlock(leaf: Element, inserting: TxnHash, failing: TxnHash)
    | InvalidBlockRoot(got: Element, expected: Element)
    | Collision
    | Panicked

  datatype Unit = Unit
  type Outcome = Result<Unit, Error>

  /** The proof check and the root of a set of notes, neither looked into. */
  datatype Env = Env(verify: Utxo -> bool, root: RootFunction, mode: Mode)

  /** The root of some stored block in the window ending at `height`. */
  predicate IsRecent(root: Element, height: Height, store: Store) {
    exists h | h in store :: SaturatingSub(height + 1, RECENT_ROOT_COUNT) <= h < height + 1 && store[h].body.rootHash == root
  }

  function KnownNote(leaf: Element, input: bool, txn: TxnHash): Error {
    if input then NoteAlreadySpent(leaf, txn) else OutputNoteExists(leaf)
  }

  function ValidateLeaves(leaves: seq<Element>, tree: set<Element>, input: bool, txn: TxnHash): Outcome {
    if leaves == [] then Ok(Unit) else
    if leaves[0] >= MODULUS then Err(InvalidElementSize(leaves[0])) else
    if leaves[0] != ZERO && leaves[0] in tree then Err(KnownNote(leaves[0], input, txn)) else
    ValidateLeaves(leaves[1..], tree, input, txn)
  }

  function ValidateTxn(env: Env, utxo: Utxo, height: Height, store: Store, tree: set<Element>): Outcome {
    if !env.verify(utxo) then Err(InvalidProof) else
    if utxo.recentRoot != ZERO && !IsRecent(utxo.recentRoot, height, store) && !env.mode.IsProver() then
      Err(UtxoRootIsNotRecentEnough(utxo.recentRoot, utxo.hash))
    else
      var inputs := ValidateLeaves(utxo.inputs, tree, true, utxo.hash);
      if inputs.Err? then inputs else ValidateLeaves(utxo.outputs, tree, false, utxo.hash)
  }

  /** What is asked of a transaction apart from its notes being new. */
  predicate Admissible(env: Env, utxo: Utxo, height: Height, store: Store) {
    && env.verify(utxo)
    && (utxo.recentRoot == ZERO || env.mode.IsProver() || IsRecent(utxo.recentRoot, height, store))
    && (forall leaf | leaf in utxo.Leaves() :: leaf < MODULUS)
  }

  function NonNull(leaves: seq<Element>): (r: seq<Element>)
    ensures forall x :: x in r <==> x in leaves && x != ZERO
  {
    if leaves == [] then [] else
    if leaves[0] == ZERO then NonNull(leaves[1..]) else [leaves[0]] + NonNull(leaves[1..])
  }

  lemma {:induction false} LeavesAreNew(leaves: seq<Element>, tree: set<Element>, input: bool, txn: TxnHash)
    ensures ValidateLeaves(leaves, tree, input, txn).Ok? <==>
      (forall x :: x in leaves ==> x < MODULUS) && SetOf(NonNull(leaves)) !! tree
    ensures ValidateLeaves(leaves, tree, input, txn).Err? ==>
      exists x :: x in leaves && ((x >= MODULUS && ValidateLeaves(leaves, tree, input, txn).error == InvalidElementSize(x))
        || (x != ZERO && x in tree && ValidateLeaves(leaves, tree, input, txn).error == KnownNote(x, input, txn)))
  {
    if leaves != [] {
      LeavesAreNew(leaves[1..], tree, input, txn);
      assert leaves[0] in leaves;
      assert forall x :: x in leaves <==> x == leaves[0] || x in leaves[1..];
      if leaves[0] < MODULUS && (leaves[0] == ZERO || leaves[0] !in tree) {
        assert ValidateLeaves(leaves, tree, input, txn) == ValidateLeaves(leaves[1..], tree, input, txn);
        assert SetOf(NonNull(leaves)) !! tree <==> SetOf(NonNull(leaves[1..])) !! tree;
      } else if leaves[0] < MODULUS {
        assert leaves[0] in SetOf(NonNull(leaves));
      }
    }
  }

  /** Exactly when a transaction passes: admissible, and none of its notes in the tree. */
  lemma TxnPassesExactly(env: Env, utxo: Utxo, height: Height, store: Store, tree: set<Element>)
    ensures ValidateTxn(env, utxo, height, store, tree).Ok? <==>
      Admissible(env, utxo, height, store) && SetOf(NonNull(utxo.Leaves())) !! tree
  {
    LeavesAreNew(utxo.inputs, tree, true, utxo.hash);
    LeavesAreNew(utxo.outputs, tree, false, utxo.hash);
    assert SetOf(NonNull(utxo.Leaves())) == SetOf(NonNull(utxo.inputs)) + SetOf(NonNull(utxo.outputs));
    assert forall x :: x in utxo.Leaves() <==> x in utxo.inputs || x in utxo.outputs;
  }

  /** A refusal names a note that is really spent, or really there. */
  lemma RefusalsAreJustified(env: Env, utxo: Utxo, height: Height, store: Store, tree: set<Element>)
    ensures match ValidateTxn(env, utxo, height, store, tree)
      case Ok(_) => true
      case Err(InvalidProof) => !env.verify(utxo)
      case Err(UtxoRootIsNotRecentEnough(r, t)) =>
        r == utxo.recentRoot != ZERO && t == utxo.hash && !IsRecent(r, height, store) && !env.mode.IsProver()
      case Err(InvalidElementSize(x)) => x in utxo.Leaves() && x >= MODULUS
      case Err(NoteAlreadySpent(x, t)) => x in utxo.inputs && x in tree && x != ZERO && t == utxo.hash
      case Err(OutputNoteExists(x)) => x in utxo.outputs && x in tree && x != ZERO
      case _ => false
  {
    LeavesAreNew(utxo.inputs, tree, true, utxo.hash);
    LeavesAreNew(utxo.outputs, tree, false, utxo.hash);
  }

  type Inserted = map<Element, TxnHash>

  function AddLeaves(leaves: seq<Element>, txn: TxnHash, seen: Inserted): Result<Inserted, Error>
    decreases |leaves|
  {
    if leaves == [] then Ok(seen) else
    if leaves[0] == ZERO then AddLeaves(leaves[1..], txn, seen) else
    if leaves[0] in seen then Err(LeafAlreadyInsertedInTheSameBlock(leaves[0], seen[leaves[0]], txn)) else
    AddLeaves(leaves[1..], txn, seen[leaves[0] := txn])
  }

  function ValidateTxns(env: Env, txns: seq<Utxo>, height: Height, store: Store, tree: set<Element>, seen: Inserted)
    : Result<Inserted, Error>
    decreases |txns|
  {
    if txns == [] then Ok(seen) else
    var added := AddLeaves(txns[0].Leaves(), txns[0].hash, seen);
    if added.Err? then added else
    var checked := ValidateTxn(env, txns[0], height, store, tree);
    if checked.Err? then Err(checked.error) else
    ValidateTxns(env, txns[1..], height, store, tree, added.value)
  }

  function ValidateBlock(env: Env, b: ChainBlock, store: Store, tree: set<Element>): Outcome {
    var r := ValidateTxns(env, b.body.txns, b.height, store, tree, map[]);
    if r.Err? then Err(r.error) else
    var root := if r.value == map[] then Some(env.root(tree)) else RootWith(env.root, tree, r.value.Keys);
    if root.None? then Err(Panicked) else
    if root.value != b.body.rootHash then Err(InvalidBlockRoot(root.value, b.body.rootHash)) else Ok(Unit)
  }

  function TxnLeaves(txns: seq<Utxo>): seq<Element> {
    if txns == [] then [] else txns[0].Leaves() + TxnLeaves(txns[1..])
  }

  /** The leaves a block adds to the tree, in order. */
  function LeavesOf(b: ChainBlock): seq<Element> {
    NonNull(TxnLeaves(b.body.txns))
  }

  lemma {:induction false} NonNullConcat(a: seq<Element>, b: seq<Element>)
    ensures NonNull(a + b) == NonNull(a) + NonNull(b)
  {
    if a == [] {
      assert a + b == b;
    } else {
      assert (a + b)[1..] == a[1..] + b;
      NonNullConcat(a[1..], b);
    }
  }

  lemma {:induction false} LeavesAreDistinct(leaves: seq<Element>, txn: TxnHash, seen: Inserted)
    ensures AddLeaves(leaves, txn, seen).Ok? <==> NoDup(NonNull(leaves)) && SetOf(NonNull(leaves)) !! seen.Keys
    ensures AddLeaves(leaves, txn, seen).Ok? ==>
      AddLeaves(leaves, txn, seen).value.Keys == seen.Keys + SetOf(NonNull(leaves))
    decreases |leaves|
  {
    if leaves == [] {
    } else if leaves[0] == ZERO {
      LeavesAreDistinct(leaves[1..], txn, seen);
    } else {
      var x, rest := leaves[0], NonNull(leaves[1..]);
      assert NonNull(leaves) == [x] + rest;
      NoDupConcat([x], rest);
      assert SetOf([x]) == {x};
      assert SetOf(NonNull(leaves)) == {x} + SetOf(rest);
      LeavesAreDistinct(leaves[1..], txn, seen[x := txn]);
      assert seen[x := txn].Keys == seen.Keys + {x};
    }
  }

  /** Every transaction is admissible. */
  predicate AllAdmissible(env: Env, txns: seq<Utxo>, height: Height, store: Store) {
    forall t | t in txns :: Admissible(env, t, height, store)
  }

  lemma {:induction false} TxnsPassExactly(
      env: Env, txns: seq<Utxo>, height: Height, store: Store, tree: set<Element>, seen: Inserted)
    ensures var r, leaves := ValidateTxns(env, txns, height, store, tree, seen), NonNull(TxnLeaves(txns));
      && (r.Ok? <==> AllAdmissible(env, txns, height, store) && NoDup(leaves)
                     && SetOf(leaves) !! seen.Keys && SetOf(leaves) !! tree)
      && (r.Ok? ==> r.value.Keys == seen.Keys + SetOf(leaves))
    decreases |txns|
  {
    if txns != [] {
      var own, later := NonNull(txns[0].Leaves()), NonNull(TxnLeaves(txns[1..]));
      NonNullConcat(txns[0].Leaves(), TxnLeaves(txns[1..]));
      NoDupConcat(own, later);
      assert SetOf(own + later) == SetOf(own) + SetOf(later);
      LeavesAreDistinct(txns[0].Leaves(), txns[0].hash, seen);
      TxnPassesExactly(env, txns[0], height, store, tree);
      var added := AddLeaves(txns[0].Leaves(), txns[0].hash, seen);
      assert AllAdmissible(env, txns, height, store) <==>
        Admissible(env, txns[0], height, store) && AllAdmissible(env, txns[1..], height, store);
      if added.Ok? {
        TxnsPassExactly(env, txns[1..], height, store, tree, added.value);
      }
    }
  }

  /** The root the block should carry. */
  function ExpectedRoot(root: RootFunction, leaves: seq<Element>, tree: set<Element>): Option<Element> {
    if leaves == [] then Some(root(tree)) else RootWith(root, tree, SetOf(leaves))
  }

  /** Exactly when a block passes: its transactions are admissible, its leaves are pairwise
      distinct and new to the tree, and it carries the root with them. */
  lemma BlockPassesExactly(env: Env, b: ChainBlock, store: Store, tree: set<Element>)
    ensures ValidateBlock(env, b, store, tree).Ok? <==>
      && AllAdmissible(env, b.body.txns, b.height, store)
      && NoDup(LeavesOf(b)) && SetOf(LeavesOf(b)) !! tree
      && ExpectedRoot(env.root, LeavesOf(b), tree) == Some(b.body.rootHash)
  {
    TxnsPassExactly(env, b.body.txns, b.height, store, tree, map[]);
    var r := ValidateTxns(env, b.body.txns, b.height, store, tree, map[]);
    if r.Ok? {
      assert r.value.Keys == SetOf(LeavesOf(b));
      assert r.value == map[] <==> r.value.Keys == {};
      assert LeavesOf(b) == [] <==> SetOf(LeavesOf(b)) == {} by {
        if LeavesOf(b) != [] {
          assert LeavesOf(b)[0] in SetOf(LeavesOf(b));
        }
      }
    }
  }

  lemma {:induction false} AddingNeverPanics(leaves: seq<Element>, txn: TxnHash, seen: Inserted)
    ensures AddLeaves(leaves, txn, seen) != Err(Panicked)
    decreases |leaves|
  {
    if leaves != [] {
      AddingNeverPanics(leaves[1..], txn, seen);
      AddingNeverPanics(leaves[1..], txn, seen[leaves[0] := txn]);
    }
  }

  lemma {:induction false} ChecksNeverPanic(
      env: Env, txns: seq<Utxo>, height: Height, store: Store, tree: set<Element>, seen: Inserted)
    ensures ValidateTxns(env, txns, height, store, tree, seen) != Err(Panicked)
    decreases |txns|
  {
    if txns != [] {
      AddingNeverPanics(txns[0].Leaves(), txns[0].hash, seen);
      RefusalsAreJustified(env, txns[0], height, store, tree);
      var added := AddLeaves(txns[0].Leaves(), txns[0].hash, seen);
      if added.Ok? {
        ChecksNeverPanic(env, txns[1..], height, store, tree, added.value);
      }
    }
  }

  /** Exactly when validation panics: on a block that is good so far, two of whose leaves meet in
      one free slot. */
  lemma ValidationPanicsExactly(env: Env, b: ChainBlock, store: Store, tree: set<Element>)
    ensures ValidateBlock(env, b, store, tree) == Err(Panicked) <==>
      && AllAdmissible(env, b.body.txns, b.height, store)
      && NoDup(LeavesOf(b)) && SetOf(LeavesOf(b)) !! tree
      && !Apart(Fitting(tree, SetOf(LeavesOf(b))))
  {
    TxnsPassExactly(env, b.body.txns, b.height, store, tree, map[]);
    ChecksNeverPanic(env, b.body.txns, b.height, store, tree, map[]);
    var r := ValidateTxns(env, b.body.txns, b.height, store, tree, map[]);
    hide ValidateTxns, AllAdmissible, NoDup;
    if r.Ok? {
      assert r.value.Keys == SetOf(LeavesOf(b));
      if r.value == map[] {
        assert Fitting(tree, SetOf(LeavesOf(b))) == {};
      }
    }
  }

  /** The loops as run: leaves of a transaction first, then its own checks, and the root last. */
  method Validate(env: Env, b: ChainBlock, store: Store, tree: NotesTree) returns (r: Outcome)
    ensures r == ValidateBlock(env, b, store, tree.elements)
  {
    var txnLeaves: Inserted := map[];
    var txns := b.body.txns;
    var i := 0;
    while i < |txns|
      invariant 0 <= i <= |txns|
      invariant ValidateTxns(env, txns, b.height, store, tree.elements, map[])
             == ValidateTxns(env, txns[i..], b.height, store, tree.elements, txnLeaves)
    {
      var txn := txns[i];
      assert txns[i..][0] == txn && txns[i..][1..] == txns[i + 1..];
      var leaves := txn.Leaves();
      var j := 0;
      ghost var before := txnLeaves;
      while j < |leaves|
        invariant 0 <= j <= |leaves|
        invariant AddLeaves(leaves, txn.hash, before) == AddLeaves(leaves[j..], txn.hash, txnLeaves)
      {
        var leaf := leaves[j];
        assert leaves[j..][0] == leaf && leaves[j..][1..] == leaves[j + 1..];
        if leaf != ZERO {
          if leaf in txnLeaves {
            return Err(LeafAlreadyInsertedInTheSameBlock(leaf, txnLeaves[leaf], txn.hash));
          }
          txnLeaves := txnLeaves[leaf := txn.hash];
        }
        j := j + 1;
      }
      assert leaves[j..] == [];
      var result := ValidateTxn(env, txn, b.height, store, tree.elements);
      if result.Err? {
        return Err(result.error);
      }
      i := i + 1;
    }
    assert txns[i..] == [];
    var root := if txnLeaves == map[] then Some(env.root(tree.elements))
                else RootWith(env.root, tree.elements, txnLeaves.Keys);
    if root.None? {
      return Err(Panicked);
    }
    if root.value != b.body.rootHash {
      return Err(InvalidBlockRoot(root.value, b.body.rootHash));
    }
    return Ok(Unit);
  }
}
