/** Why a block is refused: which error validation gives, and for which of its transactions. */
module Refusals {
  import opened Basics
  import opened Wrappers
  import opened Sequences
  import opened NotesTrees
  import opened Validation

  predicate IsGood(leaf: Element, tree: set<Element>) {
    leaf < MODULUS && (leaf == ZERO || leaf !in tree)
  }

  /** The first leaf that is not good, and nothing before it. */
  predicate FirstBad(leaves: seq<Element>, tree: set<Element>, i: int) {
    0 <= i < |leaves| && !IsGood(leaves[i], tree) && forall j | 0 <= j < i :: IsGood(leaves[j], tree)
  }

  lemma {:induction false} LeafRefused(leaves: seq<Element>, tree: set<Element>, input: bool, txn: TxnHash)
    returns (i: nat)
    ensures var r := ValidateLeaves(leaves, tree, input, txn);
      if r.Ok? then i == |leaves| && forall j :: 0 <= j < i ==> IsGood(leaves[j], tree)
      else
        && FirstBad(leaves, tree, i)
        && r.error == if leaves[i] >= MODULUS then InvalidElementSize(leaves[i])
                      else if input then NoteAlreadySpent(leaves[i], txn) else OutputNoteExists(leaves[i])
  {
    i := 0;
    if leaves != [] && IsGood(leaves[0], tree) {
      i := LeafRefused(leaves[1..], tree, input, txn);
      assert forall j :: 0 < j < |leaves| ==> leaves[j] == leaves[1..][j - 1];
      i := i + 1;
    }
  }

  /** Why a transaction is refused: for its proof, else for its root, else for the first of its leaves
      that is not good, inputs before outputs. */
  lemma TxnRefusedExactly(env: Env, utxo: Utxo, height: Height, store: Store, tree: set<Element>)
    ensures var r := ValidateTxn(env, utxo, height, store, tree);
      var badRoot := utxo.recentRoot != ZERO && env.mode in {Validator, Node} && !IsRecent(utxo.recentRoot, height, store);
      && (!env.verify(utxo) ==> r == Err(InvalidProof))
      && (env.verify(utxo) && badRoot ==> r == Err(UtxoRootIsNotRecentEnough(utxo.recentRoot, utxo.hash)))
      && (env.verify(utxo) && !badRoot && r.Err? ==> exists i ::
            && FirstBad(utxo.inputs + utxo.outputs, tree, i)
            && var leaf := (utxo.inputs + utxo.outputs)[i];
               r.error == if leaf >= MODULUS then InvalidElementSize(leaf)
                          else if i < |utxo.inputs| then NoteAlreadySpent(leaf, utxo.hash) else OutputNoteExists(leaf))
  {
    hide ValidateLeaves, IsRecent;
    var i := LeafRefused(utxo.inputs, tree, true, utxo.hash);
    var j := LeafRefused(utxo.outputs, tree, false, utxo.hash);
    if i < |utxo.inputs| {
      assert FirstBad(utxo.inputs + utxo.outputs, tree, i);
    } else if j < |utxo.outputs| {
      assert FirstBad(utxo.inputs + utxo.outputs, tree, i + j);
    }
  }

  /** How often a leaf occurs. */
  function Times(leaves: seq<Element>, x: Element): nat {
    multiset(leaves)[x]
  }

  /** What adding the leaves of one transaction leads to. */
  lemma {:induction false} AddedLeaves(leaves: seq<Element>, txn: TxnHash, seen: Inserted)
    ensures match AddLeaves(leaves, txn, seen)
      case Ok(added) =>
        forall x :: x in added ==>
          (x in seen && added[x] == seen[x]) || (x in NonNull(leaves) && x !in seen && added[x] == txn)
      case Err(error) =>
        && error.LeafAlreadyInsertedInTheSameBlock? && error.failing == txn && error.leaf in NonNull(leaves)
        && (|| (error.leaf in seen && error.inserting == seen[error.leaf])
            || (error.inserting == txn && Times(NonNull(leaves), error.leaf) >= 2))
    decreases |leaves|
  {
    if leaves != [] {
      var (x, rest) := (leaves[0], leaves[1..]);
      if x == ZERO {
        AddedLeaves(rest, txn, seen);
      } else if x !in seen {
        AddedLeaves(rest, txn, seen[x := txn]);
        assert NonNull(leaves) == [x] + NonNull(rest);
        assert multiset(NonNull(leaves)) == multiset{x} + multiset(NonNull(rest));
      }
    }
  }

  predicate InsertedBy(txns: seq<Utxo>, leaf: Element, hash: TxnHash) {
    exists j | 0 <= j < |txns| :: leaf in txns[j].Leaves() && txns[j].hash == hash
  }

  /** The first transaction that does not pass is refused for a leaf that occurred before in the
      block, or else for the reason it is refused by itself. */
  ghost predicate FirstRefused(
      env: Env, txns: seq<Utxo>, height: Height, store: Store, tree: set<Element>, seen: Inserted, i: nat, error: Error)
  {
    && i < |txns|
    && (forall j :: 0 <= j < i ==> ValidateTxn(env, txns[j], height, store, tree).Ok?)
    && NoDup(NonNull(TxnLeaves(txns[..i]))) && SetOf(NonNull(TxnLeaves(txns[..i]))) !! seen.Keys
    && var leaves := NonNull(TxnLeaves(txns[..i + 1]));
      if NoDup(leaves) && SetOf(leaves) !! seen.Keys then ValidateTxn(env, txns[i], height, store, tree) == Err(error)
      else
        && error.LeafAlreadyInsertedInTheSameBlock? && error.failing == txns[i].hash
        && error.leaf in NonNull(txns[i].Leaves())
        && (|| (error.leaf in seen && error.inserting == seen[error.leaf])
            || (Times(leaves, error.leaf) >= 2 && InsertedBy(txns[..i + 1], error.leaf, error.inserting)))
  }

  lemma LeavesOfMore(txns: seq<Utxo>, i: nat)
    requires txns != [] && i <= |txns| - 1
    ensures NonNull(TxnLeaves(txns[..i + 1])) == NonNull(txns[0].Leaves()) + NonNull(TxnLeaves(txns[1..][..i]))
  {
    assert txns[..i + 1][0] == txns[0] && txns[..i + 1][1..] == txns[1..][..i];
    NonNullConcat(txns[0].Leaves(), TxnLeaves(txns[1..][..i]));
  }

  lemma NoLeaves(txns: seq<Utxo>, own: seq<Element>)
    requires txns != []
    ensures NonNull(TxnLeaves(txns[..0])) == [] && NonNull(TxnLeaves(txns[1..][..0])) == [] && own + [] == own
    ensures NoDup<Element>([]) && SetOf<Element>([]) == {}
    ensures txns[..1][0] == txns[0]
    ensures NonNull(txns[0].Leaves()) == own ==> forall x :: x in own ==> x in txns[0].Leaves()
  {
  }

  lemma NonNullMembers(leaves: seq<Element>, x: Element)
    ensures x in NonNull(leaves) <==> x in leaves && x != ZERO
  {
  }

  lemma {:induction false} InTxnLeaves(txns: seq<Utxo>, i: nat, x: Element)
    requires i < |txns| && x in txns[i].Leaves()
    ensures x in TxnLeaves(txns)
    decreases |txns|
  {
    if i > 0 {
      InTxnLeaves(txns[1..], i - 1, x);
    }
  }

  lemma LaterLeaf(txns: seq<Utxo>, i: nat, x: Element)
    requires txns != [] && i < |txns| - 1
    ensures x in NonNull(txns[1..][i].Leaves()) ==> x in NonNull(TxnLeaves(txns[1..][..i + 1]))
  {
    if x in NonNull(txns[1..][i].Leaves()) {
      InTxnLeaves(txns[1..][..i + 1], i, x);
    }
  }

  lemma OneTxnMore(
      env: Env, txns: seq<Utxo>, height: Height, store: Store, tree: set<Element>, seen: Inserted, added: Inserted,
      i: nat, error: Error)
    requires txns != [] && ValidateTxn(env, txns[0], height, store, tree).Ok?
    requires var own := NonNull(txns[0].Leaves());
      && NoDup(own) && SetOf(own) !! seen.Keys && added.Keys == seen.Keys + SetOf(own)
      && forall x :: x in added ==>
           (x in seen && added[x] == seen[x]) || (x in own && x !in seen && added[x] == txns[0].hash)
    requires FirstRefused(env, txns[1..], height, store, tree, added, i, error)
    ensures FirstRefused(env, txns, height, store, tree, seen, i + 1, error)
  {
    hide ValidateTxn, NoDup, NonNull, TxnLeaves;
    var (own, rest) := (NonNull(txns[0].Leaves()), txns[1..]);
    var (before, upTo) := (NonNull(TxnLeaves(rest[..i])), NonNull(TxnLeaves(rest[..i + 1])));
    LeavesOfMore(txns, i);
    LeavesOfMore(txns, i + 1);
    NoDupConcat(own, before);
    NoDupConcat(own, upTo);
    SetOfConcat(own, before);
    SetOfConcat(own, upTo);
    assert forall j :: 0 < j < i + 1 ==> txns[j] == rest[j - 1];
    if !(NoDup(upTo) && SetOf(upTo) !! added.Keys) {
      LaterLeaf(txns, i, error.leaf);
      assert multiset(own + upTo) == multiset(own) + multiset(upTo);
      if InsertedBy(rest[..i + 1], error.leaf, error.inserting) {
        var j :| 0 <= j < i + 1 && error.leaf in rest[..i + 1][j].Leaves() && rest[..i + 1][j].hash == error.inserting;
        assert txns[..i + 2][j + 1] == rest[..i + 1][j];
        assert InsertedBy(txns[..i + 2], error.leaf, error.inserting);
      } else if error.leaf in own {
        assert txns[..i + 2][0] == txns[0];
        NonNullMembers(txns[0].Leaves(), error.leaf);
      }
    }
  }

  lemma {:induction false} RefusedAt(
      env: Env, txns: seq<Utxo>, height: Height, store: Store, tree: set<Element>, seen: Inserted) returns (i: nat)
    requires ValidateTxns(env, txns, height, store, tree, seen).Err?
    ensures FirstRefused(env, txns, height, store, tree, seen, i, ValidateTxns(env, txns, height, store, tree, seen).error)
    ensures !ValidateTxns(env, txns, height, store, tree, seen).error.InvalidBlockRoot?
    decreases |txns|
  {
    hide NoDup, SetOf, ValidateTxn, NonNull;
    var own := NonNull(txns[0].Leaves());
    LeavesAreDistinct(txns[0].Leaves(), txns[0].hash, seen);
    AddedLeaves(txns[0].Leaves(), txns[0].hash, seen);
    RefusalsAreJustified(env, txns[0], height, store, tree);
    LeavesOfMore(txns, 0);
    NoLeaves(txns, own);
    var added := AddLeaves(txns[0].Leaves(), txns[0].hash, seen);
    if added.Err? || ValidateTxn(env, txns[0], height, store, tree).Err? {
      i := 0;
    } else {
      i := RefusedAt(env, txns[1..], height, store, tree, added.value);
      OneTxnMore(env, txns, height, store, tree, seen, added.value, i,
        ValidateTxns(env, txns, height, store, tree, seen).error);
      i := i + 1;
    }
  }

  /** Exactly when the root is what a block is refused for: all else is in order, and the root with
      its leaves, which is the first of the two, is not that of the header, the second. */
  lemma WrongRootExactly(env: Env, b: ChainBlock, store: Store, tree: set<Element>, got: Element, expected: Element)
    ensures ValidateBlock(env, b, store, tree) == Err(InvalidBlockRoot(got, expected)) <==>
      && AllAdmissible(env, b.body.txns, b.height, store)
      && NoDup(LeavesOf(b)) && SetOf(LeavesOf(b)) !! tree
      && ExpectedRoot(env.root, LeavesOf(b), tree) == Some(got) && expected == b.body.rootHash && got != expected
  {
    TxnsPassExactly(env, b.body.txns, b.height, store, tree, map[]);
    BlockPassesExactly(env, b, store, tree);
    var r := ValidateTxns(env, b.body.txns, b.height, store, tree, map[]);
    if r.Err? {
      var i := RefusedAt(env, b.body.txns, b.height, store, tree, map[]);
    } else {
      assert r.value.Keys == SetOf(LeavesOf(b));
      assert LeavesOf(b) == [] <==> SetOf(LeavesOf(b)) == {} by {
        if LeavesOf(b) != [] {
          assert LeavesOf(b)[0] in SetOf(LeavesOf(b));
        }
      }
    }
    hide ValidateTxns, AllAdmissible, NoDup, LeavesOf, SetOf;
  }

  /** Every refusal by validation is one of these: the wrong root, the panic, or the first transaction
      that does not pass, for just the reason it does not. */
  lemma BlockRefusedExactly(env: Env, b: ChainBlock, store: Store, tree: set<Element>)
    requires ValidateBlock(env, b, store, tree).Err?
    ensures var error := ValidateBlock(env, b, store, tree).error;
      || (error.InvalidBlockRoot? && error.expected == b.body.rootHash
          && ExpectedRoot(env.root, LeavesOf(b), tree) == Some(error.got))
      || (error == Panicked && ExpectedRoot(env.root, LeavesOf(b), tree) == None)
      || exists i :: FirstRefused(env, b.body.txns, b.height, store, tree, map[], i, error)
  {
    hide ValidateTxns, FirstRefused, NoDup, AllAdmissible;
    var r := ValidateTxns(env, b.body.txns, b.height, store, tree, map[]);
    if r.Err? {
      var i := RefusedAt(env, b.body.txns, b.height, store, tree, map[]);
    } else {
      var error := ValidateBlock(env, b, store, tree).error;
      if error == Panicked {
        ValidationPanicsExactly(env, b, store, tree);
        assert LeavesOf(b) == [] ==> Fitting(tree, SetOf(LeavesOf(b))) == {};
      } else {
        WrongRootExactly(env, b, store, tree, error.got, error.expected);
      }
    }
  }
}
