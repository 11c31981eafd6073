/** What `set` and the migration do to the agreement between blocks and indexes. */
module Indexes {
  import opened BlockStore
  import opened Keys
  import opened Wrappers

  /** Among the stored blocks and `b`, a hash names one block. */
  ghost predicate HashNamesBlock(t: Table, b: BlockRecord)
    requires WellTyped(t)
  {
    && (forall h :: Block(h) in t && t[Block(h)].block.hash == b.hash ==> t[Block(h)].block == b)
    && (forall h, g :: Block(h) in t && Block(g) in t && t[Block(h)].block.hash == t[Block(g)].block.hash ==> h == g)
  }

  /** What `set` writes under a key, if anything. */
  function Written(known: Option<Height64>, b: BlockRecord, k: Key): Option<Value> {
    match k
    case Block(h) => if h == b.height then Some(BlockValue(b)) else None
    case MaxHeight => if known.None? || b.height > known.value then Some(HeightValue(b.height)) else None
    case BlockHashToHeight(x) => if x == b.hash then Some(HeightValue(b.height)) else None
    case TxnByHash(_) => if k in TxnEntries(b.txns) then Some(TxnEntries(b.txns)[k]) else None
    case NonEmptyBlock(h) => if h == b.height && b.txns != [] then Some(BlockValue(b)) else None
    case PendingBlock => None
    case StoreVersion => None
  }

  lemma SetEntriesAt(known: Option<Height64>, b: BlockRecord, k: Key)
    ensures k in SetEntries(known, b) <==> Written(known, b, k).Some?
    ensures k in SetEntries(known, b) ==> SetEntries(known, b)[k] == Written(known, b, k).value
  {
  }

  /** `set` key by key. */
  lemma PutEntries(t: Table, b: BlockRecord)
    requires WellTyped(t)
    ensures WellTyped(Put(t, b))
    ensures forall k: Key :: k in Put(t, b) <==> k in t || Written(KnownMaxHeight(t), b, k).Some?
    ensures forall k: Key :: k in Put(t, b) ==>
      Put(t, b)[k] ==
        if Written(KnownMaxHeight(t), b, k).Some? then Written(KnownMaxHeight(t), b, k).value else t[k]
  {
    hide SetEntries, Written;
    SetEntriesWellTyped(KnownMaxHeight(t), b);
    forall k: Key
      ensures k in SetEntries(KnownMaxHeight(t), b) <==> Written(KnownMaxHeight(t), b, k).Some?
      ensures k in SetEntries(KnownMaxHeight(t), b) ==>
        SetEntries(KnownMaxHeight(t), b)[k] == Written(KnownMaxHeight(t), b, k).value
    {
      SetEntriesAt(KnownMaxHeight(t), b, k);
    }
  }

  lemma PutKeepsBase(t: Table, b: BlockRecord)
    requires BaseAgrees(t) && (Block(b.height) in t ==> t[Block(b.height)].block == b)
    ensures BaseAgrees(Put(t, b))
  {
    hide Put;
    PutEntries(t, b);
  }

  /** `set` holds the transactions of the new block and of every block it does not replace. */
  lemma PutHolds(t: Table, b: BlockRecord, tx: Txn)
    requires WellTyped(t) && WellTyped(Put(t, b))
    requires Block(b.height) in t ==> t[Block(b.height)].block == b
    ensures HoldsTxn(Put(t, b), tx) <==> HoldsTxn(t, tx) || tx in b.txns
  {
    hide Put;
    PutEntries(t, b);
    var u := Put(t, b);
    if HoldsTxn(t, tx) {
      var h :| Block(h) in t && tx in t[Block(h)].block.txns;
      assert Block(h) in u && tx in u[Block(h)].block.txns;
    }
    if tx in b.txns {
      assert Block(b.height) in u && tx in u[Block(b.height)].block.txns;
    }
    if HoldsTxn(u, tx) {
      var h :| Block(h) in u && tx in u[Block(h)].block.txns;
      assert h != b.height ==> Block(h) in t;
    }
  }

  lemma PutKeepsSound(t: Table, b: BlockRecord)
    requires Agrees(t) && (Block(b.height) in t ==> t[Block(b.height)].block == b)
    ensures WellTyped(Put(t, b)) && NewIndexesSound(Put(t, b))
  {
    hide Put, HoldsTxn, TxnEntries;
    PutEntries(t, b);
    var u := Put(t, b);
    forall x | TxnByHash(x) in u ensures HoldsTxn(u, u[TxnByHash(x)].txn) {
      PutHolds(t, b, u[TxnByHash(x)].txn);
    }
    forall h | NonEmptyBlock(h) in u
      ensures Block(h) in u && u[Block(h)] == u[NonEmptyBlock(h)] && u[Block(h)].block.txns != []
    {
    }
  }

  lemma AgreedIsTyped(t: Table)
    requires Agrees(t)
    ensures WellTyped(t)
  {
  }

  lemma PutKeepsComplete(t: Table, b: BlockRecord)
    requires Agrees(t) && (Block(b.height) in t ==> t[Block(b.height)].block == b)
    ensures WellTyped(Put(t, b)) && NewIndexesComplete(Put(t, b))
  {
    hide Put, HoldsTxn, TxnEntries, BaseAgrees, NewIndexesSound;
    AgreedIsTyped(t);
    PutEntries(t, b);
    var u := Put(t, b);
    forall tx | HoldsTxn(u, tx) ensures TxnByHash(tx.hash) in u {
      PutHolds(t, b, tx);
    }
    forall h | Block(h) in u && u[Block(h)].block.txns != [] ensures NonEmptyBlock(h) in u {
    }
  }

  /** `set` keeps every index equal to what the blocks imply, and adds just its block,
      when its height is new (or already holds this very block). */
  lemma PutKeepsAgreement(t: Table, b: BlockRecord)
    requires Agrees(t) && (Block(b.height) in t ==> t[Block(b.height)].block == b)
    ensures Agrees(Put(t, b))
  {
    PutKeepsBase(t, b);
    PutKeepsSound(t, b);
    PutKeepsComplete(t, b);
  }

  /** That proviso is exact: overwriting a height with another block leaves stale entries. */
  lemma PutAgreesExactly(t: Table, b: BlockRecord)
    requires Agrees(t) && HashNamesBlock(t, b)
    ensures Agrees(Put(t, b)) <==> Block(b.height) !in t || t[Block(b.height)].block == b
  {
    if Block(b.height) !in t || t[Block(b.height)].block == b {
      PutKeepsAgreement(t, b);
    } else {
      var prior := t[Block(b.height)].block;
      PutEntries(t, b);
      assert Put(t, b)[BlockHashToHeight(prior.hash)] == t[BlockHashToHeight(prior.hash)] == HeightValue(b.height);
    }
  }

  /** A run of `set` calls. */
  function PutAll(t: Table, bs: seq<BlockRecord>): Table {
    if bs == [] then t else Put(PutAll(t, bs[..|bs| - 1]), bs[|bs| - 1])
  }

  ghost predicate DistinctHeights(bs: seq<BlockRecord>) {
    forall i, j :: 0 <= i < j < |bs| ==> bs[i].height != bs[j].height
  }

  /** Index agreement over whole runs that write each height once. */
  lemma {:induction false} AgreementOverRuns(t: Table, bs: seq<BlockRecord>)
    requires Agrees(t) && DistinctHeights(bs)
    requires forall i :: 0 <= i < |bs| ==> Block(bs[i].height) !in t
    ensures Agrees(PutAll(t, bs))
    ensures forall h :: Block(h) in PutAll(t, bs) <==> Block(h) in t || exists i :: 0 <= i < |bs| && bs[i].height == h
    ensures forall i :: 0 <= i < |bs| ==> HasBlock(PutAll(t, bs), bs[i].height, bs[i])
    ensures forall h :: Block(h) in t ==> PutAll(t, bs)[Block(h)] == t[Block(h)]
    ensures forall k: Key :: k.PendingBlock? || k.StoreVersion? ==> (k in PutAll(t, bs) <==> k in t)
    ensures forall k: Key :: (k.PendingBlock? || k.StoreVersion?) && k in t ==> PutAll(t, bs)[k] == t[k]
  {
    hide Put, Agrees;
    if bs != [] {
      var front, b := bs[..|bs| - 1], bs[|bs| - 1];
      AgreementOverRuns(t, front);
      assert forall i :: 0 <= i < |front| ==> front[i] == bs[i];
      AgreedIsTyped(PutAll(t, front));
      PutKeepsAgreement(PutAll(t, front), b);
      PutEntries(PutAll(t, front), b);
    }
  }

  /** What the migration entries are, given the entries of all but the last block. */
  lemma {:induction false} NewEntriesAt(t: Table, hs: seq<Height64>, k: Key)
    requires WellTyped(t) && forall h :: h in hs ==> Block(h) in t
    ensures k in NewEntries(t, hs) ==>
      match k
      case TxnByHash(_) => NewEntries(t, hs)[k].TxnValue? && NewEntries(t, hs)[k].txn.hash == k.hash
        && HoldsTxn(t, NewEntries(t, hs)[k].txn)
      case NonEmptyBlock(h) => h in hs && t[Block(h)].block.txns != [] && NewEntries(t, hs)[k] == t[Block(h)]
      case _ => false
  {
    if hs != [] {
      var front, last := hs[..|hs| - 1], hs[|hs| - 1];
      var b := t[Block(last)].block;
      NewEntriesAt(t, front, k);
      assert last in hs && forall h :: h in front ==> h in hs;
      if k.TxnByHash? && k in TxnEntries(b.txns) {
        assert HoldsTxn(t, TxnEntries(b.txns)[k].txn);
      }
    }
  }

  /** No transaction and no non-empty block among the listed ones is missed. */
  lemma {:induction false} NewEntriesComplete(t: Table, hs: seq<Height64>, h: Height64)
    requires WellTyped(t) && (forall g :: g in hs ==> Block(g) in t) && h in hs
    ensures forall tx :: tx in t[Block(h)].block.txns ==> TxnByHash(tx.hash) in NewEntries(t, hs)
    ensures t[Block(h)].block.txns != [] ==> NonEmptyBlock(h) in NewEntries(t, hs)
  {
    var front, last := hs[..|hs| - 1], hs[|hs| - 1];
    assert hs == front + [last];
    if h != last {
      NewEntriesComplete(t, front, h);
    }
  }

  /** Key by key, the migrated table is the old one with the listed index entries over it. */
  lemma MigratedAt(t: Table, k: Key)
    requires WellTyped(t)
    ensures k in Migrated(t) <==> k in t || k in NewEntries(t, AscendingHeights(t)) || k.StoreVersion?
    ensures k in Migrated(t) ==>
      Migrated(t)[k] ==
        if k.StoreVersion? then VersionValue(1)
        else if k in NewEntries(t, AscendingHeights(t)) then NewEntries(t, AscendingHeights(t))[k]
        else t[k]
  {
  }

  /** The primary records and every unrelated record stay as they are. */
  lemma MigrationKeeps(t: Table, k: Key)
    requires WellTyped(t) && !k.TxnByHash? && !k.NonEmptyBlock? && !k.StoreVersion?
    ensures k in Migrated(t) <==> k in t
    ensures k in t ==> Migrated(t)[k] == t[k]
  {
    hide Migrated, NewEntries;
    MigratedAt(t, k);
    NewEntriesAt(t, AscendingHeights(t), k);
  }

  ghost predicate SameBlocks(t: Table, u: Table) {
    && (forall h :: Block(h) in t <==> Block(h) in u)
    && (forall h :: Block(h) in t ==> t[Block(h)] == u[Block(h)])
  }

  lemma SameBlocksHold(t: Table, u: Table, tx: Txn)
    requires WellTyped(t) && WellTyped(u) && SameBlocks(t, u)
    ensures HoldsTxn(t, tx) <==> HoldsTxn(u, tx)
  {
  }

  lemma MigratedTyped(t: Table)
    requires WellTyped(t)
    ensures WellTyped(Migrated(t)) && Version(Migrated(t)) == 1
  {
    hide Migrated, NewEntries;
    var m := Migrated(t);
    MigratedAt(t, StoreVersion);
    forall k: Key | k in m ensures Fits(k, m[k]) {
      MigratedAt(t, k);
      NewEntriesAt(t, AscendingHeights(t), k);
      if k.NonEmptyBlock? && k in NewEntries(t, AscendingHeights(t)) {
        assert Fits(Block(k.height), t[Block(k.height)]);
      }
    }
  }

  lemma MigratedBase(t: Table)
    requires BaseAgrees(t)
    ensures BaseAgrees(Migrated(t)) && SameBlocks(t, Migrated(t))
  {
    hide Migrated, NewEntries, Fits;
    var m := Migrated(t);
    MigratedTyped(t);
    forall k: Key | k.Block? || k.MaxHeight? || k.BlockHashToHeight?
      ensures (k in m <==> k in t) && (k in t ==> m[k] == t[k])
    {
      MigrationKeeps(t, k);
    }
  }

  lemma MigratedSound(t: Table)
    requires BaseAgrees(t) && NewIndexesSound(t)
    ensures WellTyped(Migrated(t)) && NewIndexesSound(Migrated(t))
  {
    hide Migrated, NewEntries, HoldsTxn;
    MigratedTyped(t);
    MigratedBase(t);
    var m := Migrated(t);
    forall x | TxnByHash(x) in m ensures HoldsTxn(m, m[TxnByHash(x)].txn) {
      SameBlocksHold(t, m, m[TxnByHash(x)].txn);
      MigratedAt(t, TxnByHash(x));
      NewEntriesAt(t, AscendingHeights(t), TxnByHash(x));
    }
    forall h | NonEmptyBlock(h) in m
      ensures Block(h) in m && m[Block(h)] == m[NonEmptyBlock(h)] && m[Block(h)].block.txns != []
    {
      MigratedAt(t, NonEmptyBlock(h));
      NewEntriesAt(t, AscendingHeights(t), NonEmptyBlock(h));
      MigrationKeeps(t, Block(h));
    }
  }

  lemma MigratedComplete(t: Table)
    requires BaseAgrees(t)
    ensures WellTyped(Migrated(t)) && NewIndexesComplete(Migrated(t))
  {
    hide Migrated, NewEntries;
    MigratedTyped(t);
    MigratedBase(t);
    var m := Migrated(t);
    forall tx | HoldsTxn(m, tx) ensures TxnByHash(tx.hash) in m {
      SameBlocksHold(t, m, tx);
      var h :| Block(h) in t && tx in t[Block(h)].block.txns;
      NewEntriesComplete(t, AscendingHeights(t), h);
      MigratedAt(t, TxnByHash(tx.hash));
    }
    forall h | Block(h) in m && m[Block(h)].block.txns != [] ensures NonEmptyBlock(h) in m {
      MigrationKeeps(t, Block(h));
      NewEntriesComplete(t, AscendingHeights(t), h);
      MigratedAt(t, NonEmptyBlock(h));
    }
  }

  /** Migrating a store, even one that an earlier migration left half indexed, makes all
      indexes agree with the blocks. `MigrationKeeps` says what it leaves alone. */
  lemma MigratedAgrees(t: Table)
    requires BaseAgrees(t) && NewIndexesSound(t)
    ensures Agrees(Migrated(t)) && Version(Migrated(t)) == 1
  {
    hide Migrated;
    MigratedTyped(t);
    MigratedBase(t);
    MigratedSound(t);
    MigratedComplete(t);
  }

  /** Among the stored blocks, block and transaction hashes each name one thing. */
  ghost predicate HashesName(t: Table)
    requires WellTyped(t)
  {
    && (forall h, g :: Block(h) in t && Block(g) in t && t[Block(h)].block.hash == t[Block(g)].block.hash ==> h == g)
    && (forall x, y :: HoldsTxn(t, x) && HoldsTxn(t, y) && x.hash == y.hash ==> x == y)
  }

  lemma HashLookupIsExact(t: Table, x: Hash32, h: Height64)
    requires Agrees(t) && HashesName(t)
    ensures BlockHashToHeight(x) in t && t[BlockHashToHeight(x)].height == h
      <==> Block(h) in t && t[Block(h)].block.hash == x
  {
    hide HoldsTxn, NewIndexesSound, NewIndexesComplete;
    assert BlockHashToHeight(x) in t ==> Fits(BlockHashToHeight(x), t[BlockHashToHeight(x)]);
  }

  lemma TxnLookupIsExact(t: Table, tx: Txn)
    requires Agrees(t) && HashesName(t)
    ensures TxnByHash(tx.hash) in t && t[TxnByHash(tx.hash)].txn == tx <==> HoldsTxn(t, tx)
  {
    hide HoldsTxn;
    assert TxnByHash(tx.hash) in t ==> Fits(TxnByHash(tx.hash), t[TxnByHash(tx.hash)]);
  }

  lemma HeightLookupsAreExact(t: Table, h: Height64)
    requires Agrees(t)
    ensures MaxHeight in t && t[MaxHeight].height == h <==> Block(h) in t && forall g: Height64 :: Block(g) in t ==> g <= h
    ensures NonEmptyBlock(h) in t <==> Block(h) in t && t[Block(h)].block.txns != []
  {
    hide HoldsTxn;
    assert MaxHeight in t ==> Fits(MaxHeight, t[MaxHeight]);
  }

  lemma MaxHeightsCoincide(t: Table, u: Table)
    requires BaseAgrees(t) && BaseAgrees(u) && SameBlocks(t, u)
    ensures MaxHeight in t <==> MaxHeight in u
    ensures MaxHeight in t ==> t[MaxHeight] == u[MaxHeight]
  {
  }

  lemma TxnsCoincide(t: Table, u: Table, x: Hash32)
    requires Agrees(t) && Agrees(u) && HashesName(t) && SameBlocks(t, u)
    ensures TxnByHash(x) in t <==> TxnByHash(x) in u
    ensures TxnByHash(x) in t ==> t[TxnByHash(x)] == u[TxnByHash(x)]
  {
    hide HoldsTxn, SameBlocks;
    var k := TxnByHash(x);
    if k in t {
      SameBlocksHold(t, u, t[k].txn);
      assert Fits(k, t[k]);
    }
    if k in u {
      SameBlocksHold(t, u, u[k].txn);
      assert Fits(k, u[k]);
    }
  }

  /** The blocks determine everything else: two stores that agree with the same blocks
      hold the same entries under every index key. */
  lemma AgreeingStoresCoincide(t: Table, u: Table, k: Key)
    requires Agrees(t) && Agrees(u) && HashesName(t) && SameBlocks(t, u)
    requires !k.PendingBlock? && !k.StoreVersion?
    ensures k in t <==> k in u
    ensures k in t ==> t[k] == u[k]
  {
    if k.TxnByHash? {
      TxnsCoincide(t, u, k.hash);
    } else if k.MaxHeight? {
      MaxHeightsCoincide(t, u);
    }
  }

  /** `part` is `full` without some version 1 entries and the version. */
  ghost predicate Stripped(full: Table, part: Table) {
    && (forall k: Key :: k in part ==> k in full && part[k] == full[k])
    && (forall k: Key :: k in full && k !in part ==> k.TxnByHash? || k.NonEmptyBlock? || k.StoreVersion?)
  }

  lemma StrippedBase(full: Table, part: Table)
    requires BaseAgrees(full) && Stripped(full, part)
    ensures BaseAgrees(part) && SameBlocks(full, part)
  {
    hide Fits;
    forall k: Key | k.Block? || k.MaxHeight? || k.BlockHashToHeight? ensures k in part <==> k in full {
    }
    assert WellTyped(part);
  }

  lemma BaseIsTyped(t: Table)
    requires BaseAgrees(t)
    ensures WellTyped(t)
  {
  }

  lemma StrippedIsSound(full: Table, part: Table)
    requires Agrees(full) && Stripped(full, part)
    ensures BaseAgrees(part) && NewIndexesSound(part) && SameBlocks(full, part)
  {
    hide BaseAgrees, HoldsTxn, SameBlocks, NewIndexesComplete;
    StrippedBase(full, part);
    AgreedIsTyped(full);
    BaseIsTyped(part);
    forall h | NonEmptyBlock(h) in part
      ensures Block(h) in part && part[Block(h)] == part[NonEmptyBlock(h)] && part[Block(h)].block.txns != []
    {
      assert Block(h) in full;
    }
    forall x | TxnByHash(x) in part ensures HoldsTxn(part, part[TxnByHash(x)].txn) {
      SameBlocksHold(full, part, full[TxnByHash(x)].txn);
    }
  }

  lemma VersionEntry(t: Table)
    requires Version(t) == 1
    ensures StoreVersion in t && t[StoreVersion] == VersionValue(1)
  {
  }

  /** Migration writes what `set` would have written: whatever version 1 entries a
      version 1 store is stripped of, migrating restores that very store. */
  lemma MigrationMatchesSet(full: Table, part: Table)
    requires Agrees(full) && HashesName(full) && Version(full) == 1 && Stripped(full, part)
    ensures Migrated(part) == full
  {
    hide Migrated, Agrees, BaseAgrees, NewIndexesSound, HashesName;
    StrippedIsSound(full, part);
    AgreedIsTyped(full);
    BaseIsTyped(part);
    MigratedAgrees(part);
    var m := Migrated(part);
    forall k: Key | !k.TxnByHash? && !k.NonEmptyBlock? && !k.StoreVersion?
      ensures (k in m <==> k in full) && (k in m ==> m[k] == full[k])
    {
      MigrationKeeps(part, k);
    }
    forall k: Key ensures (k in m <==> k in full) && (k in m ==> m[k] == full[k]) {
      if k.StoreVersion? {
        VersionEntry(m);
        VersionEntry(full);
      } else if !k.PendingBlock? {
        AgreeingStoresCoincide(full, m, k);
      }
    }
  }
}
