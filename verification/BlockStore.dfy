/** The block store: primary records, secondary indexes, and the migration that adds
    the newer indexes to an old store. */
module BlockStore {
  import opened Keys
  import Listing
  import opened Maps
  import opened Wrappers

  datatype Txn = Txn(hash: Hash32, body: nat)
  datatype BlockRecord = BlockRecord(height: Height64, hash: Hash32, txns: seq<Txn>)

  datatype Value =
    | BlockValue(block: BlockRecord)
    | HeightValue(height: Height64)
    | TxnValue(txn: Txn)
    | VersionValue(version: nat)

  /** The store's contents read by key rather than by encoded key. */
  type Table = map<Key, Value>

  lemma KeysInjective()
    ensures forall a, b :: Serialize(a) == Serialize(b) ==> a == b
  {
    forall a, b ensures Serialize(a) == Serialize(b) ==> a == b {
      KeyRoundTrip(a, b);
    }
  }

  ghost function Encode(t: Table): (db: Listing.Db<Value>)
    ensures forall k :: Serialize(k) in db <==> k in t
    ensures forall k :: k in t ==> db[Serialize(k)] == t[k]
    ensures Listing.KeysEncoded(db)
  {
    KeysInjective();
    map k | k in t :: Serialize(k) := t[k]
  }

  /** Writing a batch of entries is overlaying their table. */
  lemma EncodeOverlay(t: Table, u: Table)
    ensures Encode(t + u) == Encode(t) + Encode(u)
  {
    hide Serialize, Encode;
    forall b ensures b in Encode(t + u) <==> b in Encode(t) + Encode(u) {
      if b in Encode(t + u) || b in Encode(t) || b in Encode(u) {
        var k :| b == Serialize(k);
      }
    }
    forall b | b in Encode(t + u) ensures Encode(t + u)[b] == (Encode(t) + Encode(u))[b] {
      var k :| b == Serialize(k);
    }
  }

  predicate Fits(k: Key, v: Value) {
    match k
    case Block(h) => v.BlockValue? && v.block.height == h
    case NonEmptyBlock(h) => v.BlockValue? && v.block.height == h
    case PendingBlock => v.BlockValue?
    case MaxHeight => v.HeightValue?
    case BlockHashToHeight(_) => v.HeightValue?
    case TxnByHash(x) => v.TxnValue? && v.txn.hash == x
    case StoreVersion => v.VersionValue?
  }

  ghost predicate WellTyped(t: Table) {
    forall k :: k in t ==> Fits(k, t[k])
  }

  ghost predicate HasBlock(t: Table, h: Height64, b: BlockRecord) {
    Block(h) in t && t[Block(h)] == BlockValue(b)
  }

  /** The records every version keeps: the highest height and the hash index. */
  ghost predicate BaseAgrees(t: Table) {
    && WellTyped(t)
    && (MaxHeight in t <==> exists h :: Block(h) in t)
    && (MaxHeight in t ==> Block(t[MaxHeight].height) in t)
    && (forall h: Height64 :: Block(h) in t ==> h <= t[MaxHeight].height)
    && (forall h :: Block(h) in t ==> BlockHashToHeight(t[Block(h)].block.hash) in t)
    && (forall x :: BlockHashToHeight(x) in t ==>
          var h := t[BlockHashToHeight(x)].height; Block(h) in t && t[Block(h)].block.hash == x)
  }

  /** Some stored block contains the transaction. */
  ghost predicate HoldsTxn(t: Table, tx: Txn)
    requires WellTyped(t)
  {
    exists h :: Block(h) in t && tx in t[Block(h)].block.txns
  }

  /** The version 1 index entries that are present are true ones. */
  ghost predicate NewIndexesSound(t: Table)
    requires WellTyped(t)
  {
    && (forall x :: TxnByHash(x) in t ==> HoldsTxn(t, t[TxnByHash(x)].txn))
    && (forall h :: NonEmptyBlock(h) in t ==>
          Block(h) in t && t[Block(h)] == t[NonEmptyBlock(h)] && t[Block(h)].block.txns != [])
  }

  ghost predicate NewIndexesComplete(t: Table)
    requires WellTyped(t)
  {
    && (forall tx :: HoldsTxn(t, tx) ==> TxnByHash(tx.hash) in t)
    && (forall h :: Block(h) in t && t[Block(h)].block.txns != [] ==> NonEmptyBlock(h) in t)
  }

  /** Every index is what the stored blocks imply. */
  ghost predicate Agrees(t: Table) {
    BaseAgrees(t) && NewIndexesSound(t) && NewIndexesComplete(t)
  }

  function TxnEntries(txns: seq<Txn>): (t: Table)
    ensures forall k :: k in t ==> k.TxnByHash? && t[k].TxnValue? && t[k].txn.hash == k.hash && t[k].txn in txns
    ensures forall tx :: tx in txns ==> TxnByHash(tx.hash) in t
  {
    if txns == [] then map[] else
    var last := txns[|txns| - 1];
    assert txns == txns[..|txns| - 1] + [last];
    TxnEntries(txns[..|txns| - 1])[TxnByHash(last.hash) := TxnValue(last)]
  }

  /** Overlays the non-empty marker when the block has transactions. */
  function WithNonEmpty(t: Table, b: BlockRecord): Table {
    if b.txns == [] then t else t[NonEmptyBlock(b.height) := BlockValue(b)]
  }

  function WithMaxHeight(known: Option<Height64>, t: Table, h: Height64): Table {
    if known.None? || h > known.value then t[MaxHeight := HeightValue(h)] else t
  }

  function KnownMaxHeight(t: Table): Option<Height64> {
    if MaxHeight in t && t[MaxHeight].HeightValue? then Some(t[MaxHeight].height) else None
  }

  function PrimaryEntries(known: Option<Height64>, b: BlockRecord): Table {
    WithMaxHeight(known, map[Block(b.height) := BlockValue(b)], b.height)
      [BlockHashToHeight(b.hash) := HeightValue(b.height)]
  }

  /** The entries that `set` writes in one batch. */
  function SetEntries(known: Option<Height64>, b: BlockRecord): Table {
    WithNonEmpty(PrimaryEntries(known, b) + TxnEntries(b.txns), b)
  }

  lemma SetEntriesWellTyped(known: Option<Height64>, b: BlockRecord)
    ensures WellTyped(SetEntries(known, b))
  {
  }

  /** The table after `set`. */
  function Put(t: Table, b: BlockRecord): Table {
    t + SetEntries(KnownMaxHeight(t), b)
  }

  lemma EncodeEmpty()
    ensures Encode(map[]) == map[]
  {
  }

  lemma BatchPut(t: Table, k: Key, v: Value)
    ensures Encode(t[k := v]) == Encode(t)[Serialize(k) := v]
  {
    KeysInjective();
  }

  function Version(t: Table): nat {
    if StoreVersion in t && t[StoreVersion].VersionValue? then t[StoreVersion].version else 0
  }

  ghost function AscendingHeights(t: Table): (hs: seq<Height64>)
    ensures forall h :: h in hs <==> Block(h) in t
  {
    var hs := Listing.Heights(AllBlocks, Encode(t), Listing.Unbounded, Listing.Unbounded, Listing.LowestToHighest);
    Listing.HeightsElements(AllBlocks, Encode(t), Listing.Unbounded, Listing.Unbounded, Listing.LowestToHighest);
    hs
  }

  /** What listing all blocks returns. */
  lemma StoredItems(t: Table, items: seq<Listing.Item<Value>>)
    requires WellTyped(t)
    requires items == Listing.IntoIterator(
      Listing.MakeList(AllBlocks, Encode(t), Listing.Unbounded, Listing.Unbounded, Listing.LowestToHighest))
    ensures |items| == |AscendingHeights(t)|
    ensures forall i :: 0 <= i < |items| ==>
      items[i].1 == t[Block(AscendingHeights(t)[i])] && items[i].1.BlockValue?
  {
    var hs := AscendingHeights(t);
    Listing.ListIsExact(AllBlocks, Encode(t), Listing.Unbounded, Listing.Unbounded, Listing.LowestToHighest);
    forall i | 0 <= i < |items| ensures items[i].1 == t[Block(hs[i])] && items[i].1.BlockValue? {
      assert hs[i] in hs;
    }
  }

  /** The index entries of one block. */
  function IndexEntries(b: BlockRecord): Table {
    WithNonEmpty(TxnEntries(b.txns), b)
  }

  /** The entries the migration writes for the blocks at `hs`, in that order. */
  ghost function NewEntries(t: Table, hs: seq<Height64>): Table
    requires WellTyped(t) && forall h :: h in hs ==> Block(h) in t
  {
    if hs == [] then map[] else
    NewEntries(t, hs[..|hs| - 1]) + IndexEntries(t[Block(hs[|hs| - 1])].block)
  }

  lemma NewEntriesEmpty(t: Table)
    requires WellTyped(t)
    ensures t + NewEntries(t, []) == t
  {
  }

  lemma NewEntriesStep(t: Table, hs: seq<Height64>, i: nat)
    requires WellTyped(t) && i < |hs| && forall h :: h in hs ==> Block(h) in t
    ensures t + NewEntries(t, hs[..i + 1]) == (t + NewEntries(t, hs[..i])) + IndexEntries(t[Block(hs[i])].block)
  {
    assert hs[..i + 1][..i] == hs[..i];
    OverlayAssociative(t, NewEntries(t, hs[..i]), IndexEntries(t[Block(hs[i])].block));
  }

  ghost function Migrated(t: Table): Table
    requires WellTyped(t)
  {
    (t + NewEntries(t, AscendingHeights(t)))[StoreVersion := VersionValue(1)]
  }

  class Store {
    var db: Listing.Db<Value>
    ghost var table: Table

    ghost predicate Valid()
      reads this
    {
      db == Encode(table) && WellTyped(table)
    }

    constructor Create()
      ensures Valid() && table == map[StoreVersion := VersionValue(1)]
      ensures Agrees(table)
    {
      var k := Serialize(StoreVersion);
      db := map[k := VersionValue(1)];
      table := map[StoreVersion := VersionValue(1)];
      new;
      assert db == Encode(table);
    }

    method Get(h: Height64) returns (r: Option<BlockRecord>)
      requires Valid()
      ensures r == if Block(h) in table then Some(table[Block(h)].block) else None
    {
      var k := Serialize(Block(h));
      r := if k in db then Some(db[k].block) else None;
    }

    method GetMaxHeight() returns (r: Option<Height64>)
      requires Valid()
      ensures r == if MaxHeight in table then Some(table[MaxHeight].height) else None
    {
      var k := Serialize(MaxHeight);
      r := if k in db then Some(db[k].height) else None;
    }

    method GetBlockHeightByHash(x: Hash32) returns (r: Option<Height64>)
      requires Valid()
      ensures r == if BlockHashToHeight(x) in table then Some(table[BlockHashToHeight(x)].height) else None
    {
      var k := Serialize(BlockHashToHeight(x));
      r := if k in db then Some(db[k].height) else None;
    }

    method GetTxnByHash(x: Hash32) returns (r: Option<Txn>)
      requires Valid()
      ensures r == if TxnByHash(x) in table then Some(table[TxnByHash(x)].txn) else None
    {
      var k := Serialize(TxnByHash(x));
      r := if k in db then Some(db[k].txn) else None;
    }

    method GetStoreVersion() returns (v: nat)
      requires Valid()
      ensures v == Version(table)
    {
      var k := Serialize(StoreVersion);
      v := if k in db then db[k].version else 0;
    }

    method Write(batch: Listing.Db<Value>, ghost entries: Table)
      requires Valid() && batch == Encode(entries) && WellTyped(entries)
      modifies this
      ensures Valid() && table == old(table) + entries
    {
      EncodeOverlay(table, entries);
      db := db + batch;
      table := table + entries;
    }

    /** Adds the transaction entries of a block to a write batch. */
    method BatchTxns(batch: Listing.Db<Value>, ghost entries: Table, b: BlockRecord)
      returns (batch': Listing.Db<Value>)
      requires batch == Encode(entries)
      ensures batch' == Encode(entries + TxnEntries(b.txns))
    {
      hide Serialize, Encode;
      batch' := batch;
      OverlayEmpty(entries);
      for i := 0 to |b.txns|
        invariant batch' == Encode(entries + TxnEntries(b.txns[..i]))
      {
        var tx := b.txns[i];
        BatchPut(entries + TxnEntries(b.txns[..i]), TxnByHash(tx.hash), TxnValue(tx));
        OverlayPut(entries, TxnEntries(b.txns[..i]), TxnByHash(tx.hash), TxnValue(tx));
        batch' := batch'[Serialize(TxnByHash(tx.hash)) := TxnValue(tx)];
        assert b.txns[..i + 1][..i] == b.txns[..i];
      }
      assert b.txns[..|b.txns|] == b.txns;
    }

    /** The block record, the new maximum height if it is one, and the hash index. */
    method BatchPrimary(b: BlockRecord) returns (batch: Listing.Db<Value>)
      requires Valid()
      ensures batch == Encode(PrimaryEntries(KnownMaxHeight(table), b))
    {
      hide Serialize, Encode;
      EncodeEmpty();
      ghost var e := map[Block(b.height) := BlockValue(b)];
      BatchPut(map[], Block(b.height), BlockValue(b));
      batch := map[Serialize(Block(b.height)) := BlockValue(b)];

      var maxHeight := GetMaxHeight();
      if maxHeight.None? || b.height > maxHeight.value {
        BatchPut(e, MaxHeight, HeightValue(b.height));
        batch := batch[Serialize(MaxHeight) := HeightValue(b.height)];
        e := e[MaxHeight := HeightValue(b.height)];
      }

      BatchPut(e, BlockHashToHeight(b.hash), HeightValue(b.height));
      batch := batch[Serialize(BlockHashToHeight(b.hash)) := HeightValue(b.height)];
    }

    method Set(b: BlockRecord)
      requires Valid()
      modifies this
      ensures Valid() && table == Put(old(table), b)
    {
      hide Serialize, Encode, TxnEntries, PrimaryEntries;
      ghost var known := KnownMaxHeight(table);
      var batch := BatchPrimary(b);
      batch := BatchTxns(batch, PrimaryEntries(known, b), b);
      if b.txns != [] {
        BatchPut(PrimaryEntries(known, b) + TxnEntries(b.txns), NonEmptyBlock(b.height), BlockValue(b));
        batch := batch[Serialize(NonEmptyBlock(b.height)) := BlockValue(b)];
      }
      SetEntriesWellTyped(known, b);
      Write(batch, SetEntries(known, b));
    }

    method SetStoreVersion(v: nat)
      requires Valid()
      modifies this
      ensures Valid() && table == old(table)[StoreVersion := VersionValue(v)]
    {
      BatchPut(table, StoreVersion, VersionValue(v));
      db := db[Serialize(StoreVersion) := VersionValue(v)];
      table := table[StoreVersion := VersionValue(v)];
    }

    /** Writes the index entries of one already stored block. */
    method IndexBlock(b: BlockRecord)
      requires Valid()
      modifies this
      ensures Valid() && table == old(table) + IndexEntries(b)
    {
      hide Serialize, Encode, TxnEntries;
      EncodeEmpty();
      OverlayEmpty(TxnEntries(b.txns));
      var batch := BatchTxns(map[], map[], b);
      if b.txns != [] {
        BatchPut(TxnEntries(b.txns), NonEmptyBlock(b.height), BlockValue(b));
        batch := batch[Serialize(NonEmptyBlock(b.height)) := BlockValue(b)];
      }
      Write(batch, IndexEntries(b));
    }

    method MigrateToV1()
      requires Valid()
      modifies this
      ensures Valid() && table == Migrated(old(table))
    {
      hide Serialize, Encode, TxnEntries, IndexEntries, NewEntries, AscendingHeights;
      var items := Listing.Iterate(
        Listing.MakeList(AllBlocks, db, Listing.Unbounded, Listing.Unbounded, Listing.LowestToHighest));
      ghost var hs, start := AscendingHeights(table), table;
      StoredItems(table, items);
      NewEntriesEmpty(start);
      for i := 0 to |items|
        invariant Valid()
        invariant table == start + NewEntries(start, hs[..i])
      {
        NewEntriesStep(start, hs, i);
        IndexBlock(items[i].1.block);
      }
      assert hs[..|hs|] == hs;
      SetStoreVersion(1);
    }

    /** `Err` carries the unknown version. */
    method Migrate() returns (r: Result<(), nat>)
      requires Valid()
      modifies this
      ensures Valid()
      ensures Version(old(table)) == 0 ==> r == Ok(()) && table == Migrated(old(table))
      ensures Version(old(table)) == 1 ==> r == Ok(()) && table == old(table)
      ensures Version(old(table)) > 1 ==> r == Err(Version(old(table))) && table == old(table)
    {
      while true
        invariant Valid()
        invariant table == old(table) || (Version(old(table)) == 0 && table == Migrated(old(table)))
        decreases if Version(table) == 0 then 1 else 0
      {
        var version := GetStoreVersion();
        if version == 0 {
          MigrateToV1();
        } else if version == 1 {
          return Ok(());
        } else {
          return Err(version);
        }
      }
    }
  }
}
