/** A node over its whole life: commits, commits cut short, fast chunks, and loads. Which notes
    of stored blocks are in the tree. */
module Lifetime {
  import opened Basics
  import opened Wrappers
  import opened NotesTrees
  import opened Sequences
  import opened BlockCaching
  import opened Validation
  import opened Committing
  import opened ChainRuns
  import opened Recovery
  import opened FastSync
  import opened Samples

  /** `Interrupt` stops between the two writes of a commit; `Sync` is an accepted fast chunk. */
  datatype Event =
    | Commit(b: ChainBlock)
    | Interrupt(b: ChainBlock)
    | Sync(b: ChainBlock, elements: seq<Element>)
    | Reload

  /** What is on disk, with the blocks that the tree took since the last reset and the elements
      that fast sync brought. */
  datatype Life = Life(ledger: Ledger, applied: seq<ChainBlock>, synced: set<Element>)

  const BORN: Life := Life(GENESIS, [], {})

  /** A load that changes the tree without resetting it has applied the top block. */
  ghost function Reloaded(env: Env, life: Life, badBlocks: set<Height>): Life {
    var (r, l) := Load(env, life.ledger, badBlocks);
    if r.Genesis? then BORN
    else if l.tree == life.ledger.tree then life.(ledger := l)
    else life.(ledger := l, applied := life.applied + [l.store[MaxOf(l.store.Keys)]])
  }

  ghost function Step(env: Env, life: Life, e: Event, badBlocks: set<Height>): Life {
    match e
    case Commit(b) =>
      var (r, l) := Committed(life.ledger, b, false);
      life.(ledger := l, applied := if r.Ok? then life.applied + [b] else life.applied)
    case Interrupt(b) => life.(ledger := Interrupted(life.ledger, b))
    case Sync(b, elements) =>
      var added := Additions(b, elements, life.ledger.tree);
      life.(ledger := Ledger(life.ledger.store, life.ledger.tree + added), synced := life.synced + added)
    case Reload => Reloaded(env, life, badBlocks)
  }

  /** A commit is of a valid block; its height may be one that is stored already. */
  ghost predicate Possible(env: Env, life: Life, e: Event, badBlocks: set<Height>) {
    e.Reload? || (e.Sync? && Acceptable(env, e.b, e.elements, life.ledger.tree)) || (
      && !e.Sync?
      && ValidateBlock(env, e.b, life.ledger.store, life.ledger.tree).Ok?
      && e.b.height !in badBlocks)
  }

  ghost predicate PossibleLife(env: Env, life: Life, events: seq<Event>, badBlocks: set<Height>)
    decreases |events|
  {
    events == [] || (
      && Possible(env, life, events[0], badBlocks)
      && PossibleLife(env, Step(env, life, events[0], badBlocks), events[1..], badBlocks))
  }

  ghost function Lived(env: Env, life: Life, events: seq<Event>, badBlocks: set<Height>): Life
    decreases |events|
  {
    if events == [] then life else Lived(env, Step(env, life, events[0], badBlocks), events[1..], badBlocks)
  }

  /** The tree holds what fast sync brought and, apart from it, the notes of the applied blocks,
      each note once. */
  ghost predicate Accounted(life: Life, badBlocks: set<Height>) {
    && life.ledger.tree == life.synced + SetOf(ChainLeaves(life.applied))
    && life.synced !! SetOf(ChainLeaves(life.applied))
    && NoDup(ChainLeaves(life.applied))
    && life.ledger.store.Keys !! badBlocks
  }

  /** All applied blocks are stored. */
  ghost predicate IsStored(life: Life) {
    forall b :: b in life.applied ==> b.height in life.ledger.store && life.ledger.store[b.height] == b
  }

  ghost predicate ByHeight(l: Ledger) {
    forall h :: h in l.store ==> l.store[h].height == h
  }

  /** The event puts another block in the place of an applied one. */
  ghost predicate Overwrites(life: Life, e: Event) {
    (e.Commit? || e.Interrupt?) && exists a :: a in life.applied && a.height == e.b.height && a != e.b
  }

  lemma OneMoreApplied(applied: seq<ChainBlock>, b: ChainBlock)
    requires NoDup(ChainLeaves(applied)) && NoDup(LeavesOf(b)) && SetOf(LeavesOf(b)) !! SetOf(ChainLeaves(applied))
    ensures SetOf(ChainLeaves(applied + [b])) == SetOf(ChainLeaves(applied)) + SetOf(LeavesOf(b))
    ensures NoDup(ChainLeaves(applied + [b]))
  {
    hide LeavesOf, NoDup;
    var more := applied + [b];
    assert more[..|more| - 1] == applied && more[|more| - 1] == b;
    NoDupConcat(ChainLeaves(applied), LeavesOf(b));
    SetOfConcat(ChainLeaves(applied), LeavesOf(b));
  }

  lemma SlotsDistinctIsNoDup(s: seq<Element>)
    requires SlotsDistinct(s)
    ensures NoDup(s)
  {
  }

  /** Taking the notes of a block keeps the account. */
  lemma AppliedIsAccounted(life: Life, b: ChainBlock, l: Ledger, badBlocks: set<Height>)
    requires Accounted(life, badBlocks) && NoDup(LeavesOf(b)) && SetOf(LeavesOf(b)) !! life.ledger.tree
    requires l.tree == life.ledger.tree + SetOf(LeavesOf(b)) && l.store.Keys !! badBlocks
    ensures Accounted(life.(ledger := l, applied := life.applied + [b]), badBlocks)
  {
    OneMoreApplied(life.applied, b);
    hide LeavesOf, ChainLeaves, NoDup, SetOf;
  }

  /** The store is written whether or not the tree takes the notes. */
  lemma StoredEitherWay(l: Ledger, b: ChainBlock)
    requires SetOf(LeavesOf(b)) !! l.tree
    ensures Committed(l, b, false).1.store == l.store[b.height := b]
  {
  }

  lemma CommitKeepsAccount(env: Env, life: Life, b: ChainBlock, badBlocks: set<Height>)
    requires Accounted(life, badBlocks) && Possible(env, life, Commit(b), badBlocks)
    ensures Accounted(Step(env, life, Commit(b), badBlocks), badBlocks)
    ensures Committed(life.ledger, b, false).0 != Err(Panicked)
    ensures Committed(life.ledger, b, false).1.store == life.ledger.store[b.height := b]
  {
    hide LeavesOf, ChainLeaves, NoDup, Insertable, AllAdmissible, ValidateBlock, Committed, SetOf;
    var l := life.ledger;
    ValidatedBlocksCommit(env, l, b);
    BlockPassesExactly(env, b, l.store, l.tree);
    var after := Committed(l, b, false).1;
    StoredEitherWay(l, b);
    assert after.store.Keys == l.store.Keys + {b.height};
    if Committed(l, b, false).0.Ok? {
      AppliedIsAccounted(life, b, after, badBlocks);
    }
  }

  lemma InterruptKeepsAccount(env: Env, life: Life, b: ChainBlock, badBlocks: set<Height>)
    requires Accounted(life, badBlocks) && Possible(env, life, Interrupt(b), badBlocks)
    ensures Accounted(Step(env, life, Interrupt(b), badBlocks), badBlocks)
  {
    hide ValidateBlock, ChainLeaves, NoDup;
    assert Interrupted(life.ledger, b).store.Keys == life.ledger.store.Keys + {b.height};
  }

  lemma SyncKeepsAccount(env: Env, life: Life, b: ChainBlock, elements: seq<Element>, badBlocks: set<Height>)
    requires Accounted(life, badBlocks)
    ensures Accounted(Step(env, life, Sync(b, elements), badBlocks), badBlocks)
  {
    hide BlockElements, ChainLeaves, NoDup, SetOf;
  }

  /** A load leaves the disk as it is, applies the top block, or resets. */
  lemma LoadAppliesTheTop(env: Env, l: Ledger, badBlocks: set<Height>)
    requires l.store != map[] && l.store.Keys !! badBlocks
    ensures var (r, after) := Load(env, l, badBlocks);
      var top := l.store[MaxOf(l.store.Keys)];
      || (r.Genesis? && after == GENESIS)
      || (!r.Genesis? && after == l)
      || (!r.Genesis? && after == Ledger(l.store, l.tree + SetOf(LeavesOf(top)))
          && SlotsDistinct(LeavesOf(top)) && SetOf(LeavesOf(top)) !! l.tree)
  {
    assert MaxOf(l.store.Keys) !in badBlocks;
    hide LeavesOf, SlotsDistinct, Lsbs, MaxOf;
    var top := l.store[MaxOf(l.store.Keys)];
    assert forall x :: x in SetOf(LeavesOf(top)) && x in l.tree ==> x in SetOf(LeavesOf(top)) * l.tree;
  }

  lemma ReloadKeepsAccount(env: Env, life: Life, badBlocks: set<Height>)
    requires Accounted(life, badBlocks)
    ensures Accounted(Step(env, life, Reload, badBlocks), badBlocks)
  {
    var l := life.ledger;
    if l.store != map[] {
      LoadAppliesTheTop(env, l, badBlocks);
      var (r, after) := Load(env, l, badBlocks);
      var top := l.store[MaxOf(l.store.Keys)];
      hide Load, LeavesOf, SlotsDistinct, NoDup;
      if !r.Genesis? && after.tree != l.tree {
        SlotsDistinctIsNoDup(LeavesOf(top));
        AppliedIsAccounted(life, top, after, badBlocks);
      }
    }
  }

  /** Over any life: the tree is what fast sync brought and the notes of the blocks that it took,
      and no note is in two places of those. */
  lemma {:induction false} NotesOverALife(env: Env, life: Life, events: seq<Event>, badBlocks: set<Height>)
    requires Accounted(life, badBlocks) && PossibleLife(env, life, events, badBlocks)
    ensures Accounted(Lived(env, life, events, badBlocks), badBlocks)
    decreases |events|
  {
    hide Accounted, Possible, Step;
    if events != [] {
      match events[0] {
        case Commit(b) => CommitKeepsAccount(env, life, b, badBlocks);
        case Interrupt(b) => InterruptKeepsAccount(env, life, b, badBlocks);
        case Sync(b, elements) => SyncKeepsAccount(env, life, b, elements, badBlocks);
        case Reload => ReloadKeepsAccount(env, life, badBlocks);
      }
      NotesOverALife(env, Step(env, life, events[0], badBlocks), events[1..], badBlocks);
    }
  }

  /** A chunk can go back: any block without leaves that carries the present root matches, at
      whatever height, with no elements at all. What is committed after it may overwrite. */
  lemma OldBlocksAreAcceptable(env: Env, b: ChainBlock, tree: set<Element>)
    requires LeavesOf(b) == []
    ensures Acceptable(env, b, [], tree) <==> b.body.rootHash == env.root(tree)
    ensures Additions(b, [], tree) == {}
  {
    hide LeavesOf;
    var none: seq<Element> := [];
    assert SetOf(none) == {} && Lacking(none, tree) == {} && Fitting(tree, {}) == {};
    assert tree + {} == tree;
  }

  lemma StoredUnlessOverwritten(life: Life, b: ChainBlock, l: Ledger)
    requires IsStored(life) && ByHeight(life.ledger) && l.store == life.ledger.store[b.height := b]
    ensures IsStored(life.(ledger := l)) <==> !Overwrites(life, Interrupt(b))
    ensures IsStored(life.(ledger := l, applied := life.applied + [b])) <==> !Overwrites(life, Interrupt(b))
    ensures Overwrites(life, Commit(b)) <==> Overwrites(life, Interrupt(b))
    ensures ByHeight(l)
  {
    if Overwrites(life, Interrupt(b)) {
      var a :| a in life.applied && a.height == b.height && a != b;
      assert a in life.applied + [b];
    }
  }

  /** Exactly when an event keeps all applied blocks stored: when it overwrites none of them. */
  lemma StaysStoredExactly(env: Env, life: Life, e: Event, badBlocks: set<Height>)
    requires Accounted(life, badBlocks) && Possible(env, life, e, badBlocks)
    requires IsStored(life) && ByHeight(life.ledger)
    ensures var next := Step(env, life, e, badBlocks);
      (IsStored(next) <==> !Overwrites(life, e)) && ByHeight(next.ledger)
  {
    match e {
      case Commit(b) =>
        CommitKeepsAccount(env, life, b, badBlocks);
        StoredUnlessOverwritten(life, b, Committed(life.ledger, b, false).1);
        hide Committed, ValidateBlock, IsStored, ByHeight;
      case Interrupt(b) =>
        StoredUnlessOverwritten(life, b, Interrupted(life.ledger, b));
        hide ValidateBlock, IsStored, ByHeight;
      case Sync(b, elements) =>
      case Reload =>
        if life.ledger.store != map[] {
          LoadAppliesTheTop(env, life.ledger, badBlocks);
          assert MaxOf(life.ledger.store.Keys) in life.ledger.store;
          hide Load, LeavesOf, SlotsDistinct;
        }
    }
  }

  ghost predicate NothingOverwritten(env: Env, life: Life, events: seq<Event>, badBlocks: set<Height>)
    decreases |events|
  {
    events == [] || (
      && !Overwrites(life, events[0])
      && NothingOverwritten(env, Step(env, life, events[0], badBlocks), events[1..], badBlocks))
  }

  lemma OneEvent(env: Env, life: Life, events: seq<Event>, badBlocks: set<Height>)
    requires events != [] && PossibleLife(env, life, events, badBlocks)
    ensures PossibleLife(env, life, events[..1], badBlocks)
    ensures Lived(env, life, events[..1], badBlocks) == Step(env, life, events[0], badBlocks)
  {
    hide Possible, Step;
    assert events[..1][0] == events[0] && events[..1][1..] == [];
  }

  /** So over a life without such an event all applied blocks stay stored. */
  lemma {:induction false} StoredOverALife(env: Env, life: Life, events: seq<Event>, badBlocks: set<Height>)
    requires Accounted(life, badBlocks) && PossibleLife(env, life, events, badBlocks)
    requires IsStored(life) && ByHeight(life.ledger) && NothingOverwritten(env, life, events, badBlocks)
    ensures IsStored(Lived(env, life, events, badBlocks))
    decreases |events|
  {
    hide Accounted, Possible, Step, IsStored, ByHeight, Overwrites;
    if events != [] {
      StaysStoredExactly(env, life, events[0], badBlocks);
      var next := Step(env, life, events[0], badBlocks);
      OneEvent(env, life, events, badBlocks);
      NotesOverALife(env, life, events[..1], badBlocks);
      StoredOverALife(env, next, events[1..], badBlocks);
    }
  }

  lemma {:induction false} LeavesOfApplied(applied: seq<ChainBlock>, note: Element)
    ensures note in ChainLeaves(applied) <==> exists b :: b in applied && note in LeavesOf(b)
    decreases |applied|
  {
    hide LeavesOf;
    if applied != [] {
      var front, last := applied[..|applied| - 1], applied[|applied| - 1];
      LeavesOfApplied(front, note);
      assert applied == front + [last];
      assert forall b :: b in applied <==> b in front || b == last;
    }
  }

  /** From the first start, a note is in the tree exactly when fast sync brought it or a block
      that was applied has it, and then not both. */
  lemma StoredNotes(env: Env, events: seq<Event>, badBlocks: set<Height>, note: Element)
    requires PossibleLife(env, BORN, events, badBlocks)
    ensures var life := Lived(env, BORN, events, badBlocks);
      var isApplied := exists b :: b in life.applied && note in LeavesOf(b);
      && (note in life.ledger.tree <==> note in life.synced || isApplied)
      && !(note in life.synced && isApplied)
      && (NothingOverwritten(env, BORN, events, badBlocks) ==> IsStored(life))
  {
    assert ChainLeaves([]) == [] && SetOf<Element>([]) == {};
    NotesOverALife(env, BORN, events, badBlocks);
    if NothingOverwritten(env, BORN, events, badBlocks) {
      StoredOverALife(env, BORN, events, badBlocks);
    }
    var life := Lived(env, BORN, events, badBlocks);
    LeavesOfApplied(life.applied, note);
    hide PossibleLife, LeavesOf, NothingOverwritten;
  }

  /** A note of a valid block can be stored a second time exactly when the tree refused the block,
      whether or not its own slot is free: a block of that note alone is then valid, and stored
      beside it. The tree takes it if its slot is free. */
  lemma NotesAreStoredAgainExactly(env: Env, l: Ledger, b: ChainBlock, again: ChainBlock, note: Element)
    requires ValidateBlock(env, b, l.store, l.tree).Ok?
    requires note in LeavesOf(b) && LeavesOf(again) == [note] && again.height != b.height
    requires var stored := Committed(l, b, false).1;
      && again.body.rootHash == env.root(stored.tree + Fitting(stored.tree, {note}))
      && AllAdmissible(env, again.body.txns, again.height, stored.store)
    ensures var (r, stored) := Committed(l, b, false);
      && (ValidateBlock(env, again, stored.store, stored.tree).Ok? <==> r.Err?)
      && (r.Err? ==> var (r', after) := Committed(stored, again, false);
           && after.store == l.store[b.height := b][again.height := again]
           && (r'.Ok? <==> Lsb(note) !in Lsbs(l.tree))
           && (note in after.tree <==> r'.Ok?))
  {
    var (r, stored) := Committed(l, b, false);
    ValidatedBlocksCommit(env, l, b);
    BlockPassesExactly(env, b, l.store, l.tree);
    StoredEitherWay(l, b);
    BlockPassesExactly(env, again, stored.store, stored.tree);
    assert note in SetOf(LeavesOf(b));
    OneNote(stored.tree, note);
    hide ValidateBlock, LeavesOf, AllAdmissible, Lsb, Apart, Insertable, Fitting, Committed;
    if r.Err? {
      ValidatedBlocksCommit(env, stored, again);
      StoredEitherWay(stored, again);
    }
  }

  /** Such a block, after the first: it has another note of slot 1, which does not fit, and note 2,
      which does. Both are in two stored blocks in the end, of which the tree has taken note 2. */
  lemma StoredTwice(root: RootFunction)
    ensures
      var env := Trusting(root);
      var b, two, twin := Mint(2, root({1, 2}), [TWIN, 2]), Mint(3, root({1, 2}), [2]), Mint(3, root({1}), [TWIN]);
      var (r, stored) := Committed(First(root), b, false);
      && ValidateBlock(env, b, First(root).store, First(root).tree).Ok? && r == Err(Collision)
      && ValidateBlock(env, two, stored.store, stored.tree).Ok?
      && Committed(stored, two, false) == (Ok(Unit), Ledger(stored.store[3 := two], {1, 2}))
      && ValidateBlock(env, twin, stored.store, stored.tree).Ok?
      && Committed(stored, twin, false) == (Err(Collision), Ledger(stored.store[3 := twin], {1}))
  {
    hide ValidateBlock, LeavesOf, Committed, Mint, First, Fitting, Insertable, SetOf;
    FirstStore(root);
    var two: seq<Element> := [2];
    assert [TWIN] + two == [TWIN, 2] && [TWIN] + [] == [TWIN];
    SmallSets();
    TwinIsRefused(root, First(root), 2, root({1, 2}), two);
    var stored := Committed(First(root), Mint(2, root({1, 2}), [TWIN, 2]), false).1;
    TwinIsRefused(root, stored, 3, root({1}), []);
    NoteTwoIsTaken(root, stored, 3);
  }

  lemma LoadResetsExactly(env: Env, l: Ledger, b: ChainBlock, c: ChainBlock, badBlocks: set<Height>)
    requires c.height == b.height + 1 && c.height in l.store && b.height in l.store
    requires l.store[c.height] == c && l.store[b.height] == b && forall h :: h in l.store ==> h <= c.height
    ensures Load(env, l, badBlocks).0.Genesis? <==>
      env.root(l.tree) != b.body.rootHash && env.root(l.tree) != c.body.rootHash
    ensures Load(env, l, badBlocks).0.Genesis? ==> Load(env, l, badBlocks).1 == GENESIS
  {
    assert c.height in l.store.Keys && MaxOf(l.store.Keys) == c.height;
    hide Applied, LeavesOf, MaxOf;
  }

  /** Two refusals in a row: the next load resets store and tree exactly when neither header
      carries the root of the tree, that is, when both blocks had notes that would have fitted. */
  lemma TwoRefusalsReset(env: Env, l: Ledger, b: ChainBlock, c: ChainBlock, badBlocks: set<Height>)
    requires ValidateBlock(env, b, l.store, l.tree).Ok? && Committed(l, b, false).0.Err?
    requires var stored := Committed(l, b, false).1;
      ValidateBlock(env, c, stored.store, stored.tree).Ok? && Committed(stored, c, false).0.Err?
    requires c.height == b.height + 1 && Above(l, b.height)
    requires env.root(l.tree) == env.root(l.tree + Novel(l, b)) ==> Novel(l, b) == {}
    requires env.root(l.tree) == env.root(l.tree + Novel(l, c)) ==> Novel(l, c) == {}
    ensures var r := Load(env, Committed(Committed(l, b, false).1, c, false).1, badBlocks);
      && (r.0.Genesis? <==> Novel(l, b) != {} && Novel(l, c) != {})
      && (r.0.Genesis? ==> r.1 == GENESIS)
  {
    var stored := Committed(l, b, false).1;
    ValidatedBlocksCommit(env, l, b);
    ValidatedBlocksCommit(env, stored, c);
    BlockPassesExactly(env, b, l.store, l.tree);
    BlockPassesExactly(env, c, stored.store, stored.tree);
    StoredEitherWay(l, b);
    StoredEitherWay(stored, c);
    HeaderRoot(env, l, b);
    HeaderRoot(env, stored, c);
    assert l.tree + {} == l.tree;
    hide ValidateBlock, LeavesOf, AllAdmissible, NoDup, Committed, Applied, Insertable, Load, Fitting;
    assert Novel(stored, c) == Novel(l, c);
    LoadResetsExactly(env, Committed(stored, c, false).1, b, c, badBlocks);
  }

  /** Two such blocks after the first, where the root counts the notes. */
  lemma TwoRefusalsAtAnInput()
    ensures
      var env, b, c := Trusting(Counted), Mint(2, 2, [TWIN, 2]), Mint(3, 2, [TWIN, 3]);
      var (r, stored) := Committed(First(Counted), b, false);
      var (r', end) := Committed(stored, c, false);
      && ValidateBlock(env, b, First(Counted).store, First(Counted).tree).Ok? && r == Err(Collision)
      && ValidateBlock(env, c, stored.store, stored.tree).Ok? && r' == Err(Collision)
      && Load(env, end, {}) == (Genesis, GENESIS)
  {
    hide ValidateBlock, LeavesOf, Committed, Mint, Load, First, Counted, Fitting, Insertable, SetOf;
    var l, b, c := First(Counted), Mint(2, 2, [TWIN, 2]), Mint(3, 2, [TWIN, 3]);
    FirstStore(Counted);
    Counts();
    assert [TWIN] + [2] == [TWIN, 2] && [TWIN] + [3] == [TWIN, 3];
    TwinIsRefused(Counted, l, 2, 2, [2]);
    var stored := Committed(l, b, false).1;
    TwinIsRefused(Counted, stored, 3, 2, [3]);
    MintHeader(2, 2, [TWIN, 2]);
    MintHeader(3, 2, [TWIN, 3]);
    LoadResetsExactly(Trusting(Counted), Committed(stored, c, false).1, b, c, {});
  }

  lemma TwoEvents(env: Env, life: Life, e: Event, f: Event, badBlocks: set<Height>)
    ensures var next := Step(env, life, e, badBlocks);
      && (PossibleLife(env, life, [e, f], badBlocks) <==>
          Possible(env, life, e, badBlocks) && Possible(env, next, f, badBlocks))
      && Lived(env, life, [e, f], badBlocks) == Step(env, next, f, badBlocks)
  {
    hide Possible, Step;
    var next := Step(env, life, e, badBlocks);
    assert [e, f][1..] == [f] && [f][1..] == [];
    var end := Step(env, next, f, badBlocks);
    assert PossibleLife(env, end, [], badBlocks) && Lived(env, end, [], badBlocks) == end;
    assert PossibleLife(env, next, [f], badBlocks) <==> Possible(env, next, f, badBlocks);
    assert Lived(env, next, [f], badBlocks) == end;
  }

  /** After a fast chunk the enclosed block's predecessor need not be stored: a commit of it that
      is cut short is then not survived, whatever its height. */
  lemma SyncedThenInterrupted(
      env: Env, life: Life, b: ChainBlock, elements: seq<Element>, badBlocks: set<Height>)
    requires Acceptable(env, b, elements, life.ledger.tree) && b.height !in badBlocks
    requires NoDup(LeavesOf(b)) && AllAdmissible(env, b.body.txns, b.height, life.ledger.store)
    requires Above(life.ledger, b.height) && !HasPredecessor(life.ledger, b)
    requires var synced := Step(env, life, Sync(b, elements), badBlocks).ledger;
      env.root(synced.tree) == env.root(synced.tree + Novel(synced, b)) ==> Novel(synced, b) == {}
    ensures PossibleLife(env, life, [Sync(b, elements), Interrupt(b)], badBlocks)
    ensures var synced := Step(env, life, Sync(b, elements), badBlocks).ledger;
      var end := Lived(env, life, [Sync(b, elements), Interrupt(b)], badBlocks).ledger;
      Load(env, end, badBlocks).0 == LoadPanic <==> Novel(synced, b) != {}
  {
    hide Acceptable, Additions, ValidateBlock, LeavesOf, AllAdmissible, NoDup, Load, Novel, PossibleLife, Lived;
    var next := Step(env, life, Sync(b, elements), badBlocks);
    SyncedBlocksValidate(env, b, elements, life.ledger.tree, life.ledger.store);
    LoadFinishesTheCommit(env, next.ledger, b, badBlocks);
    TwoEvents(env, life, Sync(b, elements), Interrupt(b), badBlocks);
  }
}
