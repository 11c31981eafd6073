/** The loop that commits cached blocks, over cache, validation, store and tree together. */
module CatchUp {
  import opened Basics
  import opened Wrappers
  import opened Sequences
  import opened NotesTrees
  import opened BlockCaching
  import opened Validation
  import opened Committing
  import opened ChainRuns
  import opened FastSync
  import opened Samples

  /** Who may sign a block is not looked into; bad blocks are waved through. */
  datatype Rules = Rules(env: Env, signed: ChainBlock -> bool, badBlocks: set<Height>)

  function Checked(rules: Rules, b: ChainBlock, l: Ledger): Outcome {
    if b.height in rules.badBlocks then Ok(Unit) else
    if !rules.signed(b) then Err(InvalidSignature) else
    ValidateBlock(rules.env, b, l.store, l.tree)
  }

  /** One round: no next block, a refused one dropped, one on which validation panics, one taken,
      or one the tree refuses. */
  datatype Round =
    | Idle
    | Dropped(b: ChainBlock)
    | Panics(b: ChainBlock)
    | Took(b: ChainBlock)
    | Stuck(b: ChainBlock, error: Error)

  predicate GoesOn(r: Round) {
    r.Dropped? || r.Took?
  }

  type ChainCache = Cache<BlockState>

  ghost function Next(c: ChainCache): ChainBlock
    requires c.Sound() && c.height + 1 in c.index
  {
    c.blocks[c.index[c.height + 1]]
  }

  ghost predicate NextIs(c: ChainCache, b: ChainBlock) {
    c.Sound() && c.height + 1 in c.index && Next(c) == b
  }

  ghost function RoundOf(rules: Rules, l: Ledger, c: ChainCache): (Round, Ledger, ChainCache)
    requires c.Sound()
  {
    if c.height + 1 !in c.index then (Idle, l, c) else
    var b := Next(c);
    if Checked(rules, b, l) == Err(Panicked) then (Panics(b), l, c) else
    if Checked(rules, b, l).Err? then (Dropped(b), l, c.Removed(b.hash)) else
    var (r, after) := Committed(l, b, b.height in rules.badBlocks);
    (if r.Ok? then Took(b) else Stuck(b, r.error), after, c.Confirmed(b.height))
  }

  /** The heights still to be looked at. */
  ghost function Pending(c: ChainCache): set<Height> {
    set k | k in c.index && k > c.height
  }

  lemma RoundKeepsSound(rules: Rules, l: Ledger, c: ChainCache)
    requires c.Sound()
    ensures RoundOf(rules, l, c).2.Sound()
    ensures GoesOn(RoundOf(rules, l, c).0) ==> Pending(RoundOf(rules, l, c).2) < Pending(c)
    ensures RoundOf(rules, l, c).0.Took? ==> RoundOf(rules, l, c).2.height == c.height + 1
    ensures RoundOf(rules, l, c).0.Dropped? ==> RoundOf(rules, l, c).2.height == c.height
  {
    if c.height + 1 in c.index {
      var b := Next(c);
      c.RemovedIsSound(b.hash);
      c.ConfirmedIsSound(b.height);
      assert c.height + 1 in Pending(c);
    }
  }

  lemma EndChangesNothing(rules: Rules, l: Ledger, c: ChainCache)
    requires c.Sound() && (RoundOf(rules, l, c).0.Idle? || RoundOf(rules, l, c).0.Panics?)
    ensures RoundOf(rules, l, c).1 == l && RoundOf(rules, l, c).2 == c
  {
  }

  datatype Progress = Progress(ledger: Ledger, cache: ChainCache, committed: seq<ChainBlock>, stuck: Option<Error>)

  ghost function Run(rules: Rules, l: Ledger, c: ChainCache): Progress
    requires c.Sound()
    decreases Pending(c)
  {
    RoundKeepsSound(rules, l, c);
    var (round, l', c') := RoundOf(rules, l, c);
    match round
    case Idle => Progress(l, c, [], None)
    case Panics(_) => Progress(l, c, [], Some(Panicked))
    case Dropped(_) => Run(rules, l', c')
    case Took(b) =>
      var rest := Run(rules, l', c');
      rest.(committed := [b] + rest.committed)
    case Stuck(_, error) => Progress(l', c', [], Some(error))
  }

  ghost function Ahead(done: seq<ChainBlock>, p: Progress): Progress {
    p.(committed := done + p.committed)
  }

  lemma RunStep(rules: Rules, l: Ledger, c: ChainCache, done: seq<ChainBlock>)
    requires c.Sound()
    ensures var (round, l', c') := RoundOf(rules, l, c);
      && c'.Sound() && (GoesOn(round) ==> Pending(c') < Pending(c))
      && Ahead(done, Run(rules, l, c)) ==
        match round
        case Idle => Progress(l', c', done, None)
        case Panics(_) => Progress(l', c', done, Some(Panicked))
        case Dropped(_) => Ahead(done, Run(rules, l', c'))
        case Took(b) => Ahead(done + [b], Run(rules, l', c'))
        case Stuck(_, error) => Progress(l', c', done, Some(error))
  {
    RoundKeepsSound(rules, l, c);
    if RoundOf(rules, l, c).0.Idle? || RoundOf(rules, l, c).0.Panics? {
      EndChangesNothing(rules, l, c);
    }
    hide RoundOf, Pending, Cache.Sound;
    var (round, l', c') := RoundOf(rules, l, c);
    if round.Took? {
      var rest := Run(rules, l', c').committed;
      assert done + ([round.b] + rest) == done + [round.b] + rest;
    }
  }

  lemma AheadOfNothing(p: Progress)
    ensures Ahead([], p) == p
  {
  }

  class Ticker {
    const shared: NodeShared
    const blockCache: BlockCache<BlockState>

    constructor (shared: NodeShared, blockCache: BlockCache<BlockState>)
      ensures this.shared == shared && this.blockCache == blockCache
    {
      this.shared, this.blockCache := shared, blockCache;
    }

    method Round(rules: Rules) returns (r: Round)
      requires blockCache.State().Sound() && rules.badBlocks == shared.badBlocks
      modifies shared, shared.notesTree, blockCache
      ensures (r, shared.State(), blockCache.State())
           == RoundOf(rules, old(shared.State()), old(blockCache.State()))
    {
      hide ValidateBlock, Committed, Cache.Confirmed, Cache.Removed;
      var next := blockCache.GetNextCommitBlock();
      if next.None? {
        return Idle;
      }
      var b := next.value;
      var valid: Outcome := Ok(Unit);
      if b.height !in rules.badBlocks {
        if !rules.signed(b) {
          valid := Err(InvalidSignature);
        } else {
          valid := Validate(rules.env, b, shared.store, shared.notesTree);
        }
      }
      if valid == Err(Panicked) {
        return Panics(b);
      }
      if valid.Err? {
        blockCache.Remove(b.hash);
        return Dropped(b);
      }
      blockCache.Confirm(b.height);
      var committed := shared.CommitProposal(b);
      return if committed.Ok? then Took(b) else Stuck(b, committed.error);
    }

    /** Commits until no next block is cached, validation panics on one, or the tree refuses one;
        it always ends. */
    method CommitPending(rules: Rules) returns (committed: seq<ChainBlock>, stuck: Option<Error>)
      requires blockCache.State().Sound() && rules.badBlocks == shared.badBlocks
      modifies shared, shared.notesTree, blockCache
      ensures blockCache.State().Sound()
      ensures Progress(shared.State(), blockCache.State(), committed, stuck)
           == Run(rules, old(shared.State()), old(blockCache.State()))
    {
      hide Run, RoundOf, Pending, Cache.Sound, Ahead;
      committed, stuck := [], None;
      ghost var all := Run(rules, shared.State(), blockCache.State());
      AheadOfNothing(all);
      while true
        invariant blockCache.State().Sound()
        invariant all == Ahead(committed, Run(rules, shared.State(), blockCache.State()))
        decreases Pending(blockCache.State())
      {
        RunStep(rules, shared.State(), blockCache.State(), committed);
        var round := Round(rules);
        match round {
          case Idle => return;
          case Dropped(_) =>
          case Panics(_) => stuck := Some(Panicked); return;
          case Took(b) => committed := committed + [b];
          case Stuck(_, error) => stuck := Some(error); return;
        }
      }
    }
  }

  /** What the run took, block by block, counting a bad block as taken without validation. */
  ghost predicate Taken(rules: Rules, l: Ledger, bs: seq<ChainBlock>)
    decreases |bs|
  {
    bs == [] || (
      && Checked(rules, bs[0], l).Ok?
      && Committed(l, bs[0], bs[0].height in rules.badBlocks).0.Ok?
      && Taken(rules, Committed(l, bs[0], bs[0].height in rules.badBlocks).1, bs[1..]))
  }

  ghost function TakenAfter(rules: Rules, l: Ledger, bs: seq<ChainBlock>): Ledger
    decreases |bs|
  {
    if bs == [] then l else TakenAfter(rules, Committed(l, bs[0], bs[0].height in rules.badBlocks).1, bs[1..])
  }

  lemma CheckedBlocksNeverPanic(rules: Rules, b: ChainBlock, l: Ledger)
    requires Checked(rules, b, l).Ok?
    ensures Committed(l, b, b.height in rules.badBlocks).0 != Err(Panicked)
    ensures Committed(l, b, b.height in rules.badBlocks).0.Err? ==>
      && Committed(l, b, b.height in rules.badBlocks).0 == Err(Collision)
      && Committed(l, b, b.height in rules.badBlocks).1.tree == l.tree
  {
    hide ValidateBlock, LeavesOf;
    if b.height !in rules.badBlocks {
      ValidatedBlocksCommit(rules.env, l, b);
    }
  }

  /** What a round says of the block it was about. */
  lemma RoundFacts(rules: Rules, l: Ledger, c: ChainCache)
    requires c.Sound()
    ensures var (round, l', c') := RoundOf(rules, l, c);
      match round
      case Idle => l' == l && c' == c && c.height + 1 !in c.index
      case Dropped(_) => l' == l && c'.height == c.height
      case Panics(b) => l' == l && c' == c && NextIs(c, b) && Checked(rules, b, l) == Err(Panicked)
      case Took(b) => (
        && b.height == c'.height == c.height + 1 && Checked(rules, b, l).Ok?
        && Committed(l, b, b.height in rules.badBlocks).0.Ok?
        && l' == Committed(l, b, b.height in rules.badBlocks).1)
      case Stuck(b, error) => (
        && b.height == c'.height == c.height + 1 && Checked(rules, b, l).Ok?
        && Committed(l, b, b.height in rules.badBlocks) == (Err(error), l'))
  {
    hide Committed, Checked;
  }

  /** What is asked of the next block: bad blocks need neither a signature nor to be valid. */
  predicate Passes(rules: Rules, b: ChainBlock, l: Ledger) {
    b.height in rules.badBlocks || (rules.signed(b) && ValidateBlock(rules.env, b, l.store, l.tree).Ok?)
  }

  predicate PanicsOn(rules: Rules, b: ChainBlock, l: Ledger) {
    && b.height !in rules.badBlocks && rules.signed(b)
    && ValidateBlock(rules.env, b, l.store, l.tree) == Err(Panicked)
  }

  /** What the tree takes of a block: all its leaves, or for a bad block those not there yet. */
  function Batched(rules: Rules, b: ChainBlock, l: Ledger): seq<Element> {
    if b.height in rules.badBlocks then Outside(LeavesOf(b), l.tree) else LeavesOf(b)
  }

  lemma PassedBlocksCommit(rules: Rules, b: ChainBlock, l: Ledger)
    requires Passes(rules, b, l)
    ensures Committed(l, b, b.height in rules.badBlocks) ==
      if Insertable(Batched(rules, b, l), l.tree)
      then (Ok(Unit), Ledger(l.store[b.height := b], l.tree + SetOf(LeavesOf(b))))
      else (Err(Collision), Ledger(l.store[b.height := b], l.tree))
  {
    if b.height in rules.badBlocks {
      var unseen := Outside(LeavesOf(b), l.tree);
      assert l.tree + SetOf(unseen) == l.tree + SetOf(LeavesOf(b));
    } else {
      BlockPassesExactly(rules.env, b, l.store, l.tree);
    }
    hide ValidateBlock, LeavesOf;
  }

  /** Exactly how a round goes, by the next block: dropped if it is not bad, and unsigned or refused;
      the panic if validation panics on it; confirmed and committed if the tree takes it, and
      confirmed and stored if not. */
  lemma RoundExactly(rules: Rules, l: Ledger, c: ChainCache)
    requires c.Sound()
    ensures RoundOf(rules, l, c).0 == Idle <==> c.height + 1 !in c.index
    ensures forall b :: NextIs(c, b) ==>
      var (round, l', c') := RoundOf(rules, l, c);
      && (round == Panics(b) <==> PanicsOn(rules, b, l))
      && (round == Dropped(b) <==> !Passes(rules, b, l) && !PanicsOn(rules, b, l))
      && (round == Took(b) <==> Passes(rules, b, l) && Insertable(Batched(rules, b, l), l.tree))
      && (round == Stuck(b, Collision) <==> Passes(rules, b, l) && !Insertable(Batched(rules, b, l), l.tree))
      && l'.store == (if Passes(rules, b, l) then l.store[b.height := b] else l.store)
      && l'.tree == (if round.Took? then l.tree + SetOf(LeavesOf(b)) else l.tree)
      && c'.height == (if Passes(rules, b, l) then c.height + 1 else c.height)
      && (c.height + 1 in c'.index <==> !round.Dropped?)
  {
    hide ValidateBlock, LeavesOf, Insertable, Committed;
    if c.height + 1 in c.index && Passes(rules, Next(c), l) {
      PassedBlocksCommit(rules, Next(c), l);
    }
  }

  /** The block passes, is stored, and shares a slot. */
  ghost predicate Collides(rules: Rules, l: Ledger, b: ChainBlock, end: Ledger) {
    && Checked(rules, b, l).Ok? && end.tree == l.tree
    && Committed(l, b, b.height in rules.badBlocks) == (Err(Collision), end)
  }

  /** Blocks of successive heights from the confirmed one on, each checked on the state it
      met. Then no next block is cached; or validation panics on it, and nothing else changes; or
      it is confirmed and stored, but its notes share a slot. */
  ghost predicate IsCatchUp(rules: Rules, l: Ledger, c: ChainCache, p: Progress) {
    && Taken(rules, l, p.committed)
    && (forall i :: 0 <= i < |p.committed| ==> p.committed[i].height == c.height + 1 + i)
    && p.cache.Sound()
    && var after := TakenAfter(rules, l, p.committed);
      match p.stuck
      case None =>
        p.ledger == after && p.cache.height == c.height + |p.committed| && p.cache.height + 1 !in p.cache.index
      case Some(Panicked) =>
        && p.ledger == after && p.cache.height == c.height + |p.committed| && p.cache.height + 1 in p.cache.index
        && Checked(rules, Next(p.cache), after) == Err(Panicked)
      case Some(error) =>
        && error == Collision && p.cache.height == c.height + |p.committed| + 1
        && exists b: ChainBlock :: b.height == p.cache.height && Collides(rules, after, b, p.ledger)
  }

  lemma TookExtends(rules: Rules, l: Ledger, c: ChainCache, b: ChainBlock, l': Ledger, c': ChainCache, rest: Progress)
    requires b.height == c'.height == c.height + 1 && Checked(rules, b, l).Ok?
    requires Committed(l, b, b.height in rules.badBlocks).0.Ok? && l' == Committed(l, b, b.height in rules.badBlocks).1
    requires IsCatchUp(rules, l', c', rest)
    ensures IsCatchUp(rules, l, c, rest.(committed := [b] + rest.committed))
  {
    hide Checked, Committed, Cache.Sound, Next, Collides;
    assert ([b] + rest.committed)[1..] == rest.committed;
  }

  lemma RunUnfolds(rules: Rules, l: Ledger, c: ChainCache)
    requires c.Sound()
    ensures var (round, l', c') := RoundOf(rules, l, c);
      && c'.Sound() && (GoesOn(round) ==> Pending(c') < Pending(c))
      && Run(rules, l, c) ==
        match round
        case Idle => Progress(l', c', [], None)
        case Panics(_) => Progress(l', c', [], Some(Panicked))
        case Dropped(_) => Run(rules, l', c')
        case Took(b) => Run(rules, l', c').(committed := [b] + Run(rules, l', c').committed)
        case Stuck(_, error) => Progress(l', c', [], Some(error))
  {
    RoundKeepsSound(rules, l, c);
    if RoundOf(rules, l, c).0.Idle? || RoundOf(rules, l, c).0.Panics? {
      EndChangesNothing(rules, l, c);
    }
    hide RoundOf, Pending, Cache.Sound;
  }

  /** Nothing committed: at rest, or stuck at once. */
  lemma NothingCommitted(rules: Rules, l: Ledger, c: ChainCache, p: Progress)
    requires p.committed == [] && p.cache.Sound()
    requires match p.stuck
      case None => p.ledger == l && p.cache.height == c.height && c.height + 1 !in p.cache.index
      case Some(Panicked) => p.ledger == l && p.cache == c && c.height + 1 in c.index
        && Checked(rules, Next(c), l) == Err(Panicked)
      case Some(error) =>
        && error == Collision && p.cache.height == c.height + 1
        && exists b: ChainBlock :: b.height == p.cache.height && Collides(rules, l, b, p.ledger)
    ensures IsCatchUp(rules, l, c, p)
  {
    hide Cache.Sound, Checked, Collides;
  }

  lemma SameConfirmedHeight(rules: Rules, l: Ledger, c: ChainCache, c': ChainCache, p: Progress)
    requires c.height == c'.height && IsCatchUp(rules, l, c', p)
    ensures IsCatchUp(rules, l, c, p)
  {
    hide Cache.Sound, Taken, TakenAfter, Checked, Next, Collides;
  }

  /** Catching up ends, and the double-spend panic is never reached. */
  lemma {:induction false} RunCommitsAChain(rules: Rules, l: Ledger, c: ChainCache)
    requires c.Sound()
    ensures IsCatchUp(rules, l, c, Run(rules, l, c))
    decreases Pending(c)
  {
    hide RoundOf, Run, IsCatchUp, Committed, Checked, Pending, Cache.Sound;
    RunUnfolds(rules, l, c);
    RoundFacts(rules, l, c);
    var (round, l', c') := RoundOf(rules, l, c);
    match round {
      case Idle =>
        NothingCommitted(rules, l, c, Run(rules, l, c));
      case Panics(b) =>
        NothingCommitted(rules, l, c, Run(rules, l, c));
      case Dropped(_) =>
        RunCommitsAChain(rules, l', c');
        SameConfirmedHeight(rules, l, c, c', Run(rules, l', c'));
      case Took(b) =>
        RunCommitsAChain(rules, l', c');
        TookExtends(rules, l, c, b, l', c', Run(rules, l', c'));
      case Stuck(b, _) =>
        CheckedBlocksNeverPanic(rules, b, l);
        assert Collides(rules, l, b, l');
        NothingCommitted(rules, l, c, Run(rules, l, c));
    }
  }

  lemma {:induction false} TakenPassed(rules: Rules, l: Ledger, bs: seq<ChainBlock>, i: nat)
    requires Taken(rules, l, bs) && i < |bs|
    ensures Passes(rules, bs[i], TakenAfter(rules, l, bs[..i]))
    decreases i
  {
    hide ValidateBlock, Committed;
    if i > 0 {
      TakenPassed(rules, Committed(l, bs[0], bs[0].height in rules.badBlocks).1, bs[1..], i - 1);
      assert bs[..i][1..] == bs[1..][..i - 1];
    }
  }

  /** So each block that the loop commits is bad, or signed and valid on the ledger it met. */
  lemma CommittedArePassed(rules: Rules, l: Ledger, c: ChainCache, i: nat)
    requires c.Sound() && i < |Run(rules, l, c).committed|
    ensures var bs := Run(rules, l, c).committed;
      var met := TakenAfter(rules, l, bs[..i]);
      bs[i].height !in rules.badBlocks ==>
        rules.signed(bs[i]) && ValidateBlock(rules.env, bs[i], met.store, met.tree).Ok?
  {
    hide Run, Taken, TakenAfter, ValidateBlock;
    RunCommitsAChain(rules, l, c);
    TakenPassed(rules, l, Run(rules, l, c).committed, i);
  }

  lemma TakenNothing(rules: Rules, l: Ledger)
    ensures TakenAfter(rules, l, []) == l
  {
  }

  lemma TakenStep(rules: Rules, l: Ledger, bs: seq<ChainBlock>)
    requires bs != [] && Taken(rules, l, bs) && bs[0].height !in rules.badBlocks
    ensures ValidateBlock(rules.env, bs[0], l.store, l.tree).Ok? && Committed(l, bs[0], false).0.Ok?
    ensures Taken(rules, Committed(l, bs[0], false).1, bs[1..])
    ensures TakenAfter(rules, l, bs) == TakenAfter(rules, Committed(l, bs[0], false).1, bs[1..])
  {
    hide ValidateBlock, Committed;
  }

  lemma OneMoreAccepted(env: Env, l: Ledger, done: seq<ChainBlock>, b: ChainBlock)
    requires Accepted(env, l, done) && ValidateBlock(env, b, After(l, done).store, After(l, done).tree).Ok?
    requires Committed(After(l, done), b, false).0.Ok?
    ensures Accepted(env, l, done + [b]) && After(l, done + [b]) == Committed(After(l, done), b, false).1
  {
    hide ValidateBlock, Committed;
    var more := done + [b];
    assert more[..|more| - 1] == done && more[|more| - 1] == b;
  }

  /** Without bad heights among them, what was taken is an accepted chain, so everything proved
      of accepted chains holds of a node that catches up. */
  lemma {:induction false} TakenIsAccepted(rules: Rules, l: Ledger, done: seq<ChainBlock>, bs: seq<ChainBlock>)
    requires Accepted(rules.env, l, done) && Taken(rules, After(l, done), bs)
    requires forall b :: b in bs ==> b.height !in rules.badBlocks
    ensures Accepted(rules.env, l, done + bs) && After(l, done + bs) == TakenAfter(rules, After(l, done), bs)
    decreases |bs|
  {
    hide ValidateBlock, Committed, Accepted, After, Taken, TakenAfter;
    if bs == [] {
      TakenNothing(rules, After(l, done));
      assert done + bs == done;
    } else {
      var b := bs[0];
      assert b in bs;
      TakenStep(rules, After(l, done), bs);
      OneMoreAccepted(rules.env, l, done, b);
      TakenIsAccepted(rules, l, done + [b], bs[1..]);
      assert done + [b] + bs[1..] == done + bs;
    }
  }

  lemma NothingToDo(rules: Rules, l: Ledger, c: ChainCache)
    requires c.Sound() && c.height + 1 !in c.index
    ensures Run(rules, l, c) == Progress(l, c, [], None)
  {
  }

  lemma SyncedCache(c: ChainCache, b: ChainBlock)
    requires c.Sound() && b.height >= 1 && c.Confirmed(b.height - 1).Commits(b)
    ensures var next := c.Confirmed(b.height - 1);
      var cache := next.Inserted(b);
      && cache.Sound() && cache.height + 1 == b.height
      && (next.Takes(b) <==> b.height in cache.index)
      && (next.Takes(b) ==> NextIs(cache, b))
  {
    hide Cache.Sound, Cache.Inserted, Cache.Confirmed, Cache.Commits, Cache.Takes;
    c.ConfirmedIsSound(b.height - 1);
    c.Confirmed(b.height - 1).InsertedIsSound(b);
    SyncedBlockIsNext(c, b);
  }

  /** When the next block is a valid one, it is the first committed, or the run is stuck on it. */
  lemma FirstRoundDecides(rules: Rules, l: Ledger, c: ChainCache, b: ChainBlock)
    requires c.height + 1 == b.height && NextIs(c, b)
    requires b.height !in rules.badBlocks && rules.signed(b) && ValidateBlock(rules.env, b, l.store, l.tree).Ok?
    ensures var (p, r) := (Run(rules, l, c), Committed(l, b, false).0);
      if r.Ok? then p.committed != [] && p.committed[0] == b else p.committed == [] && p.stuck == Some(r.error)
  {
    hide ValidateBlock, Committed, Cache.Confirmed, Cache.Removed;
  }

  /** What the loop does after an accepted fast chunk with a signed and admissible block: it
      commits that block first, exactly when the cache took it and it fits the tree. */
  lemma SyncedNodesCommitTheBlock(
      rules: Rules, b: ChainBlock, elements: seq<Element>, l: Ledger, c: ChainCache)
    requires Acceptable(rules.env, b, elements, l.tree) && NoDup(LeavesOf(b))
    requires c.Sound() && b.height >= 1 && c.Confirmed(b.height - 1).Commits(b)
    requires b.height !in rules.badBlocks && rules.signed(b)
    requires AllAdmissible(rules.env, b.body.txns, b.height, l.store)
    ensures var synced := Ledger(l.store, l.tree + Additions(b, elements, l.tree));
      var next := c.Confirmed(b.height - 1);
      && next.Inserted(b).Sound()
      && var p := Run(rules, synced, next.Inserted(b));
        && (p.committed != [] && p.committed[0] == b <==> next.Takes(b) && Insertable(LeavesOf(b), synced.tree))
        && (!next.Takes(b) ==> p.committed == [] && p.stuck == None)
        && (next.Takes(b) && !Insertable(LeavesOf(b), synced.tree) ==> p.committed == [] && p.stuck == Some(Collision))
  {
    var synced := Ledger(l.store, l.tree + Additions(b, elements, l.tree));
    SyncedCache(c, b);
    SyncedBlocksValidate(rules.env, b, elements, l.tree, l.store);
    hide Acceptable, Additions, ValidateBlock, AllAdmissible, Committed, Insertable, Run, NoDup, LeavesOf,
      Cache.Sound, Cache.Tight, Cache.Inserted, Cache.Confirmed, Cache.Commits, Cache.Takes, Lsbs, Apart;
    var cache := c.Confirmed(b.height - 1).Inserted(b);
    if c.Confirmed(b.height - 1).Takes(b) {
      ValidatedBlocksCommit(rules.env, synced, b);
      FirstRoundDecides(rules, synced, cache, b);
    } else {
      NothingToDo(rules, synced, cache);
    }
  }

  /** A block on which validation panics, next on a new node: two notes of one slot. The run ends
      on it at once, and it stays cached. */
  lemma SharedSlotPanics(root: RootFunction, c: ChainCache)
    requires NextIs(c, Mint(1, ZERO, [1, TWIN])) && c.height == 0
    ensures var (rules, b) := (Rules(Trusting(root), _ => true, {}), Mint(1, ZERO, [1, TWIN]));
      && ValidateBlock(rules.env, b, GENESIS.store, GENESIS.tree) == Err(Panicked)
      && Run(rules, GENESIS, c) == Progress(GENESIS, c, [], Some(Panicked))
  {
    var rules := Rules(Trusting(root), _ => true, {});
    var notes: seq<Element> := [1, TWIN];
    var b := Mint(1, ZERO, notes);
    Slots();
    hide Lsb;
    MintLeaves(1, ZERO, notes);
    MintIsAdmissible(root, 1, ZERO, notes, GENESIS.store);
    ValidationPanicsExactly(rules.env, b, GENESIS.store, GENESIS.tree);
    assert 1 in Fitting({}, SetOf(notes)) && TWIN in Fitting({}, SetOf(notes));
    hide ValidateBlock, LeavesOf, AllAdmissible;
  }
}
