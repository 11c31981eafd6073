/** Leasing: exactly when it keeps the partition, and what a greedy batch is. */
module Leasing {
  import opened Mempools
  import opened MempoolRuns
  import opened Sequences

  /** What a caller of `lease_txns` can check of a key. */
  predicate Leasable<K(!new), V, L(!new), C(==)>(s: State<K, V, L, C>, l: L, k: K) {
    k in s.pool || k in s.Lease(l)
  }

  /** A leased key that has no transaction, or is in two leases: leasing more does not mend it. */
  ghost predicate Broken<K(!new), V, L(!new), C>(s: State<K, V, L, C>) {
    || (exists k :: k !in s.txns && s.Held(k))
    || (exists k, l, m :: l in s.leased && m in s.leased && l != m && k in s.leased[l] && k in s.leased[m])
  }

  lemma KeyLeasedHolds<K(!new), V, L(!new), C>(s: State<K, V, L, C>, l: L, k: K)
    ensures forall m :: m in s.leased ==> m in s.KeyLeased(l, k).leased && s.leased[m] <= s.KeyLeased(l, k).leased[m]
    ensures forall m :: m in s.KeyLeased(l, k).leased ==>
      m == l || (m in s.leased && s.KeyLeased(l, k).leased[m] == s.leased[m])
    ensures forall x :: s.KeyLeased(l, k).Held(x) <==> s.Held(x) || x == k
  {
    var n := s.KeyLeased(l, k);
    assert n.leased[l] == s.Lease(l) + {k};
    forall x | s.Held(x) ensures n.Held(x) {
      var m :| m in s.leased && x in s.leased[m];
      assert m in n.leased && x in n.leased[m];
    }
    forall x | n.Held(x) && x != k ensures s.Held(x) {
      var m :| m in n.leased && x in n.leased[m];
      assert m in s.leased && x in s.leased[m];
    }
    assert l in n.leased && k in n.leased[l];
  }

  lemma LeasingKeepsBroken<K(!new), V, L(!new), C>(s: State<K, V, L, C>, l: L, k: K)
    requires Broken(s)
    ensures Broken(s.KeyLeased(l, k))
  {
    KeyLeasedHolds(s, l, k);
    var n := s.KeyLeased(l, k);
    if exists x :: x !in s.txns && s.Held(x) {
      var x :| x !in s.txns && s.Held(x);
      assert x !in n.txns && n.Held(x);
    } else {
      var x, a, b :| a in s.leased && b in s.leased && a != b && x in s.leased[a] && x in s.leased[b];
      assert x in n.leased[a] && x in n.leased[b];
    }
  }

  lemma BrokenIsNotPartitioned<K(!new), V, L(!new), C>(s: State<K, V, L, C>)
    requires Broken(s)
    ensures !s.Partitioned()
  {
  }

  lemma LeasableKeyKeeps<K(!new), V, L(!new), C>(s: State<K, V, L, C>, l: L, k: K)
    requires s.Partitioned() && Leasable(s, l, k)
    ensures s.KeyLeased(l, k).Partitioned()
  {
    WithoutRemoves(s.pool, k);
    KeyLeasedHolds(s, l, k);
    if k in s.Lease(l) {
      assert s.Held(k);
    }
    hide State.Held, Without, NoDup;
  }

  lemma OtherKeyBreaks<K(!new), V, L(!new), C>(s: State<K, V, L, C>, l: L, k: K)
    requires s.Partitioned() && !Leasable(s, l, k)
    ensures Broken(s.KeyLeased(l, k))
  {
    KeyLeasedHolds(s, l, k);
    var n := s.KeyLeased(l, k);
    if k in s.txns {
      var m :| m in s.leased && k in s.leased[m];
      assert m != l && k in n.leased[m] && k in n.leased[l];
    } else {
      assert n.Held(k);
    }
  }

  lemma LeasableAfter<K(!new), V, L(!new), C>(s: State<K, V, L, C>, l: L, k: K)
    requires NoDup(s.pool) && Leasable(s, l, k)
    ensures forall x :: Leasable(s.KeyLeased(l, k), l, x) <==> Leasable(s, l, x)
  {
    WithoutRemoves(s.pool, k);
  }

  /** Exactly when `lease_txns` keeps the partition: every key is pooled, or in that lease. */
  lemma {:induction false} LeaseTxnsKeepsPartition<K(!new), V, L(!new), C>(s: State<K, V, L, C>, l: L, keys: seq<K>)
    requires s.Partitioned() || Broken(s)
    ensures if s.Partitioned() && (forall k :: k in keys ==> Leasable(s, l, k))
      then s.KeysLeased(l, keys).Partitioned() else Broken(s.KeysLeased(l, keys))
    ensures s.Partitioned() ==> (s.KeysLeased(l, keys).Partitioned() <==> forall k :: k in keys ==> Leasable(s, l, k))
    decreases |keys|
  {
    if Broken(s) {
      BrokenIsNotPartitioned(s);
    }
    if keys != [] {
      assert forall k :: k in keys <==> k == keys[0] || k in keys[1..];
      if Broken(s) {
        LeasingKeepsBroken(s, l, keys[0]);
      } else {
        if Leasable(s, l, keys[0]) {
          LeasableKeyKeeps(s, l, keys[0]);
          LeasableAfter(s, l, keys[0]);
        } else {
          OtherKeyBreaks(s, l, keys[0]);
          BrokenIsNotPartitioned(s.KeyLeased(l, keys[0]));
        }
      }
      LeaseTxnsKeepsPartition(s.KeyLeased(l, keys[0]), l, keys[1..]);
    }
    if Broken(s.KeysLeased(l, keys)) {
      BrokenIsNotPartitioned(s.KeysLeased(l, keys));
    }
  }

  /** And it moves exactly the given keys. */
  lemma {:induction false} LeaseTxnsMovesExactly<K(!new), V, L(!new), C>(s: State<K, V, L, C>, l: L, keys: seq<K>)
    requires NoDup(s.pool)
    ensures var n := s.KeysLeased(l, keys);
      && n.txns == s.txns
      && n.pool == Outside(s.pool, SetOf(keys))
      && n.Lease(l) == s.Lease(l) + SetOf(keys)
      && n.leased - {l} == s.leased - {l}
    decreases |keys|
  {
    if keys == [] {
      OutsideNothing(s.pool);
      assert SetOf(keys) == {};
    } else {
      WithoutRemoves(s.pool, keys[0]);
      LeaseTxnsMovesExactly(s.KeyLeased(l, keys[0]), l, keys[1..]);
      OutsideWithout(s.pool, keys[0], SetOf(keys[1..]));
      assert SetOf(keys) == SetOf(keys[1..]) + {keys[0]};
    }
  }

  ghost predicate AllKnown<K(!new), V, C>(txns: map<K, Txn<V, C>>, keys: seq<K>) {
    forall k :: k in keys ==> k in txns
  }

  /** No key of a known pool panics; the batch and what is put back are the old pool. */
  lemma {:induction false} ScanSplitsThePool<K(!new), V, C>(
      txns: map<K, Txn<V, C>>, pool: seq<K>, changed: set<C>, count: nat, maxCount: nat)
    requires AllKnown(txns, pool)
    ensures var s := Scan(txns, pool, changed, count, maxCount);
      && !s.panicked
      && multiset(s.taken) + multiset(s.discarded) + multiset(s.rest) == multiset(pool)
    decreases |pool|
  {
    hide SetOf, Conflicts;
    if pool != [] {
      var rest := pool[1..];
      assert pool == [pool[0]] + rest;
      if Conflicts(txns[pool[0]], changed) {
        ScanSplitsThePool(txns, rest, changed, count, maxCount);
      } else if count + 1 < maxCount {
        ScanSplitsThePool(txns, rest, changed + SetOf(txns[pool[0]].changes), count + 1, maxCount);
      }
    }
  }

  /** The batch and the keys set aside keep the order of the pool. */
  lemma {:induction false} ScanKeepsOrder<K(!new), V, C>(
      txns: map<K, Txn<V, C>>, pool: seq<K>, changed: set<C>, count: nat, maxCount: nat)
    ensures var s := Scan(txns, pool, changed, count, maxCount);
      Subsequence(s.taken, pool) && Subsequence(s.discarded, pool)
    decreases |pool|
  {
    hide SetOf, Conflicts;
    if pool != [] && pool[0] in txns {
      var rest := pool[1..];
      assert pool == [pool[0]] + rest;
      if Conflicts(txns[pool[0]], changed) {
        ScanKeepsOrder(txns, rest, changed, count, maxCount);
        SubsequenceOfMore(Scan(txns, rest, changed, count, maxCount).taken, rest, pool[0]);
      } else if count + 1 < maxCount {
        var more := changed + SetOf(txns[pool[0]].changes);
        ScanKeepsOrder(txns, rest, more, count + 1, maxCount);
        SubsequenceOfMore(Scan(txns, rest, more, count + 1, maxCount).discarded, rest, pool[0]);
      }
    }
  }

  /** Two transactions that change a common thing. */
  predicate Clash<V, C(==)>(a: Txn<V, C>, b: Txn<V, C>) {
    Conflicts(a, SetOf(b.changes))
  }

  lemma ConflictsOfUnion<V, C>(t: Txn<V, C>, a: set<C>, b: set<C>)
    ensures Conflicts(t, a + b) <==> Conflicts(t, a) || Conflicts(t, b)
  {
  }

  /** Known keys, pairwise without clashes and clear of `changed`. */
  ghost predicate ConflictFree<K, V, C>(txns: map<K, Txn<V, C>>, taken: seq<K>, changed: set<C>) {
    && (forall i :: 0 <= i < |taken| ==> taken[i] in txns && !Conflicts(txns[taken[i]], changed))
    && (forall i, j :: 0 <= i < j < |taken| ==> !Clash(txns[taken[j]], txns[taken[i]]))
  }

  lemma {:induction false} ScanIsConflictFree<K, V, C>(
      txns: map<K, Txn<V, C>>, pool: seq<K>, changed: set<C>, count: nat, maxCount: nat)
    ensures ConflictFree(txns, Scan(txns, pool, changed, count, maxCount).taken, changed)
    decreases |pool|
  {
    if pool == [] || pool[0] !in txns {
    } else if Conflicts(txns[pool[0]], changed) {
      ScanIsConflictFree(txns, pool[1..], changed, count, maxCount);
    } else if count + 1 < maxCount {
      var first := txns[pool[0]];
      var more := changed + SetOf(first.changes);
      ScanIsConflictFree(txns, pool[1..], more, count + 1, maxCount);
      var later := Scan(txns, pool[1..], more, count + 1, maxCount).taken;
      forall i | 0 <= i < |later| ensures !Conflicts(txns[later[i]], changed) && !Clash(txns[later[i]], first) {
        ConflictsOfUnion(txns[later[i]], changed, SetOf(first.changes));
      }
    }
  }

  lemma {:induction false} ScanIsBounded<K, V, C>(
      txns: map<K, Txn<V, C>>, pool: seq<K>, changed: set<C>, count: nat, maxCount: nat)
    ensures var s := Scan(txns, pool, changed, count, maxCount);
      && (|s.taken| <= if maxCount > count then maxCount - count else 1)
      && (!s.panicked && s.rest != [] ==> |s.taken| == if maxCount > count then maxCount - count else 1)
    decreases |pool|
  {
    if pool == [] || pool[0] !in txns {
    } else if Conflicts(txns[pool[0]], changed) {
      ScanIsBounded(txns, pool[1..], changed, count, maxCount);
    } else if count + 1 < maxCount {
      ScanIsBounded(txns, pool[1..], changed + SetOf(txns[pool[0]].changes), count + 1, maxCount);
    }
  }

  /** Whatever was set aside clashes with something taken, or with `changed`. */
  ghost predicate Justified<K, V, C>(txns: map<K, Txn<V, C>>, taken: seq<K>, discarded: seq<K>, changed: set<C>) {
    forall i :: 0 <= i < |discarded| ==> (
      && discarded[i] in txns
      && (Conflicts(txns[discarded[i]], changed)
          || exists j :: 0 <= j < |taken| && taken[j] in txns && Clash(txns[discarded[i]], txns[taken[j]])))
  }

  lemma {:induction false} DiscardsAreJustified<K, V, C>(
      txns: map<K, Txn<V, C>>, pool: seq<K>, changed: set<C>, count: nat, maxCount: nat)
    ensures var s := Scan(txns, pool, changed, count, maxCount); Justified(txns, s.taken, s.discarded, changed)
    decreases |pool|
  {
    if pool == [] || pool[0] !in txns {
    } else if Conflicts(txns[pool[0]], changed) {
      DiscardsAreJustified(txns, pool[1..], changed, count, maxCount);
    } else if count + 1 < maxCount {
      var first := txns[pool[0]];
      var more := changed + SetOf(first.changes);
      DiscardsAreJustified(txns, pool[1..], more, count + 1, maxCount);
      var s := Scan(txns, pool[1..], more, count + 1, maxCount);
      var taken := [pool[0]] + s.taken;
      forall i | 0 <= i < |s.discarded|
        ensures Conflicts(txns[s.discarded[i]], changed)
          || exists j :: 0 <= j < |taken| && taken[j] in txns && Clash(txns[s.discarded[i]], txns[taken[j]])
      {
        ConflictsOfUnion(txns[s.discarded[i]], changed, SetOf(first.changes));
        if Conflicts(txns[s.discarded[i]], SetOf(first.changes)) {
          assert Clash(txns[s.discarded[i]], txns[taken[0]]);
        } else if !Conflicts(txns[s.discarded[i]], changed) {
          var j :| 0 <= j < |s.taken| && s.taken[j] in txns && Clash(txns[s.discarded[i]], txns[s.taken[j]]);
          assert taken[j + 1] == s.taken[j];
        }
      }
    }
  }

  lemma BatchSplits<K(!new), V, L(!new), C>(s: State<K, V, L, C>, l: L, maxCount: nat)
    requires s.Partitioned()
    ensures var b, n := s.BatchOf(maxCount), s.BatchLeased(l, maxCount);
      && !b.panicked && Subsequence(b.taken, s.pool)
      && multiset(b.taken) + multiset(n.pool) == multiset(s.pool)
  {
    ScanSplitsThePool(s.txns, s.pool, {}, 0, maxCount);
    ScanKeepsOrder(s.txns, s.pool, {}, 0, maxCount);
    hide Scan, Subsequence, LeasedWith;
  }

  lemma FirstIsTaken<K(!new), V, L(!new), C>(s: State<K, V, L, C>, maxCount: nat)
    requires s.Partitioned() && s.pool != []
    ensures var b := s.BatchOf(maxCount); b.taken != [] && b.taken[0] == s.pool[0]
  {
  }

  /** The batch is a greedy, maximal, conflict-free choice: at most `max(1, maxCount)` keys in the
      order of the pool, pairwise without clashes; and if it has fewer, every key put back
      clashes with one that was taken. */
  lemma BatchIsGreedy<K(!new), V, L(!new), C>(s: State<K, V, L, C>, l: L, maxCount: nat)
    requires s.Partitioned()
    ensures var b, n, limit := s.BatchOf(maxCount), s.BatchLeased(l, maxCount), if maxCount == 0 then 1 else maxCount;
      && !b.panicked
      && |b.taken| <= limit && Subsequence(b.taken, s.pool) && ConflictFree(s.txns, b.taken, {})
      && multiset(b.taken) + multiset(n.pool) == multiset(s.pool)
      && (s.pool != [] ==> b.taken != [] && b.taken[0] == s.pool[0])
      && (|b.taken| < limit ==> n.pool == b.discarded && Justified(s.txns, b.taken, n.pool, {}))
  {
    BatchSplits(s, l, maxCount);
    if s.pool != [] {
      FirstIsTaken(s, maxCount);
    }
    ScanIsConflictFree(s.txns, s.pool, {}, 0, maxCount);
    ScanIsBounded(s.txns, s.pool, {}, 0, maxCount);
    DiscardsAreJustified(s.txns, s.pool, {}, 0, maxCount);
    hide Scan, ConflictFree, Justified, Subsequence, State.Partitioned, LeasedWith;
    var b := s.BatchOf(maxCount);
    assert [] + b.discarded == b.discarded;
  }

  function Room(count: nat, maxCount: nat): nat {
    if maxCount > count then maxCount - count else 1
  }

  ghost predicate UnknownAt<K(!new), V, C>(
      txns: map<K, Txn<V, C>>, pool: seq<K>, changed: set<C>, count: nat, maxCount: nat, i: nat)
    requires i < |pool|
  {
    && pool[i] !in txns && AllKnown(txns, pool[..i])
    && |Scan(txns, pool[..i], changed, count, maxCount).taken| < Room(count, maxCount)
  }

  /** The first unknown key of the pool comes before the batch is full. */
  ghost predicate MeetsUnknown<K(!new), V, C>(
      txns: map<K, Txn<V, C>>, pool: seq<K>, changed: set<C>, count: nat, maxCount: nat)
  {
    exists i :: 0 <= i < |pool| && UnknownAt(txns, pool, changed, count, maxCount, i)
  }

  /** One key on: the positions after a known head correspond to those of the tail. */
  lemma UnknownAtTail<K(!new), V, C>(
      txns: map<K, Txn<V, C>>, pool: seq<K>, changed: set<C>, count: nat, maxCount: nat, i: nat)
    requires 0 < i < |pool| && pool[0] in txns
    ensures var t := txns[pool[0]];
      UnknownAt(txns, pool, changed, count, maxCount, i) <==>
        if Conflicts(t, changed) then UnknownAt(txns, pool[1..], changed, count, maxCount, i - 1)
        else count + 1 < maxCount
             && UnknownAt(txns, pool[1..], changed + SetOf(t.changes), count + 1, maxCount, i - 1)
  {
    assert pool[..i][1..] == pool[1..][..i - 1] && pool[..i][0] == pool[0] && pool[i] == pool[1..][i - 1];
    assert AllKnown(txns, pool[..i]) <==> AllKnown(txns, pool[1..][..i - 1]) by {
      assert pool[..i] == [pool[0]] + pool[1..][..i - 1];
    }
    hide AllKnown, SetOf, Conflicts;
  }

  lemma NoUnknownFirst<K(!new), V, C>(
      txns: map<K, Txn<V, C>>, pool: seq<K>, changed: set<C>, count: nat, maxCount: nat)
    requires pool != []
    ensures UnknownAt(txns, pool, changed, count, maxCount, 0) <==> pool[0] !in txns
    ensures pool[0] !in txns ==> forall i :: 0 < i < |pool| ==> !UnknownAt(txns, pool, changed, count, maxCount, i)
  {
    assert pool[..0] == [];
    forall i | pool[0] !in txns && 0 < i < |pool| ensures !UnknownAt(txns, pool, changed, count, maxCount, i) {
      assert pool[..i][0] == pool[0];
    }
  }

  lemma ShiftedUnknown<K(!new), V, C>(
      txns: map<K, Txn<V, C>>, pool: seq<K>, rest: seq<K>, changed: set<C>, count: nat,
      more: set<C>, next: nat, maxCount: nat, goesOn: bool)
    requires pool != [] && rest == pool[1..] && !UnknownAt(txns, pool, changed, count, maxCount, 0)
    requires forall i :: 0 < i < |pool| ==>
      (UnknownAt(txns, pool, changed, count, maxCount, i) <==>
         goesOn && UnknownAt(txns, rest, more, next, maxCount, i - 1))
    ensures MeetsUnknown(txns, pool, changed, count, maxCount) <==>
      goesOn && MeetsUnknown(txns, rest, more, next, maxCount)
  {
    hide UnknownAt;
    if goesOn && MeetsUnknown(txns, rest, more, next, maxCount) {
      var j :| 0 <= j < |rest| && UnknownAt(txns, rest, more, next, maxCount, j);
      assert UnknownAt(txns, pool, changed, count, maxCount, j + 1);
    }
  }

  /** Exactly when a scan panics. */
  lemma {:induction false} ScanPanicsExactly<K(!new), V, C>(
      txns: map<K, Txn<V, C>>, pool: seq<K>, changed: set<C>, count: nat, maxCount: nat)
    ensures Scan(txns, pool, changed, count, maxCount).panicked <==> MeetsUnknown(txns, pool, changed, count, maxCount)
    decreases |pool|
  {
    hide AllKnown, SetOf, Conflicts, UnknownAt;
    if pool != [] {
      NoUnknownFirst(txns, pool, changed, count, maxCount);
      if pool[0] in txns {
        var rest, t := pool[1..], txns[pool[0]];
        forall i | 0 < i < |pool| {
          UnknownAtTail(txns, pool, changed, count, maxCount, i);
        }
        var taking := !Conflicts(t, changed);
        var (more, next) := if taking then (changed + SetOf(t.changes), count + 1) else (changed, count);
        ScanPanicsExactly(txns, rest, more, next, maxCount);
        ShiftedUnknown(txns, pool, rest, changed, count, more, next, maxCount, !taking || count + 1 < maxCount);
      }
    }
  }

  /** The freed pool holds one key without a transaction, once. */
  lemma FreedWithUnknown<K(!new), V, L(!new), C>(
      s: State<K, V, L, C>, l: L, k: K, committed: seq<K>, order: seq<K>)
    requires s.Partitioned() && k !in s.txns && k !in committed
    requires s.KeysLeased(l, [k]).AllDropped(l, committed).IsOrderOf(l, order)
    ensures k in SetOf(order)
    ensures var freed := s.KeysLeased(l, [k]).AllDropped(l, committed).Freed(l, order);
      && freed.pool == order + freed.pool[|order|..] && |order| <= |freed.pool| && NoDup(freed.pool)
      && (forall x :: x in freed.pool ==> (x in freed.txns <==> x != k))
  {
    assert [k][0] == k && [k][1..] == [];
    var leased := s.KeyLeased(l, k);
    assert s.KeysLeased(l, [k]) == leased;
    WithoutRemoves(s.pool, k);
    CommitRemovesExactly(leased, l, committed);
    var d := leased.AllDropped(l, committed);
    OutsideKeepsNoDup(leased.pool, SetOf(committed));
    NoDupConcat(order, d.pool);
    assert forall x :: x in order <==> x in SetOf(order);
    assert forall x :: x in s.Lease(l) ==> s.Held(x);
  }

  lemma OneUnknown<K(!new), V, C>(txns: map<K, Txn<V, C>>, pool: seq<K>, k: K, i: nat, maxCount: nat)
    requires i < |pool| && pool[i] == k && NoDup(pool)
    requires forall x :: x in pool ==> (x in txns <==> x != k)
    ensures MeetsUnknown(txns, pool, {}, 0, maxCount) <==>
      |Scan(txns, pool[..i], {}, 0, maxCount).taken| < Room(0, maxCount)
  {
    assert forall j :: 0 <= j < |pool| && j != i ==> pool[j] != k && pool[j] in pool;
    assert AllKnown(txns, pool[..i]);
    hide Scan;
    assert UnknownAt(txns, pool, {}, 0, maxCount, i) <==>
      |Scan(txns, pool[..i], {}, 0, maxCount).taken| < Room(0, maxCount);
  }

  /** A key leased without its transaction goes back to the pool when the lease ends. The next
      batch panics on it exactly when it is not full before it gets there: in particular if the
      key comes first. */
  lemma UnknownLeasesPoisonThePool<K(!new), V, L(!new), C>(
      s: State<K, V, L, C>, l: L, k: K, committed: seq<K>, order: seq<K>, maxCount: nat)
    requires s.Partitioned() && k !in s.txns && k !in committed
    requires s.KeysLeased(l, [k]).AllDropped(l, committed).IsOrderOf(l, order)
    ensures k in order
    ensures var freed := s.KeysLeased(l, [k]).AllDropped(l, committed).Freed(l, order);
      forall i :: 0 <= i < |order| && order[i] == k ==>
        && k in freed.pool
        && (freed.BatchOf(maxCount).panicked <==>
              |Scan(freed.txns, order[..i], {}, 0, maxCount).taken| < Room(0, maxCount))
        && (i == 0 ==> freed.BatchOf(maxCount).panicked)
  {
    var freed := s.KeysLeased(l, [k]).AllDropped(l, committed).Freed(l, order);
    FreedWithUnknown(s, l, k, committed, order);
    ScanPanicsExactly(freed.txns, freed.pool, {}, 0, maxCount);
    assert k in SetOf(order);
    forall i | 0 <= i < |order| && order[i] == k
      ensures k in freed.pool
      ensures freed.BatchOf(maxCount).panicked <==>
        |Scan(freed.txns, order[..i], {}, 0, maxCount).taken| < Room(0, maxCount)
      ensures i == 0 ==> freed.BatchOf(maxCount).panicked
    {
      OneUnknown(freed.txns, freed.pool, k, i, maxCount);
      assert freed.pool[..i] == order[..i];
      assert freed.pool[i] == k;
      if i == 0 {
        assert order[..i] == [];
      }
    }
  }

  lemma LeaseOfLeasedWith<K, L>(leased: map<L, set<K>>, l: L, keys: seq<K>)
    ensures LeaseIn(LeasedWith(leased, l, keys), l) == LeaseIn(leased, l) + SetOf(keys)
  {
  }

  lemma SplitMembers<T(!new)>(all: seq<T>, a: seq<T>, b: seq<T>)
    requires multiset(a) + multiset(b) == multiset(all) && NoDup(all)
    ensures forall x :: x in all <==> x in SetOf(a) || x in b
    ensures forall x :: x in SetOf(a) ==> x !in b
    ensures NoDup(b)
  {
    NoDupByCount(all);
    NoDupByCount(b);
    assert forall x :: multiset(b)[x] <= multiset(all)[x];
    forall x ensures x in all <==> x in SetOf(a) || x in b {
      assert x in all <==> x in multiset(all);
    }
    forall x | x in SetOf(a) ensures x !in b {
      assert multiset(all)[x] <= 1;
      assert multiset(a)[x] >= 1;
    }
  }

  lemma MovedToLease<K(!new), V, L(!new), C>(s: State<K, V, L, C>, n: State<K, V, L, C>, l: L, taken: seq<K>)
    requires s.Partitioned() && NoDup(n.pool) && n.txns == s.txns && n.leased == LeasedWith(s.leased, l, taken)
    requires forall x :: x in s.pool <==> x in SetOf(taken) || x in n.pool
    requires forall x :: x in SetOf(taken) ==> x !in n.pool
    ensures n.Partitioned()
  {
    forall x ensures n.Held(x) <==> s.Held(x) || x in SetOf(taken) {
      if s.Held(x) {
        var m :| m in s.leased && x in s.leased[m];
        assert x in n.leased[m];
      }
      if x in SetOf(taken) {
        assert x in n.leased[l];
      }
    }
  }

  /** Leasing a batch moves the taken keys from the pool to the lease. */
  lemma BatchKeepsPartition<K(!new), V, L(!new), C>(s: State<K, V, L, C>, l: L, maxCount: nat)
    requires s.Partitioned()
    ensures s.BatchLeased(l, maxCount).Partitioned()
    ensures s.BatchLeased(l, maxCount).Lease(l) == s.Lease(l) + SetOf(s.BatchOf(maxCount).taken)
    ensures s.BatchLeased(l, maxCount).txns == s.txns
  {
    var b, n := s.BatchOf(maxCount), s.BatchLeased(l, maxCount);
    BatchSplits(s, l, maxCount);
    assert NoDup(s.pool);
    LeaseOfLeasedWith(s.leased, l, b.taken);
    hide Scan, NoDup, SetOf, LeasedWith, LeaseIn, Subsequence;
    SplitMembers(s.pool, b.taken, n.pool);
    MovedToLease(s, n, l, b.taken);
  }

  /** A caller's step; a commit comes with the order in which the lease was put back. */
  datatype Op<K(!new), V, L(!new), C> =
    | Add(k: K, t: Txn<V, C>)
    | Commit(l: L, keys: seq<K>, order: seq<K>)
    | LeaseTxns(l: L, keys: seq<K>)
    | LeaseBatch(l: L, maxCount: nat)

  function Step<K(!new), V, L(!new), C(==)>(s: State<K, V, L, C>, op: Op<K, V, L, C>): State<K, V, L, C> {
    match op
    case Add(k, t) => s.Added(k, t)
    case Commit(l, keys, order) => s.AllDropped(l, keys).Freed(l, order)
    case LeaseTxns(l, keys) => s.KeysLeased(l, keys)
    case LeaseBatch(l, maxCount) => s.BatchLeased(l, maxCount)
  }

  /** A step that can happen: the order is one of the lease's. */
  ghost predicate Possible<K(!new), V, L(!new), C>(s: State<K, V, L, C>, op: Op<K, V, L, C>) {
    op.Commit? ==> s.AllDropped(op.l, op.keys).IsOrderOf(op.l, op.order)
  }

  /** What a caller can check before the call. */
  ghost predicate Careful<K(!new), V, L(!new), C>(s: State<K, V, L, C>, op: Op<K, V, L, C>) {
    match op
    case Commit(l, keys, _) => forall k :: k in keys ==> !HeldByOther(s, l, k)
    case LeaseTxns(l, keys) => forall k :: k in keys ==> Leasable(s, l, k)
    case _ => true
  }

  lemma StepKeepsPartitionExactly<K(!new), V, L(!new), C>(s: State<K, V, L, C>, op: Op<K, V, L, C>)
    requires s.Partitioned() && Possible(s, op)
    ensures Step(s, op).Partitioned() <==> Careful(s, op)
  {
    match op
    case Add(k, t) => AddKeepsPartition(s, k, t);
    case Commit(l, keys, order) => CommitKeepsPartition(s, l, keys, order);
    case LeaseTxns(l, keys) => LeaseTxnsKeepsPartition(s, l, keys);
    case LeaseBatch(l, maxCount) => BatchKeepsPartition(s, l, maxCount);
  }

  ghost predicate CarefulRun<K(!new), V, L(!new), C>(s: State<K, V, L, C>, ops: seq<Op<K, V, L, C>>)
    decreases |ops|
  {
    ops == [] || (Possible(s, ops[0]) && Careful(s, ops[0]) && CarefulRun(Step(s, ops[0]), ops[1..]))
  }

  function Reached<K(!new), V, L(!new), C(==)>(s: State<K, V, L, C>, ops: seq<Op<K, V, L, C>>): State<K, V, L, C>
    decreases |ops|
  {
    if ops == [] then s else Reached(Step(s, ops[0]), ops[1..])
  }

  /** From the empty mempool, over any run of careful steps: the transactions stay the disjoint
      union of pool and leases, and no batch panics. */
  lemma {:induction false} RunsKeepPartition<K(!new), V, L(!new), C>(
      s: State<K, V, L, C>, ops: seq<Op<K, V, L, C>>, maxCount: nat)
    requires s.Partitioned() && CarefulRun(s, ops)
    ensures Reached(s, ops).Partitioned() && !Reached(s, ops).BatchOf(maxCount).panicked
    decreases |ops|
  {
    if ops == [] {
      ScanSplitsThePool(s.txns, s.pool, {}, 0, maxCount);
    } else {
      StepKeepsPartitionExactly(s, ops[0]);
      RunsKeepPartition(Step(s, ops[0]), ops[1..], maxCount);
    }
  }
}
