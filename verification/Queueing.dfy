/** The mempool as a queue: where new keys go, and which keys exactly a batch takes. */
module Queueing {
  import opened Mempools
  import opened MempoolRuns
  import opened Leasing
  import opened Naturals
  import opened Sequences

  /** The position of the first add of a key. */
  function FirstAdd<K(==,!new), V, C>(adds: seq<(K, Txn<V, C>)>, k: K): (i: nat)
    ensures i <= |adds| && (i < |adds| ==> adds[i].0 == k) && forall j :: 0 <= j < i ==> adds[j].0 != k
  {
    if adds == [] then 0 else
    if adds[0].0 == k then 0 else
    var i := FirstAdd(adds[1..], k);
    assert forall j :: 0 < j <= i ==> adds[j] == adds[1..][j - 1];
    i + 1
  }

  function AddAll<K(!new), V, L(!new), C>(s: State<K, V, L, C>, adds: seq<(K, Txn<V, C>)>): State<K, V, L, C>
    decreases |adds|
  {
    if adds == [] then s else
    var last := adds[|adds| - 1];
    AddAll(s, adds[..|adds| - 1]).Added(last.0, last.1)
  }

  /** The keys that adds brought, in the order of their first arrival. */
  ghost predicate Arrived<K(!new), V, C>(later: seq<K>, known: set<K>, adds: seq<(K, Txn<V, C>)>) {
    && (forall i :: 0 <= i < |adds| && adds[i].0 !in known ==> adds[i].0 in later)
    && (forall k :: k in later ==> k !in known && FirstAdd(adds, k) < |adds|)
    && (forall i, j :: 0 <= i < j < |later| ==> FirstAdd(adds, later[i]) < FirstAdd(adds, later[j]))
  }

  lemma FirstOfMore<K(!new), V, C>(adds: seq<(K, Txn<V, C>)>, k: K)
    requires adds != []
    ensures var (front, n) := (adds[..|adds| - 1], |adds| - 1);
      FirstAdd(adds, k) ==
        if FirstAdd(front, k) < n then FirstAdd(front, k) else if adds[n].0 == k then n else n + 1
  {
    var (front, n) := (adds[..|adds| - 1], |adds| - 1);
    var (i, j) := (FirstAdd(adds, k), FirstAdd(front, k));
    assert forall m :: 0 <= m < n ==> front[m] == adds[m];
    if j < n {
      assert adds[j].0 == k && !(i < j) && !(j < i);
    }
  }

  lemma FirstsOfMore<K(!new), V, C>(adds: seq<(K, Txn<V, C>)>)
    requires adds != []
    ensures var (front, n) := (adds[..|adds| - 1], |adds| - 1);
      forall x :: FirstAdd(adds, x) ==
        if FirstAdd(front, x) < n then FirstAdd(front, x) else if adds[n].0 == x then n else n + 1
  {
    hide FirstAdd;
    forall x {
      FirstOfMore(adds, x);
    }
  }

  lemma FirstIsAbsent<K(!new), V, C>(adds: seq<(K, Txn<V, C>)>, k: K, later: seq<K>, known: set<K>)
    requires Arrived(later, known, adds) && k !in known && k !in later
    ensures FirstAdd(adds, k) == |adds|
  {
  }

  lemma ArrivedMore<K(!new), V, C>(later: seq<K>, known: set<K>, adds: seq<(K, Txn<V, C>)>)
    requires adds != [] && Arrived(later, known, adds[..|adds| - 1])
    ensures var k := adds[|adds| - 1].0;
      Arrived(if k in known || k in later then later else later + [k], known, adds)
  {
    hide FirstAdd;
    var front, k := adds[..|adds| - 1], adds[|adds| - 1].0;
    FirstsOfMore(adds);
    var all := if k in known || k in later then later else later + [k];
    forall i | 0 <= i < |adds| && adds[i].0 !in known ensures adds[i].0 in all {
      if i < |front| {
        assert front[i] == adds[i];
      }
    }
    if k !in known && k !in later {
      FirstIsAbsent(front, k, later, known);
      forall i, j | 0 <= i < j < |all| ensures FirstAdd(adds, all[i]) < FirstAdd(adds, all[j]) {
        assert all[i] == later[i];
        assert later[i] in later;
      }
    } else {
      forall i, j | 0 <= i < j < |later| ensures FirstAdd(adds, later[i]) < FirstAdd(adds, later[j]) {
        assert later[i] in later && later[j] in later;
      }
    }
  }

  /** The pool is the old one and then the keys that were unknown, in the order of their first
      arrival; each of these has the transaction of its first add, and whatever was known keeps
      its own. */
  ghost predicate AddedUp<K(!new), V, L(!new), C>(
      s: State<K, V, L, C>, r: State<K, V, L, C>, adds: seq<(K, Txn<V, C>)>, later: seq<K>)
  {
    && r.pool == s.pool + later && r.leased == s.leased
    && Arrived(later, s.txns.Keys, adds)
    && r.txns.Keys == s.txns.Keys + SetOf(later)
    && (forall k :: k in s.txns ==> r.txns[k] == s.txns[k])
    && (forall k :: k in later ==> k in r.txns && r.txns[k] == adds[FirstAdd(adds, k)].1)
  }

  lemma InSetOf<K(!new)>(keys: seq<K>, x: K)
    ensures x in SetOf(keys) <==> x in keys
    ensures SetOf(keys + [x]) == SetOf(keys) + {x}
  {
  }

  lemma FirstStays<K(!new), V, C>(adds: seq<(K, Txn<V, C>)>, later: seq<K>, known: set<K>, k: K)
    requires adds != [] && Arrived(later, known, adds[..|adds| - 1]) && k in later
    ensures FirstAdd(adds, k) < |adds| - 1 && FirstAdd(adds[..|adds| - 1], k) < |adds| - 1
    ensures adds[FirstAdd(adds, k)] == adds[..|adds| - 1][FirstAdd(adds[..|adds| - 1], k)]
  {
    FirstOfMore(adds, k);
  }

  lemma AgainAdded<K(!new), V, L(!new), C>(
      s: State<K, V, L, C>, r: State<K, V, L, C>, adds: seq<(K, Txn<V, C>)>, later: seq<K>)
    requires adds != [] && AddedUp(s, r, adds[..|adds| - 1], later) && adds[|adds| - 1].0 in r.txns
    ensures AddedUp(s, r, adds, later)
  {
    hide FirstAdd, Arrived, SetOf;
    var k := adds[|adds| - 1].0;
    InSetOf(later, k);
    ArrivedMore(later, s.txns.Keys, adds);
    assert k in s.txns.Keys || k in later;
    forall x | x in later
      ensures FirstAdd(adds, x) < |adds| && x in r.txns && r.txns[x] == adds[FirstAdd(adds, x)].1
    {
      FirstStays(adds, later, s.txns.Keys, x);
    }
  }

  lemma FirstAdded<K(!new), V, L(!new), C>(
      s: State<K, V, L, C>, r: State<K, V, L, C>, adds: seq<(K, Txn<V, C>)>, later: seq<K>)
    requires adds != [] && AddedUp(s, r, adds[..|adds| - 1], later) && adds[|adds| - 1].0 !in r.txns
    ensures var last := adds[|adds| - 1];
      AddedUp(s, r.(txns := r.txns[last.0 := last.1], pool := r.pool + [last.0]), adds, later + [last.0])
  {
    hide FirstAdd, Arrived, SetOf;
    var (front, last) := (adds[..|adds| - 1], adds[|adds| - 1]);
    var more := later + [last.0];
    ArrivedMore(later, s.txns.Keys, adds);
    InSetOf(later, last.0);
    FirstIsAbsent(front, last.0, later, s.txns.Keys);
    FirstOfMore(adds, last.0);
    forall k | k in more && k != last.0
      ensures k in later && FirstAdd(adds, k) < |front| && FirstAdd(front, k) < |front|
      ensures adds[FirstAdd(adds, k)] == front[FirstAdd(front, k)]
    {
      FirstStays(adds, later, s.txns.Keys, k);
    }
    assert s.pool + later + [last.0] == s.pool + more;
  }

  lemma AddedUpMore<K(!new), V, L(!new), C>(
      s: State<K, V, L, C>, r: State<K, V, L, C>, adds: seq<(K, Txn<V, C>)>, later: seq<K>)
    requires adds != [] && AddedUp(s, r, adds[..|adds| - 1], later)
    ensures var last := adds[|adds| - 1];
      AddedUp(s, r.Added(last.0, last.1), adds, if last.0 in r.txns then later else later + [last.0])
  {
    hide AddedUp;
    if adds[|adds| - 1].0 in r.txns {
      AgainAdded(s, r, adds, later);
    } else {
      FirstAdded(s, r, adds, later);
    }
  }

  lemma NothingAdded<K(!new), V, L(!new), C>(s: State<K, V, L, C>)
    ensures AddedUp(s, AddAll(s, []), [], [])
  {
    assert s.pool + [] == s.pool;
  }

  /** So it is over any run of adds, from any state. */
  lemma {:induction false} AddsKeepOrder<K(!new), V, L(!new), C>(s: State<K, V, L, C>, adds: seq<(K, Txn<V, C>)>)
    returns (later: seq<K>)
    ensures AddedUp(s, AddAll(s, adds), adds, later)
    decreases |adds|
  {
    hide AddedUp;
    if adds == [] {
      later := [];
      NothingAdded(s);
    } else {
      var last := adds[|adds| - 1];
      var before := AddAll(s, adds[..|adds| - 1]);
      later := AddsKeepOrder(s, adds[..|adds| - 1]);
      AddedUpMore(s, before, adds, later);
      later := if last.0 in before.txns then later else later + [last.0];
    }
  }

  /** Two transactions change a common thing. */
  ghost predicate Shares<V, C(!new)>(a: Txn<V, C>, b: Txn<V, C>) {
    exists c :: c in a.changes && c in b.changes
  }

  /** A key changes nothing that is changed already, and shares nothing with a key taken before it. */
  ghost predicate Clear<K(!new), V, C(!new)>(txns: map<K, Txn<V, C>>, keys: seq<K>, taken: set<K>, changed: set<C>, i: int)
    requires AllKnown(txns, keys) && 0 <= i < |keys|
  {
    && (forall c :: c in txns[keys[i]].changes ==> c !in changed)
    && forall j :: 0 <= j < i && keys[j] in taken ==> !Shares(txns[keys[i]], txns[keys[j]])
  }

  lemma ConflictsExactly<V, C(!new)>(t: Txn<V, C>, changed: set<C>)
    ensures Conflicts(t, changed) <==> !(forall c :: c in t.changes ==> c !in changed)
  {
  }

  lemma UnionShares<V, C(!new)>(t: Txn<V, C>, changed: set<C>, other: Txn<V, C>)
    ensures (forall c :: c in t.changes ==> c !in changed + SetOf(other.changes)) <==>
      (forall c :: c in t.changes ==> c !in changed) && !Shares(t, other)
  {
  }

  ghost predicate Greedy<K(!new), V, C(!new)>(txns: map<K, Txn<V, C>>, keys: seq<K>, taken: set<K>, changed: set<C>)
    requires AllKnown(txns, keys)
  {
    forall i :: 0 <= i < |keys| ==> (keys[i] in taken <==> Clear(txns, keys, taken, changed, i))
  }

  /** The scan looks at the first `n` keys, and takes at most `room`. */
  ghost predicate LooksAt<K(!new), V, C(!new)>(
      txns: map<K, Txn<V, C>>, pool: seq<K>, changed: set<C>, room: nat, s: Scanned<K>, n: nat)
    requires AllKnown(txns, pool)
  {
    && n <= |pool| && s.rest == pool[n..]
    && s.taken == Outside(pool[..n], SetOf(s.discarded)) && s.discarded == Outside(pool[..n], SetOf(s.taken))
    && Greedy(txns, pool[..n], SetOf(s.taken), changed)
    && |s.taken| <= room
    && (if |s.taken| < room then n == |pool| else n > 0 && s.taken != [] && pool[n - 1] == s.taken[|s.taken| - 1])
  }

  lemma OutsideHead<K(!new)>(x: K, keys: seq<K>, gone: set<K>)
    ensures Outside([x] + keys, gone) == if x in gone then Outside(keys, gone) else [x] + Outside(keys, gone)
  {
    assert ([x] + keys)[1..] == keys;
  }

  lemma {:induction false} OutsideStranger<K(!new)>(x: K, keys: seq<K>, gone: set<K>)
    requires x !in keys
    ensures Outside(keys, gone + {x}) == Outside(keys, gone)
  {
    if keys != [] {
      OutsideStranger(x, keys[1..], gone);
    }
  }

  /** One key ahead of the others matters to them if it is taken and they share something. */
  lemma ClearAfterOne<K(!new), V, C(!new)>(
      txns: map<K, Txn<V, C>>, x: K, keys: seq<K>, taken: set<K>, changed: set<C>, i: nat)
    requires AllKnown(txns, [x] + keys) && AllKnown(txns, keys) && i < |keys|
    ensures Clear(txns, [x] + keys, taken, changed, i + 1) <==>
      Clear(txns, keys, taken, changed, i) && (x in taken ==> !Shares(txns[keys[i]], txns[x]))
  {
    hide Shares;
    var more := [x] + keys;
    assert more[0] == x && more[i + 1] == keys[i];
    assert forall j :: 0 <= j < i ==> more[j + 1] == keys[j];
    assert forall j :: 0 < j < i + 1 ==> more[j] == keys[j - 1];
  }

  lemma ClearOfStranger<K(!new), V, C(!new)>(
      txns: map<K, Txn<V, C>>, x: K, keys: seq<K>, taken: set<K>, changed: set<C>, i: nat)
    requires AllKnown(txns, keys) && i < |keys| && x !in keys
    ensures Clear(txns, keys, {x} + taken, changed, i) <==> Clear(txns, keys, taken, changed, i)
  {
    hide Shares;
  }

  lemma ClearOfUnion<K(!new), V, C(!new)>(
      txns: map<K, Txn<V, C>>, x: K, keys: seq<K>, taken: set<K>, changed: set<C>, i: nat)
    requires AllKnown(txns, keys) && i < |keys| && x in txns
    ensures Clear(txns, keys, taken, changed + SetOf(txns[x].changes), i) <==>
      Clear(txns, keys, taken, changed, i) && !Shares(txns[keys[i]], txns[x])
  {
    UnionShares(txns[keys[i]], changed, txns[x]);
    hide SetOf, Shares;
  }

  lemma GreedyDiscards<K(!new), V, C(!new)>(txns: map<K, Txn<V, C>>, x: K, keys: seq<K>, taken: set<K>, changed: set<C>)
    requires AllKnown(txns, [x] + keys) && AllKnown(txns, keys) && Greedy(txns, keys, taken, changed)
    requires x !in taken && Conflicts(txns[x], changed)
    ensures Greedy(txns, [x] + keys, taken, changed)
  {
    var more := [x] + keys;
    assert !Clear(txns, more, taken, changed, 0) by {
      ConflictsExactly(txns[x], changed);
    }
    hide Conflicts, Shares, Clear;
    forall i | 0 <= i < |more| ensures more[i] in taken <==> Clear(txns, more, taken, changed, i) {
      if i > 0 {
        ClearAfterOne(txns, x, keys, taken, changed, i - 1);
        assert more[i] == keys[i - 1];
      }
    }
  }

  lemma GreedyTakes<K(!new), V, C(!new)>(txns: map<K, Txn<V, C>>, x: K, keys: seq<K>, taken: set<K>, changed: set<C>)
    requires AllKnown(txns, [x] + keys) && AllKnown(txns, keys) && x !in keys && !Conflicts(txns[x], changed)
    requires Greedy(txns, keys, taken, changed + SetOf(txns[x].changes))
    ensures Greedy(txns, [x] + keys, {x} + taken, changed)
  {
    var more, all := [x] + keys, {x} + taken;
    assert Clear(txns, more, all, changed, 0) by {
      ConflictsExactly(txns[x], changed);
    }
    hide Conflicts, Shares, Clear, SetOf;
    forall i | 0 <= i < |more| ensures more[i] in all <==> Clear(txns, more, all, changed, i) {
      if i > 0 {
        ClearAfterOne(txns, x, keys, all, changed, i - 1);
        ClearOfStranger(txns, x, keys, taken, changed, i - 1);
        ClearOfUnion(txns, x, keys, taken, changed, i - 1);
        assert more[i] == keys[i - 1];
      }
    }
  }

  lemma LooksAtNothing<K(!new), V, C(!new)>(txns: map<K, Txn<V, C>>, changed: set<C>, room: nat)
    requires room > 0
    ensures LooksAt(txns, [], changed, room, Scanned([], [], [], false), 0)
  {
  }

  lemma LooksAtOne<K(!new), V, C(!new)>(txns: map<K, Txn<V, C>>, pool: seq<K>, changed: set<C>)
    requires pool != [] && AllKnown(txns, pool) && !Conflicts(txns[pool[0]], changed)
    ensures LooksAt(txns, pool, changed, 1, Scanned([pool[0]], [], pool[1..], false), 1)
  {
    var x := pool[0];
    assert pool[..1] == [x];
    assert SetOf([x]) == {x};
    assert Clear(txns, [x], {x}, changed, 0);
    ConflictsExactly(txns[x], changed);
    assert [x] + [] == [x] && SetOf<K>([]) == {};
    OutsideHead(x, [], {});
    OutsideHead(x, [], {x});
    hide Conflicts;
  }

  lemma SplitsOff<K(!new)>(pool: seq<K>, n: nat)
    requires pool != [] && n < |pool| && pool[0] !in pool[1..]
    ensures pool[..n + 1] == [pool[0]] + pool[1..][..n] && pool[n + 1..] == pool[1..][n..]
    ensures pool[0] !in pool[1..][..n]
  {
  }

  /** One key set apart: the others are those outside of it, and it is the only one in addition. */
  lemma SetApart<K(!new)>(x: K, keys: seq<K>, with: seq<K>, without: seq<K>)
    requires x !in keys && with == Outside(keys, SetOf(without)) && without == Outside(keys, SetOf(with))
    ensures x !in with && x !in without && SetOf([x] + with) == {x} + SetOf(with)
    ensures [x] + with == Outside([x] + keys, SetOf(without))
    ensures without == Outside([x] + keys, SetOf([x] + with))
  {
    assert SetOf([x] + with) == {x} + SetOf(with) == SetOf(with) + {x};
    OutsideStranger(x, keys, SetOf(with));
    OutsideHead(x, keys, SetOf([x] + with));
    OutsideHead(x, keys, SetOf(without));
  }

  lemma LooksAndDiscards<K(!new), V, C(!new)>(
      txns: map<K, Txn<V, C>>, pool: seq<K>, changed: set<C>, room: nat, s: Scanned<K>, n: nat)
    requires pool != [] && AllKnown(txns, pool) && AllKnown(txns, pool[1..]) && pool[0] !in pool[1..]
    requires Conflicts(txns[pool[0]], changed) && LooksAt(txns, pool[1..], changed, room, s, n) && room > 0
    ensures LooksAt(txns, pool, changed, room, s.(discarded := [pool[0]] + s.discarded), n + 1)
  {
    hide SetOf, Outside, Conflicts, Greedy;
    var (x, keys) := (pool[0], pool[1..][..n]);
    SplitsOff(pool, n);
    SetApart(x, keys, s.discarded, s.taken);
    InSetOf(s.taken, x);
    GreedyDiscards(txns, x, keys, SetOf(s.taken), changed);
  }

  lemma LooksAndTakes<K(!new), V, C(!new)>(
      txns: map<K, Txn<V, C>>, pool: seq<K>, changed: set<C>, room: nat, s: Scanned<K>, n: nat)
    requires pool != [] && AllKnown(txns, pool) && AllKnown(txns, pool[1..]) && pool[0] !in pool[1..]
    requires !Conflicts(txns[pool[0]], changed) && room > 0
    requires LooksAt(txns, pool[1..], changed + SetOf(txns[pool[0]].changes), room, s, n)
    ensures LooksAt(txns, pool, changed, room + 1, s.(taken := [pool[0]] + s.taken), n + 1)
  {
    hide SetOf, Outside, Conflicts, Greedy;
    var (x, keys) := (pool[0], pool[1..][..n]);
    SplitsOff(pool, n);
    SetApart(x, keys, s.taken, s.discarded);
    GreedyTakes(txns, x, keys, SetOf(s.taken), changed);
  }

  /** A scan of known keys takes just what a greedy choice does, until it has enough. */
  lemma {:induction false} ScanExactly<K(!new), V, C(!new)>(
      txns: map<K, Txn<V, C>>, pool: seq<K>, changed: set<C>, count: nat, maxCount: nat) returns (n: nat)
    requires AllKnown(txns, pool) && NoDup(pool)
    ensures LooksAt(txns, pool, changed, Room(count, maxCount), Scan(txns, pool, changed, count, maxCount), n)
    decreases |pool|
  {
    hide NoDup, Conflicts, SetOf, LooksAt;
    n := 0;
    if pool == [] {
      LooksAtNothing(txns, changed, Room(count, maxCount));
    } else {
      var x, rest := pool[0], pool[1..];
      NoDupTail(pool);
      if Conflicts(txns[x], changed) {
        n := ScanExactly(txns, rest, changed, count, maxCount);
        LooksAndDiscards(txns, pool, changed, Room(count, maxCount), Scan(txns, rest, changed, count, maxCount), n);
        n := n + 1;
      } else if count + 1 >= maxCount {
        n := 1;
        LooksAtOne(txns, pool, changed);
      } else {
        var more := changed + SetOf(txns[x].changes);
        n := ScanExactly(txns, rest, more, count + 1, maxCount);
        LooksAndTakes(
          txns, pool, changed, Room(count + 1, maxCount), Scan(txns, rest, more, count + 1, maxCount), n);
        n := n + 1;
      }
    }
  }

  lemma PooledAreKnown<K(!new), V, L(!new), C(!new)>(s: State<K, V, L, C>)
    requires s.Partitioned()
    ensures AllKnown(s.txns, s.pool) && NoDup(s.pool)
  {
  }

  /** Exactly which keys a batch takes, in which order, and the pool that it leaves: it looks at the
      pool from the front, takes each key that clashes with none taken before, and stops at the
      end, or with the last key that fits. What it set aside goes to the back of what it did not
      look at, and all of it keeps its order. */
  lemma BatchExactly<K(!new), V, L(!new), C(!new)>(s: State<K, V, L, C>, l: L, maxCount: nat) returns (n: nat)
    requires s.Partitioned()
    ensures n <= |s.pool|
    ensures var taken, looked := s.BatchOf(maxCount).taken, s.pool[..n];
      && AllKnown(s.txns, looked) && Greedy(s.txns, looked, SetOf(taken), {})
      && taken == Outside(looked, SetOf(Outside(looked, SetOf(taken))))
      && s.BatchLeased(l, maxCount).pool == s.pool[n..] + Outside(looked, SetOf(taken))
      && |taken| <= Max(1, maxCount)
      && (if |taken| < Max(1, maxCount) then n == |s.pool| else n > 0 && s.pool[n - 1] == taken[|taken| - 1])
  {
    PooledAreKnown(s);
    hide Greedy, Outside, Scan, SetOf, State.Partitioned;
    n := ScanExactly(s.txns, s.pool, {}, 0, maxCount);
    ScanSplitsThePool(s.txns, s.pool, {}, 0, maxCount);
  }

  lemma {:induction false} ScanStopsAt<K(!new), V, C(!new)>(
      txns: map<K, Txn<V, C>>, pool: seq<K>, changed: set<C>, count: nat, maxCount: nat, i: nat)
    requires Scan(txns, pool, changed, count, maxCount).panicked
    requires i < |pool| && pool[i] !in txns && AllKnown(txns, pool[..i])
    ensures Scan(txns, pool, changed, count, maxCount).rest == pool[i + 1..]
    decreases i
  {
    hide Conflicts, SetOf;
    if i > 0 {
      assert pool[..i][0] == pool[0] && pool[1..][..i - 1] == pool[..i][1..];
      if Conflicts(txns[pool[0]], changed) {
        ScanStopsAt(txns, pool[1..], changed, count, maxCount, i - 1);
      } else {
        ScanStopsAt(txns, pool[1..], changed + SetOf(txns[pool[0]].changes), count + 1, maxCount, i - 1);
      }
    }
  }

  /** A batch that panics has taken all that it looked at out of the pool, the unknown key with it, and
      puts nothing back. */
  lemma {:induction false} PanicEmptiesThePool<K(!new), V, L(!new), C(!new)>(
      s: State<K, V, L, C>, l: L, maxCount: nat, i: nat)
    requires s.BatchOf(maxCount).panicked
    requires i < |s.pool| && s.pool[i] !in s.txns && AllKnown(s.txns, s.pool[..i])
    ensures s.BatchLeased(l, maxCount).pool == s.pool[i + 1..]
  {
    ScanStopsAt(s.txns, s.pool, {}, 0, maxCount, i);
    hide Scan;
  }

  /** From an empty pool a batch takes nothing, and changes nothing: no lease is entered. */
  lemma EmptyPoolChangesNothing<K(!new), V, L(!new), C(!new)>(s: State<K, V, L, C>, l: L, maxCount: nat)
    requires s.pool == []
    ensures s.BatchLeased(l, maxCount) == s && s.BatchOf(maxCount).taken == []
  {
  }

  lemma {:induction false} AddsKeepPartition<K(!new), V, L(!new), C(!new)>(s: State<K, V, L, C>, adds: seq<(K, Txn<V, C>)>)
    requires s.Partitioned()
    ensures AddAll(s, adds).Partitioned()
    decreases |adds|
  {
    if adds != [] {
      var front, last := adds[..|adds| - 1], adds[|adds| - 1];
      AddsKeepPartition(s, front);
      AddKeepsPartition(AddAll(s, front), last.0, last.1);
    }
    hide State.Partitioned;
  }

  lemma Earliest<K(!new), V, C(!new)>(adds: seq<(K, Txn<V, C>)>, later: seq<K>, known: set<K>)
    requires Arrived(later, known, adds) && later != []
    ensures FirstAdd(adds, later[0]) < |adds|
    ensures forall i :: 0 <= i < FirstAdd(adds, later[0]) ==> adds[i].0 in known
  {
    var k := later[0];
    assert k in later;
    forall i | 0 <= i < FirstAdd(adds, k) && adds[i].0 in later ensures FirstAdd(adds, k) <= FirstAdd(adds, adds[i].0) {
    }
  }

  /** So whatever was added, a batch of one takes the oldest key: the first of the pool before, or
      else the one that arrived first. */
  lemma OldestFirst<K(!new), V, L(!new), C(!new)>(s: State<K, V, L, C>, adds: seq<(K, Txn<V, C>)>)
    requires s.Partitioned() && AddAll(s, adds).pool != []
    ensures var taken := AddAll(s, adds).BatchOf(1).taken;
      && |taken| == 1
      && (s.pool != [] ==> taken[0] == s.pool[0])
      && (s.pool == [] ==>
            && FirstAdd(adds, taken[0]) < |adds|
            && forall i :: 0 <= i < FirstAdd(adds, taken[0]) ==> adds[i].0 in s.txns)
  {
    hide State.Partitioned, Scan, FirstAdd, AddAll, Arrived;
    var later := AddsKeepOrder(s, adds);
    var r := AddAll(s, adds);
    AddsKeepPartition(s, adds);
    FirstIsTaken(r, 1);
    ScanIsBounded(r.txns, r.pool, {}, 0, 1);
    if s.pool == [] {
      assert r.pool == later;
      Earliest(adds, later, s.txns.Keys);
    }
  }
}
