/** The pool of transactions waiting to be leased into a block. */
module Mempools {
  import opened Sequences
  import opened Wrappers

  datatype Txn<+V, +C> = Txn(txn: V, changes: seq<C>)

  function Without<T(==)>(s: seq<T>, x: T): seq<T> {
    if s == [] then [] else if s[0] == x then s[1..] else [s[0]] + Without(s[1..], x)
  }

  /** What `lease_batch` makes of a pool: keys taken, keys set aside, keys not looked at, and
      whether it met a key without a transaction. */
  datatype Scanned<K> = Scanned(taken: seq<K>, discarded: seq<K>, rest: seq<K>, panicked: bool)

  predicate Conflicts<V, C(==)>(t: Txn<V, C>, changed: set<C>) {
    exists c | c in t.changes :: c in changed
  }

  function Scan<K(==), V, C(==)>(
      txns: map<K, Txn<V, C>>, pool: seq<K>, changed: set<C>, count: nat, maxCount: nat): Scanned<K>
    decreases |pool|
  {
    if pool == [] then Scanned([], [], [], false) else
    var key, rest := pool[0], pool[1..];
    if key !in txns then Scanned([], [], rest, true) else
    if Conflicts(txns[key], changed) then
      var s := Scan(txns, rest, changed, count, maxCount);
      s.(discarded := [key] + s.discarded)
    else if count + 1 >= maxCount then Scanned([key], [], rest, false)
    else
      var s := Scan(txns, rest, changed + SetOf(txns[key].changes), count + 1, maxCount);
      s.(taken := [key] + s.taken)
  }

  /** Keys taken and set aside so far, and what the scan of the rest yields. */
  ghost function Joined<K>(taken: seq<K>, discarded: seq<K>, s: Scanned<K>): Scanned<K> {
    Scanned(taken + s.taken, discarded + s.discarded, s.rest, s.panicked)
  }

  lemma JoinedAtTheStart<K>(s: Scanned<K>)
    ensures Joined([], [], s) == s
  {
  }

  lemma DiscardStep<K, V, C>(
      txns: map<K, Txn<V, C>>, pool: seq<K>, changed: set<C>, taken: seq<K>, discarded: seq<K>, maxCount: nat)
    requires pool != [] && pool[0] in txns && Conflicts(txns[pool[0]], changed)
    ensures Joined(taken, discarded, Scan(txns, pool, changed, |taken|, maxCount))
         == Joined(taken, discarded + [pool[0]], Scan(txns, pool[1..], changed, |taken|, maxCount))
  {
  }

  lemma TakeStep<K, V, C>(
      txns: map<K, Txn<V, C>>, pool: seq<K>, changed: set<C>, taken: seq<K>, discarded: seq<K>, maxCount: nat)
    requires pool != [] && pool[0] in txns && !Conflicts(txns[pool[0]], changed)
    ensures Joined(taken, discarded, Scan(txns, pool, changed, |taken|, maxCount))
         == Joined(taken + [pool[0]], discarded,
              if |taken| + 1 >= maxCount then Scanned([], [], pool[1..], false)
              else Scan(txns, pool[1..], changed + SetOf(txns[pool[0]].changes), |taken| + 1, maxCount))
  {
  }

  lemma LastStep<K, V, C>(
      txns: map<K, Txn<V, C>>, pool: seq<K>, changed: set<C>, taken: seq<K>, discarded: seq<K>, maxCount: nat)
    requires pool == [] || pool[0] !in txns
    ensures Joined(taken, discarded, Scan(txns, pool, changed, |taken|, maxCount))
         == Scanned(taken, discarded, if pool == [] then [] else pool[1..], pool != [])
  {
  }

  lemma JoinedStop<K>(taken: seq<K>, discarded: seq<K>, pool: seq<K>)
    ensures Joined(taken, discarded, Scanned([], [], pool, false)) == Scanned(taken, discarded, pool, false)
  {
  }

  function LeaseIn<K, L>(leased: map<L, set<K>>, l: L): set<K> {
    if l in leased then leased[l] else {}
  }

  /** The leases with these keys added to one of them; no entry is made for no keys. */
  function LeasedWith<K, L>(leased: map<L, set<K>>, l: L, keys: seq<K>): map<L, set<K>> {
    if keys == [] then leased else leased[l := LeaseIn(leased, l) + SetOf(keys)]
  }

  lemma InitialLease<K, L>(leased: map<L, set<K>>, l: L)
    ensures LeasedWith(leased, l, []) == leased
  {
  }

  lemma LeasedOneMore<K, L>(leased: map<L, set<K>>, l: L, keys: seq<K>, key: K)
    ensures var now := LeasedWith(leased, l, keys);
      now[l := LeaseIn(now, l) + {key}] == LeasedWith(leased, l, keys + [key])
  {
    assert SetOf(keys + [key]) == SetOf(keys) + {key};
    assert LeaseIn(leased, l) + SetOf(keys) + {key} == LeaseIn(leased, l) + SetOf(keys + [key]);
    if keys == [] {
      assert SetOf(keys) == {};
      assert LeaseIn(leased, l) + {key} == LeaseIn(leased, l) + SetOf(keys + [key]);
    }
  }

  datatype State<K(!new), V, L(!new), C(==)> = State(txns: map<K, Txn<V, C>>, pool: seq<K>, leased: map<L, set<K>>) {
    function Lease(l: L): set<K> {
      LeaseIn(leased, l)
    }

    ghost predicate Held(k: K) {
      exists l :: l in leased && k in leased[l]
    }

    /** The known transactions are exactly the disjoint union of the duplicate-free pool and
        all leases. */
    ghost predicate Partitioned() {
      && NoDup(pool)
      && (forall k :: k in txns <==> k in pool || Held(k))
      && (forall k, l :: l in leased && k in leased[l] ==> k !in pool)
      && (forall k, l, m :: l in leased && m in leased && k in leased[l] && k in leased[m] ==> l == m)
    }

    function Added(k: K, t: Txn<V, C>): State<K, V, L, C> {
      if k in txns then this else this.(txns := txns[k := t], pool := pool + [k])
    }

    /** One committed key: gone from the transactions, this lease and the pool. */
    function Dropped(l: L, k: K): State<K, V, L, C> {
      State(txns - {k}, Without(pool, k), if l in leased then leased[l := leased[l] - {k}] else leased)
    }

    function AllDropped(l: L, keys: seq<K>): State<K, V, L, C>
      decreases |keys|
    {
      if keys == [] then this else Dropped(l, keys[0]).AllDropped(l, keys[1..])
    }

    /** The keys of the lease in some order, to the front of the pool. */
    function Freed(l: L, order: seq<K>): State<K, V, L, C> {
      this.(leased := leased - {l}, pool := order + pool)
    }

    ghost predicate IsOrderOf(l: L, order: seq<K>) {
      NoDup(order) && SetOf(order) == Lease(l)
    }

    function KeyLeased(l: L, k: K): State<K, V, L, C> {
      this.(pool := Without(pool, k), leased := leased[l := Lease(l) + {k}])
    }

    function KeysLeased(l: L, keys: seq<K>): State<K, V, L, C>
      decreases |keys|
    {
      if keys == [] then this else KeyLeased(l, keys[0]).KeysLeased(l, keys[1..])
    }

    function BatchOf(maxCount: nat): Scanned<K> {
      Scan(txns, pool, {}, 0, maxCount)
    }

    function BatchLeased(l: L, maxCount: nat): State<K, V, L, C> {
      var s := BatchOf(maxCount);
      this.(
        pool := if s.panicked then s.rest else s.rest + s.discarded,
        leased := LeasedWith(leased, l, s.taken))
    }
  }

  class Mempool<K(==,!new), V(!new), L(==,!new), C(==,!new)> {
    var txns: map<K, Txn<V, C>>
    var pool: seq<K>
    var leased: map<L, set<K>>

    ghost function Contents(): State<K, V, L, C>
      reads this
    {
      State(txns, pool, leased)
    }

    constructor ()
      ensures Contents() == State(map[], [], map[])
    {
      txns, pool, leased := map[], [], map[];
    }

    method Add(key: K, txn: V, changes: seq<C>)
      modifies this
      ensures Contents() == old(Contents()).Added(key, Txn(txn, changes))
    {
      if key in txns {
        return;
      }
      txns := txns[key := Txn(txn, changes)];
      pool := pool + [key];
    }

    method Free(lease: L) returns (ghost order: seq<K>)
      modifies this
      ensures old(Contents()).IsOrderOf(lease, order)
      ensures Contents() == old(Contents()).Freed(lease, order)
    {
      order := [];
      var keys := LeaseIn(leased, lease);
      leased := leased - {lease};
      ghost var all := keys;
      while keys != {}
        invariant keys <= all && SetOf(order) == all - keys && NoDup(order)
        invariant txns == old(txns) && leased == old(leased) - {lease} && pool == order + old(pool)
        decreases keys
      {
        var k :| k in keys;
        keys := keys - {k};
        pool := [k] + pool;
        SetOfConcat([k], order);
        order := [k] + order;
      }
    }

    method Commit(lease: L, keys: seq<K>) returns (ghost order: seq<K>)
      modifies this
      ensures old(Contents()).AllDropped(lease, keys).IsOrderOf(lease, order)
      ensures Contents() == old(Contents()).AllDropped(lease, keys).Freed(lease, order)
    {
      var i := 0;
      while i < |keys|
        invariant 0 <= i <= |keys|
        invariant old(Contents()).AllDropped(lease, keys) == Contents().AllDropped(lease, keys[i..])
      {
        var key := keys[i];
        assert keys[i..][0] == key && keys[i..][1..] == keys[i + 1..];
        txns := txns - {key};
        if lease in leased {
          leased := leased[lease := leased[lease] - {key}];
        }
        pool := Without(pool, key);
        i := i + 1;
      }
      assert keys[i..] == [];
      order := Free(lease);
    }

    method LeaseTxns(lease: L, keys: seq<K>)
      modifies this
      ensures Contents() == old(Contents()).KeysLeased(lease, keys)
    {
      var i := 0;
      while i < |keys|
        invariant 0 <= i <= |keys|
        invariant old(Contents()).KeysLeased(lease, keys) == Contents().KeysLeased(lease, keys[i..])
      {
        assert keys[i..][0] == keys[i] && keys[i..][1..] == keys[i + 1..];
        pool := Without(pool, keys[i]);
        leased := leased[lease := LeaseIn(leased, lease) + {keys[i]}];
        i := i + 1;
      }
      assert keys[i..] == [];
    }

    /** The batch, or none where a pooled key has no transaction. */
    method LeaseBatch(lease: L, maxCount: nat) returns (batch: Option<seq<(K, V)>>)
      modifies this
      ensures Contents() == old(Contents()).BatchLeased(lease, maxCount)
      ensures batch.None? <==> old(Contents()).BatchOf(maxCount).panicked
      ensures batch.Some? ==> var taken := old(Contents()).BatchOf(maxCount).taken;
        |batch.value| == |taken| && forall i :: 0 <= i < |taken| ==>
          batch.value[i].0 == taken[i] && taken[i] in txns && batch.value[i].1 == txns[taken[i]].txn
    {
      var taken: seq<(K, V)> := [];
      var discard: seq<K> := [];
      var changed: set<C> := {};
      ghost var keys: seq<K> := [];
      ghost var all := Contents().BatchOf(maxCount);
      var stop := false;
      InitialLease(leased, lease);
      JoinedAtTheStart(all);
      hide SetOf, LeaseIn, LeasedWith, Conflicts, Scan, Joined;
      while pool != [] && !stop
        invariant txns == old(txns)
        invariant all == Joined(keys, discard,
          if stop then Scanned([], [], pool, false) else Scan(txns, pool, changed, |keys|, maxCount))
        invariant |keys| == |taken|
        invariant forall i :: 0 <= i < |keys| ==>
          taken[i].0 == keys[i] && keys[i] in txns && taken[i].1 == txns[keys[i]].txn
        invariant leased == LeasedWith(old(leased), lease, keys)
        decreases |pool|, !stop
      {
        var key := pool[0];
        if key !in txns {
          LastStep(txns, pool, changed, keys, discard, maxCount);
          pool := pool[1..];
          return None;
        }
        if Conflicts(txns[key], changed) {
          DiscardStep(txns, pool, changed, keys, discard, maxCount);
          pool := pool[1..];
          discard := discard + [key];
          continue;
        }
        TakeStep(txns, pool, changed, keys, discard, maxCount);
        LeasedOneMore(old(leased), lease, keys, key);
        pool := pool[1..];
        leased := leased[lease := LeaseIn(leased, lease) + {key}];
        changed := changed + SetOf(txns[key].changes);
        keys := keys + [key];
        taken := taken + [(key, txns[key].txn)];
        if |taken| >= maxCount {
          stop := true;
        }
      }
      if !stop {
        LastStep(txns, pool, changed, keys, discard, maxCount);
      }
      JoinedStop(keys, discard, pool);
      pool := pool + discard;
      return Some(taken);
    }
  }
}
