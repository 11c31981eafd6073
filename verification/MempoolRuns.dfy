/** What each operation of the mempool keeps, exactly, and what a leased batch is. */
module MempoolRuns {
  import opened Mempools
  import opened Sequences

  lemma {:induction false} WithoutRemoves<T(!new)>(s: seq<T>, x: T)
    requires NoDup(s)
    ensures NoDup(Without(s, x)) && (forall y :: y in Without(s, x) <==> y in s && y != x)
    ensures x !in s ==> Without(s, x) == s
  {
    if s != [] {
      var tail := s[1..];
      NoDupTail(s);
      assert forall y :: y in s <==> y == s[0] || y in tail;
      WithoutRemoves(tail, x);
      NewHead(s[0], Without(tail, x));
      hide NoDup;
    }
  }

  lemma AddKeepsPartition<K(!new), V, L(!new), C>(s: State<K, V, L, C>, k: K, t: Txn<V, C>)
    requires s.Partitioned()
    ensures s.Added(k, t).Partitioned()
    ensures s.Added(k, t).txns.Keys == s.txns.Keys + {k}
    ensures k in s.txns ==> s.Added(k, t) == s
  {
  }

  /** Dropping a key keeps the partition exactly when the key is unknown, or no other lease
      holds it. */
  lemma DropKeepsPartition<K(!new), V, L(!new), C>(s: State<K, V, L, C>, l: L, k: K)
    requires s.Partitioned()
    ensures s.Dropped(l, k).Partitioned() <==> !(exists m :: m in s.leased && m != l && k in s.leased[m])
    ensures s.Dropped(l, k).Lease(l) == s.Lease(l) - {k}
    ensures forall m :: m in s.Dropped(l, k).leased <==> m in s.leased
    ensures forall m :: m in s.leased && m != l ==> s.Dropped(l, k).leased[m] == s.leased[m]
  {
    var d := s.Dropped(l, k);
    WithoutRemoves(s.pool, k);
    if exists m :: m in s.leased && m != l && k in s.leased[m] {
      var m :| m in s.leased && m != l && k in s.leased[m];
      assert d.leased[m] == s.leased[m];
      assert d.Held(k) && k !in d.txns;
    } else {
      forall x ensures x in d.txns <==> x in d.pool || d.Held(x) {
        if d.Held(x) {
          var m :| m in d.leased && x in d.leased[m];
          assert s.Held(x) && x != k;
        }
        if s.Held(x) && x != k {
          var m :| m in s.leased && x in s.leased[m];
          assert x in d.leased[m];
        }
      }
    }
  }

  ghost predicate HeldByOther<K(!new), V, L(!new), C>(s: State<K, V, L, C>, l: L, k: K) {
    exists m :: m in s.leased && m != l && k in s.leased[m]
  }

  /** Another lease holds a key that has no transaction: nothing done to `l` mends that. */
  ghost predicate Stranded<K(!new), V, L(!new), C>(s: State<K, V, L, C>, l: L) {
    exists k :: k !in s.txns && HeldByOther(s, l, k)
  }

  lemma StrandedStays<K(!new), V, L(!new), C>(s: State<K, V, L, C>, l: L, k: K)
    requires Stranded(s, l)
    ensures Stranded(s.Dropped(l, k), l)
  {
    var x :| x !in s.txns && HeldByOther(s, l, x);
    var m :| m in s.leased && m != l && x in s.leased[m];
    assert s.Dropped(l, k).leased[m] == s.leased[m];
    assert HeldByOther(s.Dropped(l, k), l, x);
  }

  lemma StrandedIsBroken<K(!new), V, L(!new), C>(s: State<K, V, L, C>, l: L)
    requires Stranded(s, l)
    ensures !s.Partitioned()
  {
  }

  lemma {:induction false} DropsKeepPartition<K(!new), V, L(!new), C>(s: State<K, V, L, C>, l: L, keys: seq<K>)
    requires s.Partitioned() || Stranded(s, l)
    ensures var d := s.AllDropped(l, keys);
      if s.Partitioned() && (forall k :: k in keys ==> !HeldByOther(s, l, k)) then d.Partitioned() else Stranded(d, l)
    decreases |keys|
  {
    if s.Partitioned() && Stranded(s, l) {
      StrandedIsBroken(s, l);
      assert false;
    }
    if keys != [] {
      var d := s.Dropped(l, keys[0]);
      if Stranded(s, l) {
        StrandedStays(s, l, keys[0]);
      } else {
        DropKeepsPartition(s, l, keys[0]);
        assert HeldByOther(s, l, keys[0]) ==> HeldByOther(d, l, keys[0]) && keys[0] !in d.txns;
        assert forall k :: HeldByOther(d, l, k) <==> HeldByOther(s, l, k);
        assert forall k :: k in keys <==> k == keys[0] || k in keys[1..];
        if d.Partitioned() && Stranded(d, l) {
          StrandedIsBroken(d, l);
          assert false;
        }
      }
      DropsKeepPartition(d, l, keys[1..]);
    }
  }

  lemma FreeKeepsPartition<K(!new), V, L(!new), C>(s: State<K, V, L, C>, l: L, order: seq<K>)
    requires s.IsOrderOf(l, order)
    ensures s.Partitioned() ==> s.Freed(l, order).Partitioned()
    ensures Stranded(s, l) ==> Stranded(s.Freed(l, order), l)
  {
    var f := s.Freed(l, order);
    assert forall m :: m in s.leased && m != l ==> m in f.leased && f.leased[m] == s.leased[m];
    assert forall x :: x in order <==> x in s.Lease(l) by {
      assert forall x :: x in order <==> x in SetOf(order);
    }
    if s.Partitioned() {
      NoDupConcat(order, s.pool);
      forall x ensures x in f.txns <==> x in f.pool || f.Held(x) {
        if s.Held(x) {
          var m :| m in s.leased && x in s.leased[m];
          assert m == l || x in f.leased[m];
        }
        if f.Held(x) {
          var m :| m in f.leased && x in f.leased[m];
          assert x in s.leased[m];
        }
      }
    }
    if Stranded(s, l) {
      var x :| x !in s.txns && HeldByOther(s, l, x);
      var m :| m in s.leased && m != l && x in s.leased[m];
      assert m in f.leased && x in f.leased[m];
      assert HeldByOther(f, l, x);
    }
  }

  /** Exactly when a commit keeps the partition: no committed key is held by another lease. */
  lemma CommitKeepsPartition<K(!new), V, L(!new), C>(s: State<K, V, L, C>, l: L, keys: seq<K>, order: seq<K>)
    requires s.Partitioned() && s.AllDropped(l, keys).IsOrderOf(l, order)
    ensures s.AllDropped(l, keys).Freed(l, order).Partitioned() <==> forall k :: k in keys ==> !HeldByOther(s, l, k)
  {
    DropsKeepPartition(s, l, keys);
    FreeKeepsPartition(s.AllDropped(l, keys), l, order);
    if Stranded(s.AllDropped(l, keys), l) {
      StrandedIsBroken(s.AllDropped(l, keys).Freed(l, order), l);
    }
  }

  lemma {:induction false} OutsideWithout<T(!new)>(s: seq<T>, x: T, gone: set<T>)
    requires NoDup(s)
    ensures Outside(Without(s, x), gone) == Outside(s, gone + {x})
  {
    if s != [] {
      var tail := s[1..];
      NoDupTail(s);
      OutsideWithout(tail, x, gone);
      if s[0] == x {
        WithoutRemoves(tail, x);
      }
    }
  }

  /** A commit removes exactly the committed keys and the lease; the rest of the pool keeps its
      order. */
  lemma {:induction false} CommitRemovesExactly<K(!new), V, L(!new), C>(s: State<K, V, L, C>, l: L, keys: seq<K>)
    requires NoDup(s.pool)
    ensures var d := s.AllDropped(l, keys);
      && d.txns == s.txns - SetOf(keys)
      && d.pool == Outside(s.pool, SetOf(keys))
      && d.Lease(l) == s.Lease(l) - SetOf(keys)
      && d.leased - {l} == s.leased - {l}
    decreases |keys|
  {
    if keys == [] {
      OutsideNothing(s.pool);
      assert SetOf(keys) == {};
    } else {
      WithoutRemoves(s.pool, keys[0]);
      var d := s.Dropped(l, keys[0]);
      CommitRemovesExactly(d, l, keys[1..]);
      OutsideWithout(s.pool, keys[0], SetOf(keys[1..]));
      assert SetOf(keys) == SetOf(keys[1..]) + {keys[0]};
      hide SetOf, Without, Outside, NoDup;
      assert s.txns - SetOf(keys) == s.txns - {keys[0]} - SetOf(keys[1..]);
    }
  }
}
