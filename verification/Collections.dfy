/** Facts about sequences, maps and finite sets that several components share. */
module Sequences {
  function SetOf<T>(s: seq<T>): set<T> {
    set x | x in s
  }

  lemma SetOfConcat<T>(a: seq<T>, b: seq<T>)
    ensures SetOf(a + b) == SetOf(a) + SetOf(b)
  {
  }

  ghost predicate NoDup<T(!new)>(s: seq<T>) {
    forall i, j :: 0 <= i < j < |s| ==> s[i] != s[j]
  }

  lemma NoDupConcat<T(!new)>(a: seq<T>, b: seq<T>)
    ensures NoDup(a + b) <==> NoDup(a) && NoDup(b) && SetOf(a) !! SetOf(b)
  {
    var s := a + b;
    assert forall i :: 0 <= i < |a| ==> s[i] == a[i] && a[i] in SetOf(a);
    assert forall j :: 0 <= j < |b| ==> s[|a| + j] == b[j] && b[j] in SetOf(b);
    if NoDup(a) && NoDup(b) && SetOf(a) !! SetOf(b) {
      forall i, j | 0 <= i < j < |s| ensures s[i] != s[j] {
        if i < |a| <= j {
          assert s[j] == b[j - |a|];
        } else if |a| <= i {
          assert s[i] == b[i - |a|] && s[j] == b[j - |a|];
        }
      }
    }
    if NoDup(s) {
      forall i, j | 0 <= i < j < |b| ensures b[i] != b[j] {
        assert s[|a| + i] != s[|a| + j];
      }
      forall i, j | 0 <= i < |a| && 0 <= j < |b| ensures a[i] != b[j] {
        assert s[i] != s[|a| + j];
      }
    }
  }

  lemma NoDupTail<T(!new)>(s: seq<T>)
    requires s != [] && NoDup(s)
    ensures NoDup(s[1..]) && s[0] !in s[1..]
  {
  }

  lemma NewHead<T(!new)>(x: T, s: seq<T>)
    requires NoDup(s)
    ensures x !in s ==> NoDup([x] + s)
  {
    assert forall i :: 0 <= i < |s| ==> ([x] + s)[i + 1] == s[i] && s[i] in s;
  }

  lemma {:induction false} CountInNoDup<T(!new)>(s: seq<T>, x: T)
    requires NoDup(s)
    ensures multiset(s)[x] <= 1
  {
    if s != [] {
      NoDupTail(s);
      CountInNoDup(s[1..], x);
      assert s == [s[0]] + s[1..];
    }
  }

  lemma NoDupByCount<T(!new)>(s: seq<T>)
    ensures NoDup(s) <==> forall x :: multiset(s)[x] <= 1
  {
    if NoDup(s) {
      forall x ensures multiset(s)[x] <= 1 {
        CountInNoDup(s, x);
      }
    } else {
      var i, j :| 0 <= i < j < |s| && s[i] == s[j];
      assert s == s[..j] + s[j..];
      assert s[i] in s[..j] && s[j] in s[j..];
      assert multiset(s)[s[i]] >= 2;
    }
  }

  function Outside<T(==,!new)>(s: seq<T>, gone: set<T>): (r: seq<T>)
    ensures forall x :: x in r <==> x in s && x !in gone
  {
    if s == [] then [] else if s[0] in gone then Outside(s[1..], gone) else [s[0]] + Outside(s[1..], gone)
  }

  lemma {:induction false} OutsideKeepsNoDup<T(!new)>(s: seq<T>, gone: set<T>)
    requires NoDup(s)
    ensures NoDup(Outside(s, gone))
  {
    if s != [] {
      NoDupTail(s);
      OutsideKeepsNoDup(s[1..], gone);
      NewHead(s[0], Outside(s[1..], gone));
    }
  }

  lemma {:induction false} OutsideNothing<T(!new)>(s: seq<T>)
    ensures Outside(s, {}) == s
  {
    if s != [] {
      OutsideNothing(s[1..]);
    }
  }

  predicate Subsequence<T(==)>(a: seq<T>, b: seq<T>) {
    if a == [] then true else
    if b == [] then false else
    if a[0] == b[0] then Subsequence(a[1..], b[1..]) else Subsequence(a, b[1..])
  }

  lemma {:induction false} DropFirstKeepsSubsequence<T>(a: seq<T>, b: seq<T>)
    requires a != [] && Subsequence(a, b)
    ensures Subsequence(a[1..], b)
    decreases |b|, 0
  {
    if a[0] == b[0] {
      SubsequenceOfMore(a[1..], b[1..], b[0]);
      assert [b[0]] + b[1..] == b;
    } else {
      DropFirstKeepsSubsequence(a, b[1..]);
      SubsequenceOfMore(a[1..], b[1..], b[0]);
      assert [b[0]] + b[1..] == b;
    }
  }

  lemma {:induction false} SubsequenceOfMore<T>(a: seq<T>, b: seq<T>, x: T)
    ensures Subsequence(a, b) ==> Subsequence(a, [x] + b)
    decreases |b|, 1
  {
    assert ([x] + b)[1..] == b;
    if a != [] && b != [] && a[0] == x && Subsequence(a, b) {
      DropFirstKeepsSubsequence(a, b);
    }
  }
}

module Maps {
  lemma OverlayPut<K, V>(a: map<K, V>, b: map<K, V>, k: K, v: V)
    ensures a + b[k := v] == (a + b)[k := v]
  {
  }

  lemma OverlayAssociative<K, V>(a: map<K, V>, b: map<K, V>, c: map<K, V>)
    ensures (a + b) + c == a + (b + c)
  {
  }

  lemma OverlayEmpty<K, V>(a: map<K, V>)
    ensures a + map[] == a && map[] + a == a
  {
  }

  lemma PutSize<K, V>(m: map<K, V>, k: K, v: V)
    ensures |m[k := v]| == if k in m then |m| else |m| + 1
  {
  }
}

module FiniteSets {
  lemma SubsetSize<T>(a: set<T>, b: set<T>)
    requires a <= b
    ensures |a| <= |b|
  {
    assert b == a + (b - a);
  }

  lemma SameSize<T>(a: set<T>, b: set<T>)
    requires a <= b && |a| >= |b|
    ensures a == b
  {
    assert b == a + (b - a);
  }
}
