/** Strictly ascending sequences: the sorted enumeration of a finite set. */
module Sorted {
  ghost predicate StrictOrder<T(!new)>(less: (T, T) -> bool) {
    && (forall x, y :: less(x, y) ==> !less(y, x))
    && (forall x, y :: x != y ==> less(x, y) || less(y, x))
    && (forall x, y, z :: less(x, y) && less(y, z) ==> less(x, z))
  }

  ghost predicate Ascending<T>(less: (T, T) -> bool, s: seq<T>) {
    forall i, j :: 0 <= i < j < |s| ==> less(s[i], s[j])
  }

  lemma SomeElement<T>(s: seq<T>) returns (x: T)
    requires s != []
    ensures x in s
  {
    x := s[0];
  }

  lemma TailElements<T(!new)>(less: (T, T) -> bool, s: seq<T>, x: T)
    requires StrictOrder(less) && Ascending(less, s) && s != []
    ensures x in s[1..] <==> x in s && x != s[0]
  {
  }

  /** A set has one ascending enumeration. */
  lemma {:induction false} AscendingUnique<T(!new)>(less: (T, T) -> bool, a: seq<T>, b: seq<T>)
    requires StrictOrder(less) && Ascending(less, a) && Ascending(less, b)
    requires forall x :: x in a <==> x in b
    ensures a == b
  {
    if a == [] {
      if b != [] {
        var x := SomeElement(b);
        assert false;
      }
    } else {
      assert a[0] in b && b[0] in a;
      assert a[0] == b[0];
      forall x ensures x in a[1..] <==> x in b[1..] {
        TailElements(less, a, x);
        TailElements(less, b, x);
      }
      AscendingUnique(less, a[1..], b[1..]);
      assert a == [a[0]] + a[1..] && b == [b[0]] + b[1..];
    }
  }

  ghost predicate IsLeast<T(!new)>(less: (T, T) -> bool, m: T, s: set<T>) {
    m in s && forall x :: x in s ==> x == m || less(m, x)
  }

  lemma {:induction false} LeastExists<T(!new)>(less: (T, T) -> bool, s: set<T>) returns (m: T)
    requires StrictOrder(less) && s != {}
    ensures IsLeast(less, m, s)
  {
    var y :| y in s;
    if s == {y} {
      m := y;
    } else {
      m := LeastExists(less, s - {y});
      if less(y, m) {
        m := y;
      }
    }
  }

  ghost function Least<T(!new)>(less: (T, T) -> bool, s: set<T>): (m: T)
    requires exists m :: IsLeast(less, m, s)
    ensures IsLeast(less, m, s)
  {
    var m :| IsLeast(less, m, s);
    m
  }

  /** The ascending enumeration of a finite set; see `SortSpec`. */
  ghost function Sort<T(!new)>(less: (T, T) -> bool, s: set<T>): seq<T> {
    if exists m :: IsLeast(less, m, s) then
      var m := Least(less, s);
      [m] + Sort(less, s - {m})
    else
      []
  }

  lemma {:induction false} SortSpec<T(!new)>(less: (T, T) -> bool, s: set<T>)
    requires StrictOrder(less)
    ensures Ascending(less, Sort(less, s))
    ensures forall x :: x in Sort(less, s) <==> x in s
    ensures |Sort(less, s)| == |s|
    decreases s
  {
    if s != {} {
      var least := LeastExists(less, s);
      var m := Least(less, s);
      SortSpec(less, s - {m});
      var rest := Sort(less, s - {m});
      forall i | 0 <= i < |rest| ensures less(m, rest[i]) {
        assert rest[i] in rest;
        assert rest[i] in s && rest[i] != m;
      }
    }
  }

  lemma SortIsUnique<T(!new)>(less: (T, T) -> bool, s: set<T>, a: seq<T>)
    requires StrictOrder(less) && Ascending(less, a)
    requires forall x :: x in a <==> x in s
    ensures Sort(less, s) == a
  {
    SortSpec(less, s);
    AscendingUnique(less, Sort(less, s), a);
  }

  function Reverse<T(!new)>(s: seq<T>): (r: seq<T>)
    ensures |r| == |s| && forall i :: 0 <= i < |s| ==> r[i] == s[|s| - 1 - i]
    ensures forall x :: x in r <==> x in s
  {
    if s == [] then [] else Reverse(s[1..]) + [s[0]]
  }

  function Take<T>(s: seq<T>, n: nat): seq<T> {
    if n <= |s| then s[..n] else s
  }

  function Last<T>(s: seq<T>, n: nat): seq<T> {
    if n <= |s| then s[|s| - n..] else s
  }

  /** Reversing the first `n` of the reversed list gives the last `n`. */
  lemma LastByReversing<T(!new)>(s: seq<T>, n: nat)
    ensures Reverse(Take(Reverse(s), n)) == Last(s, n)
  {
  }

  /** Sorting by the opposite order gives the reverse. */
  lemma SortReversed<T(!new)>(less: (T, T) -> bool, more: (T, T) -> bool, s: set<T>)
    requires StrictOrder(less) && StrictOrder(more)
    requires forall x, y :: less(x, y) <==> more(y, x)
    ensures Sort(more, s) == Reverse(Sort(less, s))
  {
    SortSpec(less, s);
    SortSpec(more, s);
    AscendingUnique(more, Sort(more, s), Reverse(Sort(less, s)));
  }

  ghost function Filter<T(!new)>(s: seq<T>, keep: T -> bool): (r: seq<T>)
    ensures forall x :: x in r <==> x in s && keep(x)
    ensures |r| <= |s|
  {
    if s == [] then [] else
    assert s == [s[0]] + s[1..];
    (if keep(s[0]) then [s[0]] else []) + Filter(s[1..], keep)
  }

  lemma {:induction false} FilterAscending<T(!new)>(less: (T, T) -> bool, s: seq<T>, keep: T -> bool)
    requires Ascending(less, s)
    ensures Ascending(less, Filter(s, keep))
  {
    if s != [] {
      FilterAscending(less, s[1..], keep);
      var r := Filter(s[1..], keep);
      forall i | 0 <= i < |r| ensures less(s[0], r[i]) {
        assert r[i] in s[1..];
      }
    }
  }

  ghost function Subset<T>(s: set<T>, keep: T -> bool): set<T> {
    set x | x in s && keep(x)
  }

  /** Filtering the sorted list is sorting the filtered set. */
  lemma SortOfSubset<T(!new)>(less: (T, T) -> bool, s: set<T>, keep: T -> bool)
    requires StrictOrder(less)
    ensures Sort(less, Subset(s, keep)) == Filter(Sort(less, s), keep)
  {
    SortSpec(less, s);
    FilterAscending(less, Sort(less, s), keep);
    SortIsUnique(less, Subset(s, keep), Filter(Sort(less, s), keep));
  }

  lemma FilterStep<T(!new)>(s: seq<T>, keep: T -> bool)
    ensures s == [] ==> Filter(s, keep) == []
    ensures s != [] ==> Filter(s, keep) == (if keep(s[0]) then [s[0]] else []) + Filter(s[1..], keep)
  {
  }

  /** A filter that keeps what lies from position `i` on keeps the tail. */
  lemma {:induction false} FilterIsTail<T(!new)>(s: seq<T>, keep: T -> bool, i: nat)
    requires i <= |s|
    requires forall k :: 0 <= k < |s| ==> (keep(s[k]) <==> k >= i)
    ensures Filter(s, keep) == s[i..]
  {
    hide Filter;
    FilterStep(s, keep);
    if s != [] {
      var j := if i == 0 then 0 else i - 1;
      FilterIsTail(s[1..], keep, j);
      assert s == [s[0]] + s[1..];
      assert i > 0 ==> s[i..] == s[1..][j..];
    }
  }

  /** A filter that keeps what lies before position `i` keeps the front. */
  lemma {:induction false} FilterIsFront<T(!new)>(s: seq<T>, keep: T -> bool, i: nat)
    requires i <= |s|
    requires forall k :: 0 <= k < |s| ==> (keep(s[k]) <==> k < i)
    ensures Filter(s, keep) == s[..i]
  {
    hide Filter;
    FilterStep(s, keep);
    if s != [] {
      var j := if i == 0 then 0 else i - 1;
      FilterIsFront(s[1..], keep, j);
      assert i > 0 ==> s[..i] == [s[0]] + s[1..][..j];
    }
  }
}
