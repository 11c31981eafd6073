/** Stake sums over sets of accounts, and the two-thirds threshold with floor division. */
module Stakes {
  import opened Approvals

  const U128_LIMIT: nat := 0x1_0000_0000_0000_0000_0000_0000_0000_0000

  /** A `u128` amount. */
  type Balance = x: nat | x < 0x1_0000_0000_0000_0000_0000_0000_0000_0000

  datatype Stake = Stake(thisEpoch: Balance, nextEpoch: Balance)
  datatype Epoch = ThisEpoch | NextEpoch
  type StakeMap = map<Address, Stake>

  datatype ThresholdMode = NoApprovals | TwoThirds

  function StakeOf(stakes: StakeMap, a: Address): Stake {
    if a in stakes then stakes[a] else Stake(0, 0)
  }

  function Weight(stakes: StakeMap, a: Address, e: Epoch): nat {
    if e.ThisEpoch? then StakeOf(stakes, a).thisEpoch else StakeOf(stakes, a).nextEpoch
  }

  ghost function Sum(stakes: StakeMap, s: set<Address>, e: Epoch): nat {
    if s == {} then 0 else
    var a :| a in s;
    Weight(stakes, a, e) + Sum(stakes, s - {a}, e)
  }

  ghost function Total(stakes: StakeMap, e: Epoch): nat {
    Sum(stakes, stakes.Keys, e)
  }

  /** Doubling either total does not overflow. */
  ghost predicate StakesFit(stakes: StakeMap) {
    2 * Total(stakes, ThisEpoch) < U128_LIMIT && 2 * Total(stakes, NextEpoch) < U128_LIMIT
  }

  lemma {:induction false} SumRemove(stakes: StakeMap, s: set<Address>, a: Address, e: Epoch)
    requires a in s
    ensures Sum(stakes, s, e) == Weight(stakes, a, e) + Sum(stakes, s - {a}, e)
  {
    var b :| b in s && Sum(stakes, s, e) == Weight(stakes, b, e) + Sum(stakes, s - {b}, e);
    if a != b {
      SumRemove(stakes, s - {b}, a, e);
      SumRemove(stakes, s - {a}, b, e);
      assert s - {b} - {a} == s - {a} - {b};
    }
  }

  lemma SumAdd(stakes: StakeMap, s: set<Address>, a: Address, e: Epoch)
    requires a !in s
    ensures Sum(stakes, s + {a}, e) == Weight(stakes, a, e) + Sum(stakes, s, e)
  {
    SumRemove(stakes, s + {a}, a, e);
    assert s + {a} - {a} == s;
  }

  /** Inclusion and exclusion. */
  lemma {:induction false} SumUnion(stakes: StakeMap, a: set<Address>, b: set<Address>, e: Epoch)
    ensures Sum(stakes, a + b, e) + Sum(stakes, a * b, e) == Sum(stakes, a, e) + Sum(stakes, b, e)
    decreases a
  {
    if a == {} {
      assert {} + b == b && {} * b == {};
    } else {
      var x :| x in a;
      var rest := a - {x};
      SumUnion(stakes, rest, b, e);
      SumRemove(stakes, a, x, e);
      if x in b {
        assert a + b == rest + b;
        assert a * b == rest * b + {x};
        SumAdd(stakes, rest * b, x, e);
      } else {
        assert a + b == rest + b + {x};
        assert a * b == rest * b;
        SumAdd(stakes, rest + b, x, e);
      }
    }
  }

  lemma {:induction false} SumOfStrangers(stakes: StakeMap, s: set<Address>, e: Epoch)
    requires s !! stakes.Keys
    ensures Sum(stakes, s, e) == 0
    decreases s
  {
    if s != {} {
      var a :| a in s;
      SumRemove(stakes, s, a, e);
      SumOfStrangers(stakes, s - {a}, e);
    }
  }

  lemma SumMonotone(stakes: StakeMap, a: set<Address>, b: set<Address>, e: Epoch)
    requires a <= b
    ensures Sum(stakes, a, e) <= Sum(stakes, b, e)
  {
    SumUnion(stakes, a, b - a, e);
    assert a + (b - a) == b && a * (b - a) == {};
  }

  /** No set of accounts outweighs the stake map: strangers weigh nothing. */
  lemma {:induction false} SumAtMostTotal(stakes: StakeMap, s: set<Address>, e: Epoch)
    ensures Sum(stakes, s, e) <= Total(stakes, e)
  {
    SumUnion(stakes, s, stakes.Keys, e);
    SumUnion(stakes, s - stakes.Keys, stakes.Keys, e);
    assert (s - stakes.Keys) * stakes.Keys == {};
    assert (s - stakes.Keys) + stakes.Keys == s + stakes.Keys;
    SumOfStrangers(stakes, s - stakes.Keys, e);
    SumMonotone(stakes, s * stakes.Keys, stakes.Keys, e);
  }

  /** `approved > total * 2 / 3`, with the multiplication first and the division rounding down. */
  predicate OverTwoThirds(approved: nat, total: nat) {
    approved > total * 2 / 3
  }

  /** Whether a set of approving accounts lets a block be produced. */
  ghost predicate Passes(stakes: StakeMap, witnesses: set<Address>, mode: ThresholdMode) {
    || mode.NoApprovals?
    || (&& OverTwoThirds(Sum(stakes, witnesses, ThisEpoch), Total(stakes, ThisEpoch))
        && (|| OverTwoThirds(Sum(stakes, witnesses, NextEpoch), Total(stakes, NextEpoch))
            || Total(stakes, NextEpoch) == 0))
  }

  /** Two sets over the threshold share strictly more than a third of the stake. */
  lemma QuorumIntersection(stakes: StakeMap, a: set<Address>, b: set<Address>, e: Epoch)
    requires OverTwoThirds(Sum(stakes, a, e), Total(stakes, e))
    requires OverTwoThirds(Sum(stakes, b, e), Total(stakes, e))
    ensures 3 * Sum(stakes, a * b, e) > Total(stakes, e)
  {
    SumUnion(stakes, a, b, e);
    SumAtMostTotal(stakes, a + b, e);
  }

  /** More approvals never lose readiness. */
  lemma PassesMonotone(stakes: StakeMap, a: set<Address>, b: set<Address>, mode: ThresholdMode)
    requires a <= b && Passes(stakes, a, mode)
    ensures Passes(stakes, b, mode)
  {
    SumMonotone(stakes, a, b, ThisEpoch);
    SumMonotone(stakes, a, b, NextEpoch);
  }
}
