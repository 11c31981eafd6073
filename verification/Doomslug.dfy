/** The Doomslug state machine: timer, tip, and the approval trackers of the heights
    around the tip. */
module Doomslug {
  import opened Basics
  import opened Approvals
  import opened Naturals
  import opened Stakes
  import opened Trackers
  import opened VoteRuns
  import opened Books
  import T = Timer

  /** Trackers whose objects do not change keep their state. */
  twostate lemma Undisturbed(t: TrackersAtHeight)
    requires old(t.Valid()) && forall o :: o in old(t.Repr()) ==> unchanged(o)
    ensures t.Valid() && t.State() == old(t.State()) && t.Repr() == old(t.Repr())
  {
    assert t in old(t.Repr());
    assert unchanged(t);
    forall k | k in t.approvalTrackers ensures unchanged(t.approvalTrackers[k]) {
      assert t.approvalTrackers[k] in old(t.Repr());
    }
  }

  class Doomslug {
    var approvalTracking: map<Height, TrackersAtHeight>
    var largestSentTargetHeight: Height
    var largestFinalHeight: Height
    var largestThresholdApprovalsHeight: Height
    var largestApprovalTargetHeight: Height
    var tipHash: CryptoHash
    var tipHeight: Height
    var endorsementPending: bool
    var timerStarted: Instant
    var lastEndorsementSent: Instant
    var timerHeight: Height
    const config: T.Config
    const thresholdMode: ThresholdMode

    ghost var repr: set<object>

    /** Every height's trackers are sound and share no object with another height's. */
    ghost predicate Separate()
      reads this`approvalTracking, this`repr, repr
    {
      && (forall h :: h in approvalTracking ==>
            approvalTracking[h] in repr && approvalTracking[h].Repr() <= repr && approvalTracking[h].Valid())
      && (forall h, g :: h in approvalTracking && g in approvalTracking && h != g ==>
            approvalTracking[h].Repr() !! approvalTracking[g].Repr())
    }

    ghost predicate Valid()
      reads this, repr
    {
      && this !in repr
      && Separate()
      && largestThresholdApprovalsHeight <= largestApprovalTargetHeight
    }

    ghost function TimerState(): T.State
      reads this
    {
      T.State(config, timerStarted, lastEndorsementSent, timerHeight, tipHash, tipHeight, endorsementPending,
              largestSentTargetHeight, largestFinalHeight)
    }

    ghost function Heights(): (m: map<Height, HeightState>)
      requires Separate()
      reads this`approvalTracking, this`repr, repr
      ensures m.Keys == approvalTracking.Keys
    {
      map h | h in approvalTracking :: approvalTracking[h].State()
    }

    /** The part that approvals and blocks change besides the timer's. */
    ghost function Book(): Book
      requires Separate()
      reads this, repr
    {
      Books.Book(Heights(), tipHeight, largestApprovalTargetHeight, largestThresholdApprovalsHeight)
    }

    constructor (largestSent: Height, config: T.Config, mode: ThresholdMode, now0: Instant, now1: Instant)
      ensures Valid() && repr == {} && Book() == NEW && thresholdMode == mode
      ensures TimerState() == T.New(largestSent, config, now0, now1)
      ensures timerStarted == now0 && lastEndorsementSent == now1 && largestSentTargetHeight == largestSent
      ensures tipHash == DEFAULT_HASH && tipHeight == timerHeight == largestFinalHeight == 0 && !endorsementPending
    {
      approvalTracking := map[];
      largestSentTargetHeight, largestFinalHeight := largestSent, 0;
      largestThresholdApprovalsHeight, largestApprovalTargetHeight := 0, 0;
      tipHash, tipHeight, endorsementPending := DEFAULT_HASH, 0, false;
      timerStarted, lastEndorsementSent, timerHeight := now0, now1, 0;
      this.config, thresholdMode, repr := config, mode, {};
    }

    method CreateApproval(target: Height) returns (r: ApprovalContent)
      ensures r == T.CreateApproval(TimerState(), target)
    {
      r := NewContent(tipHash, tipHeight, target);
    }

    /** One turn of the timer loop; `more` is whether it goes on. */
    method Turn(cur: Instant) returns (sent: seq<ApprovalContent>, more: bool, assertionsHold: bool)
      modifies this`largestSentTargetHeight, this`lastEndorsementSent, this`endorsementPending,
               this`timerStarted, this`timerHeight
      ensures
        var s := old(TimerState());
        var s1 := T.AfterEndorsement(s, cur);
        && more == T.SkipDue(s1, cur)
        && TimerState() == (if more then T.AfterSkip(s1) else s1)
        && sent == T.EndorsementSent(s, cur) + (if more then [T.CreateApproval(s1, s1.timerHeight + 1)] else [])
        && assertionsHold == (T.SkipDelay(s) >= 2 * s.config.endorsementDelay && (more ==> !s1.endorsementPending))
    {
      sent := [];
      var skipDelay := T.GetDelay(config, SaturatingSub(timerHeight, largestFinalHeight));
      assertionsHold := skipDelay >= 2 * config.endorsementDelay;

      if endorsementPending && cur >= lastEndorsementSent + config.endorsementDelay {
        if tipHeight >= largestSentTargetHeight {
          largestSentTargetHeight := tipHeight + 1;
          var endorsement := CreateApproval(tipHeight + 1);
          sent := sent + [endorsement];
        }
        lastEndorsementSent := cur;
        endorsementPending := false;
      }

      more := cur >= timerStarted + skipDelay;
      if more {
        assertionsHold := assertionsHold && !endorsementPending;
        largestSentTargetHeight := Max(timerHeight + 1, largestSentTargetHeight);
        var skip := CreateApproval(timerHeight + 1);
        sent := sent + [skip];
        timerStarted := timerStarted + skipDelay;
        timerHeight := timerHeight + 1;
      }
    }

    /** The second result is whether a debug build gets past both assertions. */
    method ProcessTimer(cur: Instant) returns (ret: seq<ApprovalContent>, assertionsHold: bool)
      requires Valid()
      modifies this`largestSentTargetHeight, this`lastEndorsementSent, this`endorsementPending,
               this`timerStarted, this`timerHeight
      ensures Valid() && Book() == old(Book())
      ensures T.Outcome(TimerState(), ret, assertionsHold) == T.ProcessTimer(old(TimerState()), cur)
    {
      hide Separate, Heights, T.Loop, T.ProcessTimer, T.Ahead, T.AfterEndorsement, T.AfterSkip, T.EndorsementSent,
        T.CreateApproval, T.SkipDue, T.SkipDelay, TimerState;
      ret, assertionsHold := [], true;
      T.AheadOfLoop(TimerState(), cur, ret, assertionsHold);
      var i := 0;
      while i < T.MAX_TIMER_ITERS
        invariant i <= T.MAX_TIMER_ITERS
        invariant T.ProcessTimer(old(TimerState()), cur)
               == T.Ahead(ret, assertionsHold, T.Loop(TimerState(), cur, T.MAX_TIMER_ITERS - i))
      {
        T.AheadTurn(TimerState(), cur, T.MAX_TIMER_ITERS - i, ret, assertionsHold);
        var sent, more, ok := Turn(cur);
        ret, assertionsHold := ret + sent, assertionsHold && ok;
        if !more {
          return;
        }
        i := i + 1;
      }
      T.AheadOfLoop(TimerState(), cur, ret, assertionsHold);
    }

    /** When no tracker changes, the heights still tracked keep their state. */
    twostate lemma Untouched()
      requires old(Separate()) && repr == old(repr) && forall o :: o in repr ==> unchanged(o)
      requires forall h :: h in approvalTracking ==>
        h in old(approvalTracking) && approvalTracking[h] == old(approvalTracking[h])
      ensures Separate()
      ensures Heights() == map h | h in old(Heights()) && h in approvalTracking :: old(Heights())[h]
    {
      hide TrackersAtHeight.Valid, TrackersAtHeight.State;
      forall h | h in approvalTracking
        ensures approvalTracking[h].Repr() == old(approvalTracking[h].Repr())
        ensures approvalTracking[h].Valid() && approvalTracking[h].State() == old(approvalTracking[h].State())
      {
        Undisturbed(approvalTracking[h]);
      }
    }

    /** Forgets the heights out of reach of a tip. */
    method Prune(tip: Height)
      requires Separate() && this !in repr
      modifies this`approvalTracking
      ensures Separate()
      ensures Heights() == Pruned(old(Heights()), tip)
    {
      hide Separate, Heights, Retained;
      approvalTracking := map h | h in approvalTracking && Retained(tip, h) :: approvalTracking[h];
      Untouched();
    }

    /** The result is whether a debug build gets past the assertion. */
    method OnBlock(now: Instant, hash: CryptoHash, height: Height, lastFinal: Height)
      returns (assertionHolds: bool)
      requires Valid()
      modifies this
      ensures Valid() && repr == old(repr)
      ensures T.Outcome(TimerState(), [], assertionHolds)
           == T.Handle(old(TimerState()), T.OnBlock(now, hash, height, lastFinal))
      ensures Book() == old(Book()).OnBlock(height)
    {
      hide Separate, Heights, Retained, TrackersAtHeight.Valid, TrackersAtHeight.Repr, TrackersAtHeight.State;
      assertionHolds := height > tipHeight || tipHeight == 0;
      tipHash, tipHeight := hash, height;
      largestFinalHeight := lastFinal;
      timerHeight, timerStarted := height + 1, now;
      endorsementPending := true;
      Prune(height);
    }

    /** When one height's trackers change, only that height's state changes. */
    twostate lemma OneHeightChanged(h: Height)
      requires old(Separate()) && h in approvalTracking && approvalTracking == old(approvalTracking)
      requires approvalTracking[h].Valid()
      requires forall o :: o in old(repr) && o !in old(approvalTracking[h].Repr()) ==> unchanged(o)
      requires fresh(approvalTracking[h].Repr() - old(approvalTracking[h].Repr()))
      requires repr == old(repr) + approvalTracking[h].Repr()
      ensures Separate()
      ensures Heights() == old(Heights())[h := approvalTracking[h].State()]
    {
      hide TrackersAtHeight.Valid, HeightState.WellFormed, Tracker.Valid;
      forall g | g in approvalTracking && g != h
        ensures approvalTracking[g].Valid() && approvalTracking[g].State() == old(approvalTracking[g].State())
        ensures approvalTracking[g].Repr() == old(approvalTracking[g].Repr())
      {
        Undisturbed(approvalTracking[g]);
      }
    }

    /** Added trackers that share nothing with the others keep them apart. */
    twostate lemma AddedIsSeparate(h: Height)
      requires old(Separate()) && h !in old(approvalTracking) && h in approvalTracking
      requires approvalTracking.Keys == old(approvalTracking.Keys) + {h}
      requires forall g :: g in old(approvalTracking) ==>
        g in approvalTracking && approvalTracking[g] == old(approvalTracking[g])
      requires approvalTracking[h].Valid() && approvalTracking[h].Repr() !! old(repr)
      requires repr == old(repr) + approvalTracking[h].Repr()
      requires forall o :: o in old(repr) ==> unchanged(o)
      ensures Separate()
    {
      hide TrackersAtHeight.Valid, TrackersAtHeight.State;
      forall g | g in old(approvalTracking)
        ensures approvalTracking[g].Repr() == old(approvalTracking[g].Repr()) && approvalTracking[g].Valid()
      {
        Undisturbed(approvalTracking[g]);
      }
    }

    twostate lemma AddedHeights(h: Height)
      requires old(Separate()) && Separate() && h in approvalTracking
      requires approvalTracking.Keys == old(approvalTracking.Keys) + {h} && h !in old(approvalTracking)
      requires forall g :: g in old(approvalTracking) ==>
        g in approvalTracking && approvalTracking[g].State() == old(approvalTracking[g].State())
      ensures Heights() == old(Heights())[h := approvalTracking[h].State()]
    {
      hide Separate, TrackersAtHeight.State;
    }

    /** When trackers for a new height are added, the others keep their state. */
    twostate lemma OneHeightAdded(h: Height)
      requires old(Separate()) && h !in old(approvalTracking) && h in approvalTracking
      requires approvalTracking.Keys == old(approvalTracking.Keys) + {h}
      requires forall g :: g in old(approvalTracking) ==>
        g in approvalTracking && approvalTracking[g] == old(approvalTracking[g])
      requires approvalTracking[h].Valid() && approvalTracking[h].Repr() !! old(repr)
      requires repr == old(repr) + approvalTracking[h].Repr()
      requires forall o :: o in old(repr) ==> unchanged(o)
      ensures Separate()
      ensures Heights() == old(Heights())[h := approvalTracking[h].State()]
    {
      hide TrackersAtHeight.Valid, TrackersAtHeight.State;
      AddedIsSeparate(h);
      forall g | g in old(approvalTracking) ensures approvalTracking[g].State() == old(approvalTracking[g].State()) {
        Undisturbed(approvalTracking[g]);
      }
      AddedHeights(h);
      hide Separate, Heights, TrackersAtHeight.Repr;
    }

    /** The trackers of a height, made when there are none. */
    method TrackersFor(h: Height) returns (t: TrackersAtHeight)
      requires Separate() && this !in repr
      modifies this`approvalTracking, this`repr
      ensures Separate() && this !in repr && h in approvalTracking && approvalTracking[h] == t
      ensures fresh(repr - old(repr)) && old(repr) <= repr
      ensures Heights() == old(Heights())[h := At(old(Heights()), h)]
    {
      hide TrackersAtHeight.Valid, Separate;
      if h !in approvalTracking {
        t := new TrackersAtHeight();
        approvalTracking := approvalTracking[h := t];
        assert t.Repr() !! repr;
        repr := repr + t.Repr();
        OneHeightAdded(h);
      }
      t := approvalTracking[h];
    }

    method RecordIn(t: TrackersAtHeight, now: Instant, approval: ApprovalValidated, stakes: seq<ApprovalStake>)
      returns (ret: Readiness)
      requires Separate() && this !in repr && StakeListOk(stakes)
      requires approval.content.targetHeight in approvalTracking && approvalTracking[approval.content.targetHeight] == t
      modifies this`repr, repr
      ensures Separate() && this !in repr && fresh(repr - old(repr))
      ensures var c := Call(now, approval, StakesOf(stakes));
        Heights() == Recorded(old(Heights()), c, thresholdMode) && ret == VerdictOf(Heights(), c)
    {
      hide TrackersAtHeight.Valid, HeightState.Processed, TrackersAtHeight.State, StakeListOk, StakesOf;
      ret := t.ProcessApproval(now, approval, stakes, thresholdMode);
      repr := repr + t.Repr();
      OneHeightChanged(approval.content.targetHeight);
    }

    /** Counts one approval in the trackers of its target height. */
    method Record(now: Instant, approval: ApprovalValidated, stakes: seq<ApprovalStake>) returns (ret: Readiness)
      requires Separate() && this !in repr && StakeListOk(stakes)
      modifies this`approvalTracking, this`repr, repr
      ensures Separate() && this !in repr && fresh(repr - old(repr))
      ensures var c := Call(now, approval, StakesOf(stakes));
        Heights() == Recorded(old(Heights()), c, thresholdMode) && ret == VerdictOf(Heights(), c)
    {
      hide Separate, Heights, VerdictOf, HeightState.Processed, StakeListOk, StakesOf, TrackersAtHeight.Repr;
      var t := TrackersFor(approval.content.targetHeight);
      ret := RecordIn(t, now, approval, stakes);
    }

    method OnApprovalInternal(now: Instant, approval: ApprovalValidated, stakes: seq<ApprovalStake>)
      returns (ret: Readiness)
      requires Valid() && StakeListOk(stakes)
      modifies this`approvalTracking, this`repr, this`largestApprovalTargetHeight,
               this`largestThresholdApprovalsHeight, repr
      ensures Valid() && fresh(repr - old(repr)) && TimerState() == old(TimerState())
      ensures var c := Call(now, approval, StakesOf(stakes));
        Book() == old(Book()).Taking(c, thresholdMode) && ret == VerdictOf(Heights(), c)
    {
      hide Separate, Heights, Recorded, VerdictOf, StakeListOk, StakesOf;
      var target := approval.content.targetHeight;
      ret := Record(now, approval, stakes);
      if target > largestApprovalTargetHeight {
        largestApprovalTargetHeight := target;
      }
      if ret != NotReady && target > largestThresholdApprovalsHeight {
        largestThresholdApprovalsHeight := target;
      }
    }

    method OnApproval(now: Instant, approval: ApprovalValidated, stakes: seq<ApprovalStake>)
      requires Valid() && (InHorizon(tipHeight, approval.content.targetHeight) ==> StakeListOk(stakes))
      modifies this`approvalTracking, this`repr, this`largestApprovalTargetHeight,
               this`largestThresholdApprovalsHeight, repr
      ensures Valid() && fresh(repr - old(repr)) && TimerState() == old(TimerState())
      ensures Book() == old(Book()).OnApproval(Call(now, approval, StakesOf(stakes)), thresholdMode)
    {
      hide Separate, Heights, Recorded, VerdictOf;
      if approval.content.targetHeight < tipHeight
         || approval.content.targetHeight > tipHeight + MAX_HEIGHTS_AHEAD_TO_STORE_APPROVALS
      {
        return;
      }
      var ret := OnApprovalInternal(now, approval, stakes);
    }
  }
}
