/** What one call of the timer does, field by field, and over runs exactly when a block is
    endorsed. */
module Endorsing {
  import opened Basics
  import opened Approvals
  import opened Naturals
  import opened Timer

  /** The delay, by height: the minimum up to two heights after the final one, and then the step
      more for each, up to the maximum. */
  lemma DelayGrows(c: Config, n: nat)
    ensures n <= 2 ==> GetDelay(c, n) == Min(c.maxDelay, c.minDelay)
    ensures 2 <= n < U32_MAX ==> GetDelay(c, n + 1) == Min(c.maxDelay, GetDelay(c, n) + c.delayStep)
    ensures n >= U32_MAX ==> GetDelay(c, n) == GetDelay(c, U32_MAX)
  {
    if 2 <= n < U32_MAX {
      assert c.delayStep * (n - 1) == c.delayStep * (n - 2) + c.delayStep;
    }
  }

  /** When the timer runs out. */
  function Deadline(s: State): Instant {
    s.started + GetDelay(s.config, if s.timerHeight >= s.largestFinal then s.timerHeight - s.largestFinal else 0)
  }

  /** When a pending endorsement may go out. */
  function EndorsableAt(s: State): Instant {
    s.lastEndorsementSent + s.config.endorsementDelay
  }

  /** The endorsement of the tip. */
  function TipEndorsed(s: State): ApprovalContent {
    ApprovalContent(Endorsement(s.tipHash), s.tipHeight + 1)
  }

  lemma {:induction false} DelaysAddUp(s: State, height: Height, k: nat)
    ensures SumDelays(s, height, k + 1)
         == SumDelays(s, height, k)
            + GetDelay(s.config, if height + k >= s.largestFinal then height + k - s.largestFinal else 0)
    decreases k
  {
    if k > 0 {
      DelaysAddUp(s, height + 1, k - 1);
    }
  }

  lemma DeadlineAfterSkips(s: State, s': State, cur: Instant, k: nat)
    requires Skipped(s, s', cur, k)
    ensures Deadline(s') == s.started + SumDelays(s, s.timerHeight, k + 1)
    ensures SkipDue(s', cur) <==> cur >= Deadline(s')
  {
    DelaysAddUp(s, s.timerHeight, k);
  }

  /** Skips over the tip for `k` successive heights. */
  function SkipsOver(s: State, target: Height, k: nat): seq<ApprovalContent> {
    seq(k, i requires 0 <= i < k => ApprovalContent(Skip(s.tipHeight), target + i))
  }

  lemma SkipsAboveTheTip(s: State, target: Height, k: nat)
    requires target > s.tipHeight + 1
    ensures SkipsFrom(s, target, k) == SkipsOver(s, target, k)
  {
  }

  /** The loop never runs ahead of the clock. */
  lemma {:induction false} NoEarlySkips(s: State, cur: Instant, n: nat)
    ensures var s' := Loop(s, cur, n).state;
      if s'.timerHeight == s.timerHeight then s'.started == s.started
      else s'.timerHeight > s.timerHeight && s'.started <= cur
    decreases n
  {
    hide GetDelay;
    if n > 0 {
      var s1 := AfterEndorsement(s, cur);
      LoopTurn(s, cur, n);
      NoSkips(s, cur);
      hide Loop;
      if SkipDue(s1, cur) {
        NoEarlySkips(AfterSkip(s1), cur, n - 1);
      }
    }
  }

  /** What goes out before the skips: a pending endorsement whose delay is over, if nothing was
      sent for a height above the tip. */
  function FirstSent(s: State, cur: Instant): seq<ApprovalContent> {
    if s.endorsementPending && cur >= EndorsableAt(s) && s.tipHeight >= s.largestSent then [TipEndorsed(s)] else []
  }

  lemma FirstStep(s: State, cur: Instant)
    ensures EndorsementSent(s, cur) == FirstSent(s, cur)
    ensures var due := s.endorsementPending && cur >= EndorsableAt(s);
      AfterEndorsement(s, cur) == s.(
        endorsementPending := s.endorsementPending && !due,
        lastEndorsementSent := if due then cur else s.lastEndorsementSent,
        largestSent := if FirstSent(s, cur) != [] then s.tipHeight + 1 else s.largestSent)
    ensures Deadline(AfterEndorsement(s, cur)) == Deadline(s)
    ensures FirstSent(s, cur) != [] ==> s.tipHeight >= s.largestSent
  {
  }

  /** One call on a started timer. A pending endorsement whose delay is over has its flag cleared
      and the delay started anew, whether it is sent or not. Then a skip goes out for each height
      whose delays are over, at most twenty, and the timer moves on by just these. */
  lemma TickExactly(s: State, cur: Instant) returns (k: nat)
    requires Started(s)
    ensures var r := ProcessTimer(s, cur);
      var due := s.endorsementPending && cur >= EndorsableAt(s);
      && k <= MAX_TIMER_ITERS
      && r.sent == FirstSent(s, cur) + SkipsOver(s, s.timerHeight + 1, k)
      && r.state == s.(
           endorsementPending := s.endorsementPending && !due,
           lastEndorsementSent := if due then cur else s.lastEndorsementSent,
           started := s.started + SumDelays(s, s.timerHeight, k),
           timerHeight := s.timerHeight + k,
           largestSent :=
             if k > 0 then Max(s.timerHeight + k, s.largestSent)
             else if FirstSent(s, cur) != [] then s.tipHeight + 1
             else s.largestSent)
      && (k > 0 ==> r.state.started <= cur)
    ensures k > 0 <==> cur >= Deadline(s)
    ensures k < MAX_TIMER_ITERS ==> cur < s.started + SumDelays(s, s.timerHeight, k + 1)
  {
    hide Loop, GetDelay, SkipsFrom, SkipsOver, SkipDue, EndorsementSent, AfterEndorsement, SumDelays, Deadline, FirstSent;
    k := LoopShape(s, cur, MAX_TIMER_ITERS);
    var r := ProcessTimer(s, cur);
    FirstStep(s, cur);
    NoEarlySkips(s, cur, MAX_TIMER_ITERS);
    SkipsAboveTheTip(s, s.timerHeight + 1, k);
    NoSkips(s, cur);
    DeadlineAfterSkips(s, AfterEndorsement(s, cur), cur, 0);
    DeadlineAfterSkips(s, r.state, cur, k);
  }

  /** The delay at a height, given the final one. */
  function DelayAt(s: State, height: Height): nat {
    GetDelay(s.config, if height >= s.largestFinal then height - s.largestFinal else 0)
  }

  ghost predicate ApartBetween(s: State, lo: Height, hi: Height) {
    forall h :: lo <= h <= hi ==> DelayAt(s, h) >= 2 * s.config.endorsementDelay
  }

  lemma TurnAssertions(s: State, cur: Instant)
    ensures SkipDelay(s) == DelayAt(s, s.timerHeight)
    ensures var s1 := AfterEndorsement(s, cur);
      && s1.timerHeight == s.timerHeight
      && (s1.endorsementPending <==> s.endorsementPending && cur < EndorsableAt(s))
      && AfterSkip(s1).timerHeight == s.timerHeight + 1
      && AfterSkip(s1).endorsementPending == s1.endorsementPending
      && (cur < EndorsableAt(AfterSkip(s1)) || !AfterSkip(s1).endorsementPending)
      && SameTip(AfterSkip(s1), s) && SameTip(s1, s)
  {
  }

  /** Exactly when a debug build gets past the assertions of a loop: at every height that it looks at
      the delay is at least twice that of endorsements, and no skip goes out while an
      endorsement still has to wait. */
  lemma {:induction false} AssertionsExactly(s: State, cur: Instant, n: nat)
    requires n > 0
    ensures var r := Loop(s, cur, n);
      && s.timerHeight <= r.state.timerHeight <= s.timerHeight + n
      && (r.assertionsHold <==>
            && ApartBetween(s, s.timerHeight, Min(r.state.timerHeight, s.timerHeight + n - 1))
            && !(r.state.timerHeight > s.timerHeight && s.endorsementPending && cur < EndorsableAt(s)))
    decreases n
  {
    hide GetDelay, SkipDelay, AfterEndorsement, AfterSkip, SkipDue, EndorsementSent, EndorsableAt, Loop;
    LoopTurn(s, cur, n);
    TurnAssertions(s, cur);
    var s1 := AfterEndorsement(s, cur);
    if SkipDue(s1, cur) {
      var s2 := AfterSkip(s1);
      NoSkips(s2, cur);
      assert forall h :: DelayAt(s2, h) == DelayAt(s, h);
      if n > 1 {
        AssertionsExactly(s2, cur, n - 1);
      }
    }
  }

  function Ticks(times: seq<Instant>): seq<Event> {
    seq(|times|, i requires 0 <= i < |times| => Tick(times[i]))
  }

  /** Some tick comes when the pending endorsement may go out. */
  predicate SomeDue(s: State, times: seq<Instant>) {
    exists i | 0 <= i < |times| :: times[i] >= EndorsableAt(s)
  }

  /** No tick comes when it may go out, or when the timer has run out. */
  predicate Waits(s: State, times: seq<Instant>) {
    forall i | 0 <= i < |times| :: times[i] < EndorsableAt(s) && times[i] < Deadline(s)
  }

  /** The first tick at which the endorsement may go out comes before the timer runs out, but for
      that very tick, and nothing was sent for a height above the tip. */
  predicate Endorses(s: State, times: seq<Instant>) {
    && s.tipHeight >= s.largestSent
    && exists i | 0 <= i < |times| :: times[i] >= EndorsableAt(s) && Waits(s, times[..i])
  }

  lemma OneTickMore(s: State, times: seq<Instant>, t: Instant)
    ensures Ticks(times + [t])[..|times|] == Ticks(times) && Ticks(times + [t])[|times|] == Tick(t)
    ensures SomeDue(s, times + [t]) <==> SomeDue(s, times) || t >= EndorsableAt(s)
    ensures Waits(s, times + [t]) <==> Waits(s, times) && t < EndorsableAt(s) && t < Deadline(s)
    ensures Waits(s, times) ==> !SomeDue(s, times)
    ensures Endorses(s, times) ==> SomeDue(s, times)
  {
    hide EndorsableAt, Deadline;
    var more := times + [t];
    assert more[|times|] == t && forall i :: 0 <= i < |times| ==> more[i] == times[i];
    if SomeDue(s, times) {
      var i :| 0 <= i < |times| && times[i] >= EndorsableAt(s);
      assert more[i] >= EndorsableAt(s);
    }
  }

  lemma OneTickMoreEndorses(s: State, times: seq<Instant>, t: Instant)
    ensures Endorses(s, times + [t]) <==>
      Endorses(s, times) || (s.tipHeight >= s.largestSent && t >= EndorsableAt(s) && Waits(s, times))
  {
    hide EndorsableAt, Waits;
    var more := times + [t];
    assert forall i :: 0 <= i <= |times| ==> more[..i] == times[..i];
    assert times[..|times|] == times && more[|times|] == t;
    if Endorses(s, times) {
      var i :| 0 <= i < |times| && times[i] >= EndorsableAt(s) && Waits(s, times[..i]);
      assert more[i] >= EndorsableAt(s) && Waits(s, more[..i]);
    } else if s.tipHeight >= s.largestSent && t >= EndorsableAt(s) && Waits(s, times) {
      assert more[|times|] >= EndorsableAt(s) && Waits(s, more[..|times|]);
    }
  }

  /** How the ticks after a block go. */
  ghost predicate GoesOn(s: State, times: seq<Instant>, r: Outcome) {
    && Started(r.state) && SameTip(r.state, s) && r.state.largestSent >= s.largestSent
    && (Waits(s, times) ==> r.state == s)
    && r.state.endorsementPending == !SomeDue(s, times)
    && (!SomeDue(s, times) ==> r.state.lastEndorsementSent == s.lastEndorsementSent)
    && (!SomeDue(s, times) && !Waits(s, times) ==> r.state.largestSent > r.state.tipHeight)
    && (TipEndorsed(s) in r.sent <==> Endorses(s, times))
    && (forall m :: m in r.sent && m.inner.Endorsement? ==> m == TipEndorsed(s))
  }

  /** The endorsements of one call. */
  lemma TickEndorses(s: State, cur: Instant)
    requires Started(s)
    ensures var sent := ProcessTimer(s, cur).sent;
      && (TipEndorsed(s) in sent <==> FirstSent(s, cur) != [])
      && (forall m :: m in sent && m.inner.Endorsement? ==> m == TipEndorsed(s))
  {
    hide ProcessTimer, SumDelays, Deadline;
    var k := TickExactly(s, cur);
    var skips := SkipsOver(s, s.timerHeight + 1, k);
    assert forall m :: m in FirstSent(s, cur) + skips <==> m in FirstSent(s, cur) || m in skips;
    assert forall m :: m in skips ==> m.inner.Skip?;
  }

  lemma NoDelay(s: State, height: Height)
    ensures SumDelays(s, height, 0) == 0
  {
  }

  lemma GoesOnFor(s: State, times: seq<Instant>, r: Outcome, t: Instant)
    requires s.endorsementPending && GoesOn(s, times, r)
    ensures var next := ProcessTimer(r.state, t);
      GoesOn(s, times + [t], Outcome(next.state, r.sent + next.sent, r.assertionsHold && next.assertionsHold))
  {
    hide ProcessTimer, Waits, SomeDue, Endorses, SumDelays, GetDelay, SkipsOver, Ticks, Deadline;
    var k := TickExactly(r.state, t);
    TickEndorses(r.state, t);
    OneTickMore(s, times, t);
    OneTickMoreEndorses(s, times, t);
    var sent := ProcessTimer(r.state, t).sent;
    assert forall m :: m in r.sent + sent <==> m in r.sent || m in sent;
    assert SumDelays(r.state, r.state.timerHeight, 0) == 0 by {
      NoDelay(r.state, r.state.timerHeight);
    }
  }

  lemma NoTicks(s: State)
    requires Started(s) && s.endorsementPending
    ensures GoesOn(s, [], Run(s, Ticks([])))
  {
  }

  /** Exactly when a run of ticks endorses the tip, and that it endorses nothing else. */
  lemma {:induction false} TicksEndorse(s: State, times: seq<Instant>)
    requires Started(s) && s.endorsementPending
    ensures GoesOn(s, times, Run(s, Ticks(times)))
  {
    hide GoesOn, ProcessTimer;
    if times == [] {
      NoTicks(s);
    } else {
      var front, t := times[..|times| - 1], times[|times| - 1];
      TicksEndorse(s, front);
      GoesOnFor(s, front, Run(s, Ticks(front)), t);
      assert front + [t] == times;
      OneTickMore(s, front, t);
    }
  }

  lemma {:induction false} RunSplits(s: State, a: seq<Event>, b: seq<Event>)
    ensures var (first, all) := (Run(s, a), Run(s, a + b));
      var second := Run(first.state, b);
      all == Outcome(second.state, first.sent + second.sent, first.assertionsHold && second.assertionsHold)
    decreases |b|
  {
    hide Handle;
    if b == [] {
      assert a + b == a && Run(s, a).sent + [] == Run(s, a).sent;
    } else {
      var front, last := b[..|b| - 1], b[|b| - 1];
      RunSplits(s, a, front);
      assert (a + b)[..|a + b| - 1] == a + front && (a + b)[|a + b| - 1] == last;
    }
  }

  lemma JustABlock(s: State, e: Event)
    requires e.OnBlock?
    ensures var r := Run(s, [e]);
      r.sent == [] && r.state == s.(
        tipHash := e.hash, tipHeight := e.height, largestFinal := e.lastFinal,
        timerHeight := e.height + 1, started := e.now, endorsementPending := true)
  {
    assert [e][..0] == [];
    assert Run(s, []) == Outcome(s, [], true);
  }

  lemma {:induction false} ConfigStays(s: State, events: seq<Event>)
    requires Started(s) || Fresh(s)
    ensures var end := Run(s, events).state; end.config == s.config && (Started(end) || Fresh(end))
  {
    if events != [] {
      var front, last := events[..|events| - 1], events[|events| - 1];
      ConfigStays(s, front);
      if last.Tick? {
        var before := Run(s, front).state;
        var k := LoopShape(before, last.now, MAX_TIMER_ITERS);
        if Started(before) {
          BatchRises(before, last.now);
        } else {
          FreshBatch(before, last.now);
        }
        hide Loop;
      }
    }
  }

  lemma WaitsByIndex(s: State, times: seq<Instant>)
    ensures Endorses(s, times) <==>
      && s.tipHeight >= s.largestSent
      && exists i :: 0 <= i < |times| && times[i] >= EndorsableAt(s)
           && forall j :: 0 <= j < i ==> times[j] < EndorsableAt(s) && times[j] < Deadline(s)
  {
    hide EndorsableAt, Deadline;
    forall i | 0 <= i < |times|
      ensures Waits(s, times[..i]) <==> forall j :: 0 <= j < i ==> times[j] < EndorsableAt(s) && times[j] < Deadline(s)
    {
      assert forall j :: 0 <= j < i ==> times[..i][j] == times[j] && times[j] in times[..i];
    }
  }

  lemma NewIsFresh(mark: Height, config: Config, t0: Instant, t1: Instant)
    ensures Fresh(New(mark, config, t0, t1))
  {
  }

  lemma AfterABlock(s: State, times: seq<Instant>)
    requires s.endorsementPending && s.timerHeight == s.tipHeight + 1
    ensures var sent := Run(s, Ticks(times)).sent;
      && (TipEndorsed(s) in sent <==> Endorses(s, times))
      && (forall m :: m in sent && m.inner.Endorsement? ==> m == TipEndorsed(s))
  {
    TicksEndorse(s, times);
  }

  /** Over any run from start-up: after a block, and until the next one, the block is endorsed
      exactly when nothing was sent for a height above it before, and some tick comes when the
      endorsement may go out, with no tick before that on which the timer had run out. Nothing
      else is endorsed. */
  lemma BlockEndorsedExactly(
      mark: Height, config: Config, t0: Instant, t1: Instant, front: seq<Event>,
      now: Instant, hash: CryptoHash, height: Height, lastFinal: Height, times: seq<Instant>)
    ensures
      var before := Run(New(mark, config, t0, t1), front);
      var all := Run(New(mark, config, t0, t1), front + [OnBlock(now, hash, height, lastFinal)] + Ticks(times));
      var endorsable := before.state.lastEndorsementSent + config.endorsementDelay;
      var deadline := now + GetDelay(config, if height + 1 >= lastFinal then height + 1 - lastFinal else 0);
      && |all.sent| >= |before.sent| && all.sent[..|before.sent|] == before.sent
      && var sent := all.sent[|before.sent|..];
         var endorsement := ApprovalContent(Endorsement(hash), height + 1);
         && (endorsement in sent <==>
               && before.state.largestSent <= height
               && exists i :: 0 <= i < |times| && times[i] >= endorsable
                    && forall j :: 0 <= j < i ==> times[j] < endorsable && times[j] < deadline)
         && (forall m :: m in sent && m.inner.Endorsement? ==> m == endorsement)
  {
    hide Run, Endorses, Started, Fresh, ProcessTimer, GetDelay, Ticks;
    var block := OnBlock(now, hash, height, lastFinal);
    var s0 := New(mark, config, t0, t1);
    var before := Run(s0, front);
    var s := Run(before.state, [block]).state;
    NewIsFresh(mark, config, t0, t1);
    ConfigStays(s0, front);
    JustABlock(before.state, block);
    RunSplits(s0, front, [block]);
    RunSplits(s0, front + [block], Ticks(times));
    AfterABlock(s, times);
    WaitsByIndex(s, times);
  }

  lemma First(times: seq<Instant>, from: Instant) returns (i: nat)
    requires exists i :: 0 <= i < |times| && times[i] >= from
    ensures i < |times| && times[i] >= from && forall j :: 0 <= j < i ==> times[j] < from
  {
    if times[0] >= from {
      i := 0;
    } else {
      var k :| 0 <= k < |times| && times[k] >= from;
      assert times[1..][k - 1] == times[k];
      i := First(times[1..], from);
      i := i + 1;
    }
  }

  /** On a clock that never goes back, with delays apart, the timer never runs out first: a block
      is endorsed exactly when nothing was sent for a height above it before, and some tick
      comes before the next block when the endorsement may go out. */
  lemma ClockedBlocksAreEndorsed(
      mark: Height, config: Config, t0: Instant, t1: Instant, front: seq<Event>,
      now: Instant, hash: CryptoHash, height: Height, lastFinal: Height, times: seq<Instant>)
    requires DelaysApart(config) && Clocked(front, t1)
    requires t1 <= now && forall i :: 0 <= i < |front| ==> front[i].now <= now
    ensures
      var before := Run(New(mark, config, t0, t1), front);
      var all := Run(New(mark, config, t0, t1), front + [OnBlock(now, hash, height, lastFinal)] + Ticks(times));
      && |all.sent| >= |before.sent|
      && (ApprovalContent(Endorsement(hash), height + 1) in all.sent[|before.sent|..] <==>
            && before.state.largestSent <= height
            && exists i :: 0 <= i < |times| && times[i] >= before.state.lastEndorsementSent + config.endorsementDelay)
  {
    var before := Run(New(mark, config, t0, t1), front).state;
    var endorsable := before.lastEndorsementSent + config.endorsementDelay;
    BlockEndorsedExactly(mark, config, t0, t1, front, now, hash, height, lastFinal, times);
    RunsKeepAssertions(mark, config, t0, t1, front);
    DelayAtLeast(config, 2 * config.endorsementDelay);
    var n := if height + 1 >= lastFinal then height + 1 - lastFinal else 0;
    assert endorsable <= now + GetDelay(config, n);
    hide Run, GetDelay;
    if exists i :: 0 <= i < |times| && times[i] >= endorsable {
      var i := First(times, endorsable);
      assert times[i] >= endorsable;
    }
  }
}
