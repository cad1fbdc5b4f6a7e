/** A pull-in by software of the ClockMatrix PHC followed over runs, with the misc driver's calls
    in between: what survives until the worker, and what happens when its restore fails. */
module ClockMatrixPullIn {
  import opened CInt
  import FrequencyWord
  import PullIn
  import opened Options
  import opened ClockMatrixPhc

  /** The worker gets the lock. */
  predicate WorkerActs(s: Sys, e: Event) { e.WorkerRuns? && s.misc == None }

  /** A phase call that takes a channel out of write-frequency mode. */
  predicate TakesMode(s: Sys, e: Event) { e.CallAdjphase? && s.misc == None && !ModeFails(s.phc, WritePhase, e.f) }

  predicate SamePullIn(c: Phc, d: Phc) {
    && c.pullIn == d.pullIn && c.queued == d.queued && c.delayMs == d.delayMs
    && c.current == d.current && c.regs.freq == d.regs.freq && c.variant == d.variant
  }

  lemma PullInStep(s: Sys, e: Event)
    requires s.phc.pullIn && !WorkerActs(s, e)
    ensures SamePullIn(s.phc, Step(s, e).phc)
  {
  }

  lemma ModeStep(s: Sys, e: Event)
    requires s.phc.pullIn && !WorkerActs(s, e)
    ensures s.phc.mode == WriteFrequency ==>
              (Step(s, e).phc.mode == if TakesMode(s, e) then WritePhase else WriteFrequency)
    ensures s.phc.mode == WritePhase ==> Step(s, e).phc.mode == WritePhase
  {
  }

  ghost predicate BeforeWorker(states: seq<Sys>, events: seq<Event>, from: nat, n: nat)
    requires IsRun(states, events)
  {
    n <= |events| && forall i | from <= i < n :: !WorkerActs(states[i], events[i])
  }

  /** Until the worker acts, nothing touches a pull-in ... */
  lemma {:induction false} LeftAloneUntilWorker(states: seq<Sys>, events: seq<Event>, from: nat, n: nat)
    requires IsRun(states, events) && from <= n && BeforeWorker(states, events, from, n) && states[from].phc.pullIn
    ensures SamePullIn(states[from].phc, states[n].phc)
  {
    if from < n {
      LeftAloneUntilWorker(states, events, from, n - 1);
      PullInStep(states[n - 1], events[n - 1]);
    }
  }

  ghost predicate NoneTakesMode(states: seq<Sys>, events: seq<Event>, from: nat, n: nat)
    requires IsRun(states, events) && n <= |events|
  {
    forall i | from <= i < n :: !TakesMode(states[i], events[i])
  }

  /** ... but the mode, which stays exactly as long as no phase call takes it. */
  lemma {:induction false} ModeUntilWorker(states: seq<Sys>, events: seq<Event>, from: nat, n: nat)
    requires IsRun(states, events) && from <= n && BeforeWorker(states, events, from, n)
    requires states[from].phc.pullIn && states[from].phc.mode == WriteFrequency
    ensures states[n].phc.mode == if NoneTakesMode(states, events, from, n) then WriteFrequency else WritePhase
  {
    if from < n {
      var s, e := states[n - 1], events[n - 1];
      ModeUntilWorker(states, events, from, n - 1);
      LeftAloneUntilWorker(states, events, from, n - 1);
      ModeStep(s, e);
      assert states[n - 1 + 1] == Step(s, e);
      assert NoneTakesMode(states, events, from, n) <==> NoneTakesMode(states, events, from, n - 1) && !TakesMode(s, e);
    }
  }

  /** Event 0 is an adjtime that starts a pull-in of `delta` ns and succeeds. */
  ghost predicate Starts(s: Sys, e: Event, delta: int) {
    && s.misc == None && e.CallAdjtime? && e.delta == delta && -TWO_63 < delta < TWO_63
    && Pulls(s.phc, delta) && !WriteFails(s.phc, e.f)
  }

  lemma StartState(s: Sys, e: Event, delta: int)
    requires Safe(s) && Starts(s, e, delta)
    ensures var c0, c1 := s.phc, Step(s, e).phc;
            var step := PullIn.Scaled(PullIn.Offset(delta, PullInLimit(c0.maxAdj)));
            && c1.pullIn && c1.queued && c1.current == c0.current && c1.mode == WriteFrequency && c1.delayMs > 0
            && c1.regs.freq == FrequencyWord.Encode(FrequencyWord.ClockMatrix, PullInFrequency(c0, delta))
            && Abs(8192 * delta * 1000 - 125 * step * c1.delayMs) < 8317 * c1.delayMs
            && (PullInFrequency(c0, delta) == c0.current + step <==>
                  Abs(c0.current + step) <= PullIn.Scaled(PULL_IN_MAX_PPB))
  {
    assert Abs64(delta) == Abs(delta) && S32(delta) == delta;
    PullInDelivers(s.phc, delta, e.f);
    WriteFrequencySafe(s, PullInFrequency(s.phc, delta), e.f);
  }

  /** Main result. A pull-in that starts runs its course in every run: up to its worker the
      register holds the pull-in's frequency, which is the old one plus the step exactly within
      the clamp; step and delay together make up the phase asked for; the channel is in
      write-frequency mode at each point exactly when no phase call has taken the mode since;
      and the worker ends the pull-in exactly if its write does not fail. The register then holds
      the old frequency, and else still the pull-in's, if failed writes leave the device alone. */
  lemma PullInRunsItsCourse(states: seq<Sys>, events: seq<Event>, delta: int, m: nat)
    requires IsRun(states, events) && 1 <= m < |events| && Safe(states[0]) && Starts(states[0], events[0], delta)
    requires BeforeWorker(states, events, 1, m) && WorkerActs(states[m], events[m])
    requires forall e | e in events :: Accepted(e)
    ensures var c0, delayMs := states[0].phc, states[1].phc.delayMs;
            var step := PullIn.Scaled(PullIn.Offset(delta, PullInLimit(c0.maxAdj)));
            && Abs(8192 * delta * 1000 - 125 * step * delayMs) < 8317 * delayMs
            && (PullInFrequency(c0, delta) == c0.current + step <==>
                  Abs(c0.current + step) <= PullIn.Scaled(PULL_IN_MAX_PPB))
            && forall n | 1 <= n <= m ::
                 && states[n].phc.pullIn && states[n].phc.queued && states[n].phc.delayMs == delayMs
                 && states[n].phc.current == c0.current
                 && states[n].phc.regs.freq
                      == FrequencyWord.Encode(FrequencyWord.ClockMatrix, PullInFrequency(c0, delta))
                 && (GetField(states[n].phc.regs.manuRef, 1, 32) == 17 <==> NoneTakesMode(states, events, 1, n))
    ensures var c := states[m + 1].phc;
            && (!c.pullIn <==> !WriteFails(states[m].phc, events[m].f))
            && (!c.pullIn ==> c.regs.freq == FrequencyWord.Encode(FrequencyWord.ClockMatrix, states[0].phc.current))
            && (c.pullIn && events[m].f.torn == None ==> c.regs.freq == states[m].phc.regs.freq)
  {
    StartState(states[0], events[0], delta);
    assert states[0 + 1] == Step(states[0], events[0]);
    forall n | 1 <= n <= m
      ensures SamePullIn(states[1].phc, states[n].phc)
      ensures GetField(states[n].phc.regs.manuRef, 1, 32) == 17 <==> NoneTakesMode(states, events, 1, n)
    {
      EveryRunIsSafe(states, events, n);
      LeftAloneUntilWorker(states, events, 1, n);
      ModeUntilWorker(states, events, 1, n);
    }
    WriteFailsExactly(states[m].phc.(queued := false), states[m].phc.current, events[m].f);
  }

  // ---- Runs in which it goes wrong, on a bus without errors ----

  const NO_FAULTS := Faults(0, 0, 0, 0, 0, None, 0, 0, 0)

  /** A probed channel that is driven by the manual reference, before its first call. */
  ghost predicate Fresh(s: Sys) {
    && Safe(s) && s.misc == None && !s.phc.pullIn && s.phc.current == 0 && s.phc.maxAdj == 244000
    && s.phc.variant == ManualReference && s.phc.mode == WriteFrequency
  }

  lemma ProbedIsFresh(c: Phc)
    requires !c.pullIn && c.current == 0 && c.maxAdj == 244000
    requires GetField(c.regs.dpllMode, 8, 8) == 0 && GetField(c.regs.manuRef, 1, 32) == 17
    ensures Fresh(Sys(Initialize(c, 0, 0, NO_FAULTS).0, None, None, None, false))
  {
    InitializeCoherent(c, 0, 0, NO_FAULTS);
  }

  lemma PullInOf(c: Phc, delta: int)
    requires PULL_IN_MIN_NS <= delta < PULL_IN_THRESHOLD_NS && c.maxAdj == 244000
    requires !c.pullIn && c.variant == ManualReference && c.mode == WriteFrequency
    ensures Pulls(c, delta) && S32(delta) == delta
    ensures PullInFrequency(c, delta) == PullIn.Shifted32(c.current, delta, PULL_IN_MAX_PPB)
  {
    TDivUnique(delta, 1, delta);
  }

  /** A phase call takes the channel out of write-frequency mode in the middle of a pull-in; the
      frequency word stays where it is, without effect. */
  lemma PhaseCallTakesModeFromPullIn(s: Sys) returns (states: seq<Sys>, events: seq<Event>)
    requires Fresh(s)
    ensures IsRun(states, events) && states[0] == s && |events| == 2
    ensures states[1].phc.pullIn && GetField(states[1].phc.regs.manuRef, 1, 32) == 17
    ensures SamePullIn(states[1].phc, states[2].phc) && GetField(states[2].phc.regs.manuRef, 1, 32) == 16
  {
    events := [CallAdjtime(1000, NO_FAULTS), CallAdjphase(0, NO_FAULTS)];
    var s1 := Step(s, events[0]);
    states := [s, s1, Step(s1, events[1])];
    PullInOf(s.phc, 1000);
    SetFieldSplits(s1.phc.regs.manuRef, 1, 32, 16);
  }

  /** A clock set 200 ppm fast is asked to gain 10 us and is slowed down instead: 9437184 is the
      clamp of 144000 ppb. */
  lemma PullInTheWrongWay(s: Sys) returns (states: seq<Sys>, events: seq<Event>)
    requires Fresh(s)
    ensures IsRun(states, events) && states[0] == s
    ensures events == [CallAdjfine(13107200, NO_FAULTS), CallAdjtime(10000, NO_FAULTS)]
    ensures states[1].phc.regs.freq == FrequencyWord.Encode(FrequencyWord.ClockMatrix, 13107200)
    ensures states[2].phc.pullIn && states[2].phc.regs.freq == FrequencyWord.Encode(FrequencyWord.ClockMatrix, 9437184)
    ensures states[2].phc.regs.freq != states[1].phc.regs.freq
  {
    events := [CallAdjfine(13107200, NO_FAULTS), CallAdjtime(10000, NO_FAULTS)];
    var s1 := Step(s, events[0]);
    states := [s, s1, Step(s1, events[1])];
    PullInOf(s1.phc, 10000);
    assert PullIn.Scaled(PULL_IN_MAX_PPB) == 9437184 && PullIn.Scaled(10000) == 655360;
    if states[2].phc.regs.freq == states[1].phc.regs.freq {
      FrequencyWord.EncodeInjective(FrequencyWord.ClockMatrix, 13107200, 9437184);
    }
  }

  // ---- A failed restore ----

  /** A pull-in without a worker. */
  predicate Wedged(s: Sys) { s.phc.pullIn && !s.phc.queued }

  /** The one restore attempt of a pull-in wedges it exactly when its frequency write fails. */
  lemma FailedRestoreWedges(s: Sys, f: Faults)
    requires s.phc.pullIn && s.phc.queued && s.misc == None
    ensures Wedged(Step(s, WorkerRuns(f))) <==> WriteFails(s.phc, f)
  {
    WriteFailsExactly(s.phc.(queued := false), s.phc.current, f);
  }

  lemma WedgedStep(s: Sys, e: Event)
    requires Wedged(s)
    ensures Wedged(Step(s, e)) && SamePullIn(s.phc, Step(s, e).phc)
  {
  }

  /** From then on the frequency stays where the failed restore left it, every adjfine reports
      success without effect and every adjtime is busy (see PullInExcludes). */
  lemma {:induction false} WedgedForEver(states: seq<Sys>, events: seq<Event>, n: nat)
    requires IsRun(states, events) && n < |states| && Wedged(states[0])
    ensures Wedged(states[n]) && SamePullIn(states[0].phc, states[n].phc)
    ensures forall ppm, f :: Adjfine(states[n].phc, ppm, f) == (states[n].phc, 0)
    ensures forall delta, f :: Adjtime(states[n].phc, delta, f) == (states[n].phc, EBUSY)
  {
    if n > 0 {
      WedgedForEver(states, events, n - 1);
      WedgedStep(states[n - 1], events[n - 1]);
    }
  }

  lemma WorkerEndsPullIn(s: Sys) returns (states: seq<Sys>, events: seq<Event>)
    requires s.phc.pullIn && s.phc.queued
    ensures IsRun(states, events) && states[0] == s && !states[|events|].phc.pullIn
  {
    events := [MiscWrites(0), WorkerRuns(NO_FAULTS)];
    var s1 := Step(s, events[0]);
    states := [s, s1, Step(s1, events[1])];
    WriteFailsExactly(s1.phc.(queued := false), s1.phc.current, NO_FAULTS);
  }

  /** So a pull-in stays on in every run exactly when it is wedged. */
  lemma WedgedExactly(s: Sys)
    requires s.phc.pullIn
    ensures Wedged(s) <==>
      forall states: seq<Sys>, events: seq<Event> | IsRun(states, events) && states[0] == s ::
        states[|events|].phc.pullIn
  {
    if Wedged(s) {
      forall states: seq<Sys>, events: seq<Event> | IsRun(states, events) && states[0] == s
        ensures states[|events|].phc.pullIn
      {
        WedgedForEver(states, events, |events|);
      }
    } else {
      var states, events := WorkerEndsPullIn(s);
    }
  }
}
