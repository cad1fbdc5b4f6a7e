/** A pull-in of the 82P33 PHC followed over runs: what can happen to its frequency, its delay
    and its mode between the adjtime that starts it and the worker that ends it. */
module SabrePullIn {
  import opened CInt
  import FrequencyWord
  import PullIn
  import opened Options
  import opened SabrePhc

  // ---- When a pull-in is left alone ----

  /** A call in progress that can still act on the pull-in: an adjfine for another frequency, or
      past its tests with another word; an adjtime that starts a pull-in of its own. If failed
      writes can leave other bytes behind (`torn`), any adjfine past its tests can. */
  predicate Disturbing(c: Chan, threshold: nat, torn: bool, pc: Pc) {
    match pc
    case FineEntered(ppm) => ppm != c.currentFreq
    case FinePassed(ppm) =>
      torn || ppm != c.currentFreq || FrequencyWord.Encode(FrequencyWord.Sabre, ppm) != c.freqReg
    case TimePassed(delta) => Pulls(delta, threshold)
  }

  /** As Safe has it: frequencies asked for fit 32 bits. */
  ghost predicate ThreadsInRange(s: Sys) {
    forall tid | tid in s.threads && !s.threads[tid].TimePassed? :: InRange(s.threads[tid].scaledPpm)
  }

  ghost predicate Quiet(s: Sys, threshold: nat, torn: bool) {
    && s.chan.ddco && ThreadsInRange(s)
    && forall tid | tid in s.threads :: !Disturbing(s.chan, threshold, torn, s.threads[tid])
  }

  /** Frequency, delay and flag are as they were, and the delay has not started again. */
  predicate SamePullIn(s: Sys, r: Sys) {
    && s.chan.ddco == r.chan.ddco && s.chan.freqReg == r.chan.freqReg && s.chan.currentFreq == r.chan.currentFreq
    && s.chan.delayMs == r.chan.delayMs && s.schedules == r.schedules
  }

  /** A bus on which failed writes can tear the register, or one on which they cannot. */
  predicate Allowed(torn: bool, e: Event) { torn || Untorn(e) }

  lemma QuietFineBody(s: Sys, threshold: nat, torn: bool, tid: nat, f: Faults)
    requires Quiet(s, threshold, torn) && (torn || f.torn == None)
    ensures var r := Step(s, threshold, FineBody(tid, f)).0;
            && Quiet(r, threshold, torn) && SamePullIn(s, r)
            && r.chan.queued == s.chan.queued && r.running == s.running
  {
    if tid in s.threads && s.threads[tid].FinePassed? {
      var c := AdjfineBody(s.chan, s.threads[tid].scaledPpm, f).0;
      assert c.freqReg == s.chan.freqReg && c.currentFreq == s.chan.currentFreq;
    }
  }

  lemma QuietStep(s: Sys, threshold: nat, torn: bool, e: Event)
    requires Quiet(s, threshold, torn) && !e.WorkerBody? && Allowed(torn, e)
    ensures var r := Step(s, threshold, e).0;
            && Quiet(r, threshold, torn) && SamePullIn(s, r)
            && (r.chan.queued || r.running <==> s.chan.queued || s.running)
  {
    match e
    case FineBody(tid, f) => QuietFineBody(s, threshold, torn, tid, f);
    case _ =>
  }

  /** A phase call that reaches the mode register. */
  predicate TakesMode(e: Event) { e.PhaseCall? && e.f.modeRead == 0 == e.f.modeWrite }

  lemma ModeStep(s: Sys, threshold: nat, e: Event)
    requires Quiet(s, threshold, true) && !e.WorkerBody?
    ensures var r := Step(s, threshold, e).0;
            && (s.chan.pllMode == DCO ==> (r.chan.pllMode == DCO <==> !TakesMode(e)))
            && (s.chan.pllMode == DCO && TakesMode(e) ==> r.chan.pllMode == WPH)
            && (s.chan.pllMode == WPH ==> r.chan.pllMode == WPH)
  {
  }

  ghost predicate BeforeWorker(events: seq<Event>, n: nat) {
    n <= |events| && forall i | 0 <= i < n :: !events[i].WorkerBody?
  }

  /** Until the worker acts, nothing touches a quiet pull-in ... */
  lemma {:induction false} LeftAloneUntilWorker(states: seq<Sys>, threshold: nat, torn: bool,
                                                events: seq<Event>, n: nat)
    requires IsRun(states, threshold, events) && BeforeWorker(events, n) && Quiet(states[0], threshold, torn)
    requires forall e | e in events :: Allowed(torn, e)
    ensures Quiet(states[n], threshold, torn) && SamePullIn(states[0], states[n])
    ensures states[n].chan.queued || states[n].running <==> states[0].chan.queued || states[0].running
  {
    if n > 0 {
      LeftAloneUntilWorker(states, threshold, torn, events, n - 1);
      QuietStep(states[n - 1], threshold, torn, events[n - 1]);
    }
  }

  /** ... and without an adjfine past its tests its mode stays exactly as long as no phase call
      takes it. */
  lemma {:induction false} ModeUntilWorker(states: seq<Sys>, threshold: nat, events: seq<Event>, n: nat)
    requires IsRun(states, threshold, events) && BeforeWorker(events, n) && Quiet(states[0], threshold, true)
    requires states[0].chan.pllMode == DCO
    ensures states[n].chan.pllMode == DCO || states[n].chan.pllMode == WPH
    ensures states[n].chan.pllMode == DCO <==> forall i | 0 <= i < n :: !TakesMode(events[i])
  {
    if n > 0 {
      ModeUntilWorker(states, threshold, events, n - 1);
      LeftAloneUntilWorker(states, threshold, true, events, n - 1);
      ModeStep(states[n - 1], threshold, events[n - 1]);
    }
  }

  function OtherBytes(b: seq<byte>): (o: seq<byte>)
    ensures |o| == 5 && o != b
  {
    if b == [0, 0, 0, 0, 0] then [1, 0, 0, 0, 0] else [0, 0, 0, 0, 0]
  }

  lemma DisturbedByEntered(s: Sys, threshold: nat, tid: nat) returns (states: seq<Sys>, events: seq<Event>)
    requires s.chan.ddco && ThreadsInRange(s) && tid in s.threads && s.threads[tid].FineEntered?
    requires s.threads[tid].scaledPpm != s.chan.currentFreq
    ensures IsRun(states, threshold, events) && states[0] == s && !SamePullIn(s, states[|events|])
    ensures events == [FineCheckFreq(tid), FineBody(tid, NO_FAULTS)]
  {
    events := [FineCheckFreq(tid), FineBody(tid, NO_FAULTS)];
    var s1 := Step(s, threshold, events[0]).0;
    states := [s, s1, Step(s1, threshold, events[1]).0];
  }

  /** A disturbing call has a continuation that disturbs, without a bus error unless it is the
      rewriting of the word that is there. */
  lemma DisturbedBy(s: Sys, threshold: nat, torn: bool, tid: nat) returns (states: seq<Sys>, events: seq<Event>)
    requires s.chan.ddco && ThreadsInRange(s) && tid in s.threads
    requires Disturbing(s.chan, threshold, torn, s.threads[tid])
    ensures IsRun(states, threshold, events) && BeforeWorker(events, |events|) && states[0] == s
    ensures forall e | e in events :: Allowed(torn, e)
    ensures Disturbing(s.chan, threshold, false, s.threads[tid]) ==>
              forall e | e in events && FaultsOf(e).Some? :: FaultsOf(e).value == NO_FAULTS
    ensures !SamePullIn(s, states[|events|])
  {
    match s.threads[tid]
    case FineEntered(_) =>
      states, events := DisturbedByEntered(s, threshold, tid);
    case FinePassed(_) =>
      var clean := Disturbing(s.chan, threshold, false, s.threads[tid]);
      events := [FineBody(tid, if clean then NO_FAULTS else Faults(0, 0, 1, Some(OtherBytes(s.chan.freqReg))))];
      states := [s, Step(s, threshold, events[0]).0];
    case TimePassed(_) =>
      events := [TimeBody(tid, NO_FAULTS)];
      states := [s, Step(s, threshold, events[0]).0];
  }

  ghost predicate LeftAlone(s: Sys, threshold: nat, torn: bool) {
    forall states: seq<Sys>, events: seq<Event> |
      IsRun(states, threshold, events) && states[0] == s && BeforeWorker(events, |events|)
      && (forall e | e in events :: Allowed(torn, e)) ::
      SamePullIn(s, states[|events|])
  }

  /** Main result: a pull-in survives every run up to its worker, frequency, delay and flag,
      exactly when no disturbing call is in progress; both on a bus whose failed writes can tear
      the register and on one whose failed writes leave the device alone. */
  lemma LeftAloneExactly(s: Sys, threshold: nat, torn: bool)
    requires s.chan.ddco && ThreadsInRange(s)
    ensures LeftAlone(s, threshold, torn) <==> Quiet(s, threshold, torn)
  {
    if Quiet(s, threshold, torn) {
      forall states: seq<Sys>, events: seq<Event> |
        IsRun(states, threshold, events) && states[0] == s && BeforeWorker(events, |events|)
        && forall e | e in events :: Allowed(torn, e)
        ensures SamePullIn(s, states[|events|])
      {
        LeftAloneUntilWorker(states, threshold, torn, events, |events|);
      }
    } else {
      var tid :| tid in s.threads && Disturbing(s.chan, threshold, torn, s.threads[tid]);
      var states, events := DisturbedBy(s, threshold, torn, tid);
    }
  }

  /** A worker that is at the lock already can end a pull-in at once, whatever its delay; without
      one no restore can come before the worker fires. */
  lemma EndedAtOnceExactly(s: Sys, threshold: nat)
    requires s.chan.ddco
    ensures (exists f :: !Step(s, threshold, WorkerBody(f)).0.chan.ddco) <==> s.running
  {
    if s.running {
      WriteFailsExactly(s.chan, s.chan.currentFreq, NO_FAULTS);
      assert !Step(s, threshold, WorkerBody(NO_FAULTS)).0.chan.ddco;
    }
  }

  // ---- From the adjtime to the worker ----

  function StepOf(deltaNs: int): int { PullIn.Scaled(PullIn.Offset(deltaNs, DCO_MAX_PPB)) }

  /** Event 0 starts a pull-in of `deltaNs` and succeeds; no worker of an earlier pull-in is
      waiting for the lock, and no disturbing call is left. */
  ghost predicate Starts(states: seq<Sys>, threshold: nat, events: seq<Event>, deltaNs: int)
    requires IsRun(states, threshold, events) && events != []
  {
    var s, e := states[0], events[0];
    && Safe(s) && !s.running
    && e.TimeBody? && e.tid in s.threads && s.threads[e.tid].TimePassed?
    && Pulls(s.threads[e.tid].delta, threshold) && S32(s.threads[e.tid].delta) == deltaNs
    && !WriteFails(s.chan, e.f)
    && Quiet(states[1], threshold, true)
  }

  lemma StartState(states: seq<Sys>, threshold: nat, events: seq<Event>, deltaNs: int)
    requires IsRun(states, threshold, events) && events != [] && Starts(states, threshold, events, deltaNs)
    ensures var c0, c1 := states[0].chan, states[1].chan;
            && Safe(states[1]) && !states[1].running && states[1].schedules == states[0].schedules + 1
            && c1.queued && c1.ddco && c1.pllMode == DCO
            && c1.freqReg == FrequencyWord.Encode(FrequencyWord.Sabre, PullInFrequency(c0, deltaNs))
            && c1.currentFreq == c0.currentFreq && c1.delayMs > 0
            && Abs(8192 * deltaNs * 1000 - 125 * StepOf(deltaNs) * c1.delayMs) < 8317 * c1.delayMs
            && (PullInFrequency(c0, deltaNs) == c0.currentFreq + StepOf(deltaNs) <==>
                  Abs(c0.currentFreq + StepOf(deltaNs)) <= PullIn.Scaled(DCO_MAX_PPB))
  {
    var s, e := states[0], events[0];
    PullInDelivers(s.chan, deltaNs, e.f);
    StepSafe(s, threshold, e);
  }

  /** What holds at every point from the start of the pull-in to its worker. */
  ghost predicate UnderWay(s0: Sys, s: Sys, deltaNs: int, delayMs: nat) {
    && s.chan.ddco && s.chan.currentFreq == s0.chan.currentFreq && s.chan.delayMs == delayMs
    && s.chan.freqReg == FrequencyWord.Encode(FrequencyWord.Sabre, PullInFrequency(s0.chan, deltaNs))
    && (s.chan.queued || s.running) && s.schedules == s0.schedules + 1
  }

  lemma LeftAloneFromStart(states: seq<Sys>, threshold: nat, events: seq<Event>, deltaNs: int, n: nat)
    requires IsRun(states, threshold, events) && events != [] && Starts(states, threshold, events, deltaNs)
    requires 1 <= n && BeforeWorker(events, n) && forall e | e in events :: Accepted(e)
    ensures UnderWay(states[0], states[n], deltaNs, states[1].chan.delayMs) && Safe(states[n])
    ensures GetField(states[n].chan.modeReg, 1, 32) == DCO <==> forall i | 1 <= i < n :: !TakesMode(events[i])
  {
    var later, rest := states[1..], events[1..];
    forall k | 0 <= k < |rest| ensures later[k + 1] == Step(later[k], threshold, rest[k]).0 {
      assert states[k + 1 + 1] == Step(states[k + 1], threshold, events[k + 1]).0;
    }
    StartState(states, threshold, events, deltaNs);
    LeftAloneUntilWorker(later, threshold, true, rest, n - 1);
    ModeUntilWorker(later, threshold, rest, n - 1);
    EveryInterleavingIsSafe(states, threshold, events, n);
    assert forall i | 0 <= i < n - 1 :: rest[i] == events[i + 1];
    assert (forall i | 1 <= i < n :: !TakesMode(events[i])) <==> forall i | 0 <= i < n - 1 :: !TakesMode(rest[i]) by {
      assert forall i | 1 <= i < n :: events[i] == rest[i - 1];
    }
  }

  /** The worker that reaches the lock has been taken off the queue after the start. */
  lemma {:induction false} WorkerFiredSince(states: seq<Sys>, threshold: nat, events: seq<Event>, n: nat)
    returns (k: nat)
    requires IsRun(states, threshold, events) && 1 <= n < |states|
    requires !states[1].running && states[n].running
    ensures 1 <= k < n && events[k].WorkerFires? && states[k].chan.queued && !states[k].running
  {
    if states[n - 1].running {
      k := WorkerFiredSince(states, threshold, events, n - 1);
    } else {
      k := n - 1;
    }
  }

  /** Main result. A pull-in that starts with no earlier worker in flight and no disturbing call
      in progress runs its course in every interleaving: from the start to the worker's body the
      register holds the pull-in's frequency, which is the old one plus the step exactly within
      the clamp; step and delay together make up the phase asked for; the worker that ends it
      has fired after the one scheduling, at the start; it ends the pull-in exactly if its write
      does not fail. The register then holds the old frequency, and else still the pull-in's, if
      failed writes leave the device alone. The device is in DCO mode at each point exactly when
      no phase call has taken the mode since. */
  lemma PullInRunsItsCourse(states: seq<Sys>, threshold: nat, events: seq<Event>, deltaNs: int, m: nat)
    requires IsRun(states, threshold, events) && events != [] && Starts(states, threshold, events, deltaNs)
    requires forall e | e in events :: Accepted(e)
    requires 1 <= m < |events| && BeforeWorker(events, m) && events[m].WorkerBody? && states[m].running
    ensures var delayMs := states[1].chan.delayMs;
            && Abs(8192 * deltaNs * 1000 - 125 * StepOf(deltaNs) * delayMs) < 8317 * delayMs
            && (PullInFrequency(states[0].chan, deltaNs) == states[0].chan.currentFreq + StepOf(deltaNs) <==>
                  Abs(states[0].chan.currentFreq + StepOf(deltaNs)) <= PullIn.Scaled(DCO_MAX_PPB))
            && forall n | 1 <= n <= m :: UnderWay(states[0], states[n], deltaNs, delayMs)
    ensures forall n | 1 <= n <= m ::
              GetField(states[n].chan.modeReg, 1, 32) == DCO <==> forall i | 1 <= i < n :: !TakesMode(events[i])
    ensures exists k :: 1 <= k < m && events[k].WorkerFires? && states[k].chan.queued && !states[k].running
    ensures !states[m + 1].chan.ddco <==> !WriteFails(states[m].chan, events[m].f)
    ensures states[m + 1].chan.ddco && events[m].f.torn == None ==>
              states[m + 1].chan.freqReg == states[m].chan.freqReg
    ensures !states[m + 1].chan.ddco ==>
              states[m + 1].chan.freqReg == FrequencyWord.Encode(FrequencyWord.Sabre, states[0].chan.currentFreq)
  {
    StartState(states, threshold, events, deltaNs);
    forall n | 1 <= n <= m
      ensures UnderWay(states[0], states[n], deltaNs, states[1].chan.delayMs)
      ensures GetField(states[n].chan.modeReg, 1, 32) == DCO <==> forall i | 1 <= i < n :: !TakesMode(events[i])
    {
      LeftAloneFromStart(states, threshold, events, deltaNs, n);
    }
    var k := WorkerFiredSince(states, threshold, events, m);
    WriteFailsExactly(states[m].chan, states[m].chan.currentFreq, events[m].f);
  }

  // ---- Runs on a bus without errors: one that goes right, and those that go wrong ----

  const SNAP_THRESHOLD_NS: nat := 10000

  lemma SmallPullIn(c: Chan, deltaNs: int)
    requires c.currentFreq == 0 && DDCO_THRESHOLD_NS <= deltaNs < SNAP_THRESHOLD_NS
    ensures Pulls(deltaNs, SNAP_THRESHOLD_NS) && S32(deltaNs) == deltaNs
    ensures PullInFrequency(c, deltaNs) == PullIn.Scaled(deltaNs)
  {
    TDivUnique(deltaNs, 1, deltaNs);
    PullIn.ShiftExact(0, deltaNs, DCO_MAX_PPB);
    TDivMonotone(deltaNs * 8192, DCO_MAX_PPB * 8192, 125);
  }

  /** The undisturbed case: a single adjtime after the start of the driver. */
  lemma PlainPullIn(s: Sys) returns (states: seq<Sys>, events: seq<Event>)
    requires Initial(s)
    ensures IsRun(states, SNAP_THRESHOLD_NS, events) && |events| == 3
    ensures states[0] == Step(s, SNAP_THRESHOLD_NS, TimeCheck(1, 1000)).0
    ensures Starts(states, SNAP_THRESHOLD_NS, events, 1000) && forall e | e in events :: Accepted(e)
    ensures BeforeWorker(events, 2) && events[2].WorkerBody? && states[2].running && !states[3].chan.ddco
  {
    var e := TimeCheck(1, 1000);
    var s0 := Step(s, SNAP_THRESHOLD_NS, e).0;
    InitialSafe(s);
    StepSafe(s, SNAP_THRESHOLD_NS, e);
    events := [TimeBody(1, NO_FAULTS), WorkerFires, WorkerBody(NO_FAULTS)];
    SmallPullIn(s0.chan, 1000);
    var s1 := Step(s0, SNAP_THRESHOLD_NS, events[0]).0;
    var s2 := Step(s1, SNAP_THRESHOLD_NS, events[1]).0;
    states := [s0, s1, s2, Step(s2, SNAP_THRESHOLD_NS, events[2]).0];
  }

  lemma Concatenated(threshold: nat, xs: seq<Sys>, es: seq<Event>, ys: seq<Sys>, fs: seq<Event>)
    returns (states: seq<Sys>)
    requires IsRun(xs, threshold, es) && IsRun(ys, threshold, fs) && xs[|es|] == ys[0]
    ensures IsRun(states, threshold, es + fs)
    ensures states == xs + ys[1..] && forall n | 0 <= n <= |fs| :: states[|es| + n] == ys[n]
  {
    states := xs + ys[1..];
    forall n | 0 <= n < |es + fs| ensures states[n + 1] == Step(states[n], threshold, (es + fs)[n]).0 {
      if n >= |es| {
        assert ys[n - |es| + 1] == Step(ys[n - |es|], threshold, fs[n - |es|]).0;
      }
    }
  }

  lemma PullInPastAdjfine(s: Sys) returns (states: seq<Sys>, events: seq<Event>)
    requires Initial(s)
    ensures IsRun(states, SNAP_THRESHOLD_NS, events) && states[0] == s && |events| == 4
    ensures var r := states[4];
            && r.chan.ddco && r.chan.queued && !r.running && r.threads == map[2 := FinePassed(131072)]
            && r.chan.freqReg == FrequencyWord.Encode(FrequencyWord.Sabre, PullIn.Scaled(1000))
  {
    events := [TimeCheck(1, 1000), FineCheckDdco(2, 131072), FineCheckFreq(2), TimeBody(1, NO_FAULTS)];
    var s1 := Step(s, SNAP_THRESHOLD_NS, events[0]).0;
    var s2 := Step(s1, SNAP_THRESHOLD_NS, events[1]).0;
    var s3 := Step(s2, SNAP_THRESHOLD_NS, events[2]).0;
    states := [s, s1, s2, s3, Step(s3, SNAP_THRESHOLD_NS, events[3]).0];
    SmallPullIn(s3.chan, 1000);
  }

  lemma AdjfineThenWorker(s: Sys, ppm: int) returns (states: seq<Sys>, events: seq<Event>)
    requires InRange(ppm) && s.chan.ddco && s.chan.queued && !s.running && s.threads == map[2 := FinePassed(ppm)]
    ensures IsRun(states, SNAP_THRESHOLD_NS, events) && states[0] == s && |events| == 3
    ensures states[1].chan.ddco && states[1].chan.freqReg == FrequencyWord.Encode(FrequencyWord.Sabre, ppm)
    ensures !states[3].chan.ddco && states[3].chan.freqReg == states[1].chan.freqReg
  {
    events := [FineBody(2, NO_FAULTS), WorkerFires, WorkerBody(NO_FAULTS)];
    var s1 := Step(s, SNAP_THRESHOLD_NS, events[0]).0;
    var s2 := Step(s1, SNAP_THRESHOLD_NS, events[1]).0;
    states := [s, s1, s2, Step(s2, SNAP_THRESHOLD_NS, events[2]).0];
  }

  /** An adjfine that passed its tests before a pull-in started writes its frequency over the
      pull-in's, and that is then the frequency which the worker restores. */
  lemma LateAdjfineOverridesPullIn(s: Sys) returns (states: seq<Sys>, events: seq<Event>)
    requires Initial(s)
    ensures IsRun(states, SNAP_THRESHOLD_NS, events) && states[0] == s && |events| == 7
    ensures states[4].chan.ddco
    ensures states[4].chan.freqReg == FrequencyWord.Encode(FrequencyWord.Sabre, PullIn.Scaled(1000))
    ensures states[5].chan.ddco && states[5].chan.freqReg == FrequencyWord.Encode(FrequencyWord.Sabre, 131072)
    ensures states[5].chan.freqReg != states[4].chan.freqReg
    ensures !states[7].chan.ddco && states[7].chan.freqReg == states[5].chan.freqReg
  {
    var xs, es := PullInPastAdjfine(s);
    var ys, fs := AdjfineThenWorker(xs[4], 131072);
    states := Concatenated(SNAP_THRESHOLD_NS, xs, es, ys, fs);
    events := es + fs;
    assert states[4] == ys[0] && states[4 + 1] == ys[1] && states[4 + 3] == ys[3];
    if states[5].chan.freqReg == states[4].chan.freqReg {
      FrequencyWord.EncodeInjective(FrequencyWord.Sabre, 131072, PullIn.Scaled(1000));
    }
  }

  lemma PullInPastAdjtime(s: Sys) returns (states: seq<Sys>, events: seq<Event>)
    requires Initial(s)
    ensures IsRun(states, SNAP_THRESHOLD_NS, events) && states[0] == s && |events| == 3
    ensures var r := states[3];
            && r.chan.ddco && r.chan.queued && !r.running && r.threads == map[2 := TimePassed(5000)]
            && r.chan.currentFreq == 0
            && r.chan.freqReg == FrequencyWord.Encode(FrequencyWord.Sabre, PullIn.Scaled(1000))
  {
    events := [TimeCheck(1, 1000), TimeCheck(2, 5000), TimeBody(1, NO_FAULTS)];
    var s1 := Step(s, SNAP_THRESHOLD_NS, events[0]).0;
    var s2 := Step(s1, SNAP_THRESHOLD_NS, events[1]).0;
    states := [s, s1, s2, Step(s2, SNAP_THRESHOLD_NS, events[2]).0];
    SmallPullIn(s2.chan, 1000);
  }

  /** A second adjtime past its test replaces the first one's pull-in: 5000 ns instead of the
      6000 ns that the two calls asked for and both reported as done. */
  lemma LateAdjtimeReplacesPullIn(s: Sys) returns (states: seq<Sys>, events: seq<Event>)
    requires Initial(s)
    ensures IsRun(states, SNAP_THRESHOLD_NS, events) && states[0] == s && |events| == 4
    ensures states[3].chan.ddco
    ensures states[3].chan.freqReg == FrequencyWord.Encode(FrequencyWord.Sabre, PullIn.Scaled(1000))
    ensures Step(states[3], SNAP_THRESHOLD_NS, events[3]).1 == Some(0) && states[4].chan.ddco
    ensures states[4].chan.freqReg == FrequencyWord.Encode(FrequencyWord.Sabre, PullIn.Scaled(5000))
    ensures states[4].chan.freqReg != states[3].chan.freqReg
  {
    var xs, es := PullInPastAdjtime(s);
    var e := TimeBody(2, NO_FAULTS);
    var ys := [xs[3], Step(xs[3], SNAP_THRESHOLD_NS, e).0];
    states := Concatenated(SNAP_THRESHOLD_NS, xs, es, ys, [e]);
    events := es + [e];
    SmallPullIn(xs[3].chan, 5000);
    assert states[3 + 1] == ys[1];
    if states[4].chan.freqReg == states[3].chan.freqReg {
      FrequencyWord.EncodeInjective(FrequencyWord.Sabre, PullIn.Scaled(1000), PullIn.Scaled(5000));
    }
  }

  /** A phase call takes the device out of DCO mode in the middle of a pull-in; the frequency
      word stays where it is, without effect. No race is needed. */
  lemma PhaseCallTakesModeFromPullIn(s: Sys) returns (states: seq<Sys>, events: seq<Event>)
    requires Initial(s)
    ensures IsRun(states, SNAP_THRESHOLD_NS, events) && states[0] == s && |events| == 3
    ensures states[2].chan.ddco && GetField(states[2].chan.modeReg, 1, 32) == DCO
    ensures SamePullIn(states[2], states[3]) && GetField(states[3].chan.modeReg, 1, 32) == WPH
  {
    events := [TimeCheck(1, 1000), TimeBody(1, NO_FAULTS), PhaseCall(0, NO_FAULTS)];
    var s1 := Step(s, SNAP_THRESHOLD_NS, events[0]).0;
    var s2 := Step(s1, SNAP_THRESHOLD_NS, events[1]).0;
    states := [s, s1, s2, Step(s2, SNAP_THRESHOLD_NS, events[2]).0];
    SmallPullIn(s1.chan, 1000);
    SetFieldSplits(s1.chan.modeReg, 1, 32, DCO);
    SetFieldSplits(s2.chan.modeReg, 1, 32, WPH);
  }

  lemma SecondStartUnderWorker(s: Sys) returns (states: seq<Sys>, events: seq<Event>)
    requires s.chan.ddco && s.chan.queued && !s.running && s.threads == map[2 := TimePassed(5000)]
    requires s.chan.currentFreq == 0
    ensures IsRun(states, SNAP_THRESHOLD_NS, events) && states[0] == s && |events| == 2
    ensures var r := states[2];
            r.chan.ddco && r.chan.queued && r.running && r.threads == map[] && r.chan.currentFreq == 0
  {
    events := [WorkerFires, TimeBody(2, NO_FAULTS)];
    var s1 := Step(s, SNAP_THRESHOLD_NS, events[0]).0;
    SmallPullIn(s1.chan, 5000);
    states := [s, s1, Step(s1, SNAP_THRESHOLD_NS, events[1]).0];
  }

  lemma WorkerTooMany(s: Sys) returns (states: seq<Sys>, events: seq<Event>)
    requires Initial(s)
    ensures IsRun(states, SNAP_THRESHOLD_NS, events) && states[0] == s && |events| == 6
    ensures var r := states[6];
            !r.chan.ddco && r.chan.queued && !r.running && r.threads == map[] && r.chan.currentFreq == 0
  {
    var xs, es := PullInPastAdjtime(s);
    var ys, fs := SecondStartUnderWorker(xs[3]);
    var zs := Concatenated(SNAP_THRESHOLD_NS, xs, es, ys, fs);
    assert zs[3 + 2] == ys[2];
    var e := WorkerBody(NO_FAULTS);
    var ends := [zs[5], Step(zs[5], SNAP_THRESHOLD_NS, e).0];
    states := Concatenated(SNAP_THRESHOLD_NS, zs, es + fs, ends, [e]);
    events := es + fs + [e];
    assert states[5 + 1] == ends[1];
  }

  lemma StartUnderWorker(s: Sys) returns (states: seq<Sys>, events: seq<Event>)
    requires !s.chan.ddco && s.chan.queued && !s.running && s.threads == map[] && s.chan.currentFreq == 0
    ensures IsRun(states, SNAP_THRESHOLD_NS, events) && states[0] == s && |events| == 4
    ensures !states[2].chan.ddco && states[2].running
    ensures states[3].chan.ddco && states[3].running && events[3].WorkerBody? && !states[4].chan.ddco
  {
    events := [WorkerFires, TimeCheck(3, 1000), TimeBody(3, NO_FAULTS), WorkerBody(NO_FAULTS)];
    var s1 := Step(s, SNAP_THRESHOLD_NS, events[0]).0;
    var s2 := Step(s1, SNAP_THRESHOLD_NS, events[1]).0;
    SmallPullIn(s2.chan, 1000);
    var s3 := Step(s2, SNAP_THRESHOLD_NS, events[2]).0;
    states := [s, s1, s2, s3, Step(s3, SNAP_THRESHOLD_NS, events[3]).0];
  }

  /** Two calls on the way into one pull-in queue a worker too many. If that one waits for the
      lock while another pull-in starts, it ends it at once. */
  lemma EarlierWorkerCutsPullInShort(s: Sys) returns (states: seq<Sys>, events: seq<Event>)
    requires Initial(s)
    ensures IsRun(states, SNAP_THRESHOLD_NS, events) && states[0] == s && |events| == 10
    ensures !states[8].chan.ddco && states[8].running
    ensures states[9].chan.ddco && states[9].running && events[9].WorkerBody? && !states[10].chan.ddco
  {
    var xs, es := WorkerTooMany(s);
    var ys, fs := StartUnderWorker(xs[6]);
    states := Concatenated(SNAP_THRESHOLD_NS, xs, es, ys, fs);
    events := es + fs;
    assert states[6 + 2] == ys[2] && states[6 + 3] == ys[3] && states[6 + 4] == ys[4];
  }
}
