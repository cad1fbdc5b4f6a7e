/** The ClockMatrix PHC with its unlocked parts as steps of their own: adjfine and adjtime test for
    a pull-in before they take the lock, and adjfine keeps its frequency for the worker only after
    it has released the lock. */
module ClockMatrixAdjfine {
  import opened CInt
  import FrequencyWord
  import PullIn
  import opened Options
  import opened ClockMatrixPhc

  /** Where a call stands: past its test, or, for an adjfine, past its frequency write. */
  datatype Pc = FineEntered(ppm: int) | FineWrote(ppm: int) | TimeEntered(delta: int)

  /** `written` is the frequency that the last frequency write put into the register, None before
      the first and after a torn one. */
  datatype Sys = Sys(phc: Phc, threads: map<nat, Pc>, running: bool, written: Option<int>)

  datatype Event =
    | FineCheck(tid: nat, ppm: int)
    | FineBody(tid: nat, f: Faults)
    | FineKeeps(tid: nat)
    | TimeCheck(tid: nat, delta: int)
    | TimeBody(tid: nat, f: Faults)
    | WorkerFires
    | WorkerBody(f: Faults)
    | PhaseCall(ns: int, f: Faults)

  function WrittenBy(s: Sys, ppm: int, f: Faults): Option<int> {
    if !WriteFails(s.phc, f) then Some(ppm)
    else if ModeFails(s.phc, WriteFrequency, f) || f.torn == None then s.written
    else None
  }

  predicate At(s: Sys, tid: nat, e: Event) {
    && tid in s.threads
    && (e.FineBody? ==> s.threads[tid].FineEntered?)
    && (e.FineKeeps? ==> s.threads[tid].FineWrote?)
    && (e.TimeBody? ==> s.threads[tid].TimeEntered?)
  }

  /** One event; an event that is not enabled does nothing. */
  function Step(s: Sys, e: Event): Sys {
    var c := s.phc;
    match e
    case FineCheck(tid, ppm) =>
      if tid in s.threads || c.pullIn then s else s.(threads := s.threads[tid := FineEntered(ppm)])
    case FineBody(tid, f) =>
      if !At(s, tid, e) then s else
        var ppm := s.threads[tid].ppm;
        var (c1, err) := WriteFrequencyWord(c, ppm, f);
        s.(phc := c1, written := WrittenBy(s, ppm, f),
           threads := if err == 0 then s.threads[tid := FineWrote(ppm)] else s.threads - {tid})
    case FineKeeps(tid) =>
      if !At(s, tid, e) then s else
        s.(phc := c.(current := S32(s.threads[tid].ppm)), threads := s.threads - {tid})
    case TimeCheck(tid, delta) =>
      if tid in s.threads || c.pullIn then s else s.(threads := s.threads[tid := TimeEntered(delta)])
    case TimeBody(tid, f) =>
      if !At(s, tid, e) then s else
        var delta := s.threads[tid].delta;
        s.(phc := AdjtimeBody(c, delta, f).0, threads := s.threads - {tid},
           written := if BodyPulls(c, delta) then WrittenBy(s, PullInFrequency(c, S32(delta)), f) else s.written)
    case WorkerFires =>
      if c.queued && !s.running then s.(phc := c.(queued := false), running := true) else s
    case WorkerBody(f) =>
      if !s.running then s else
        s.(phc := Worker(c, f).0, running := false, written := WrittenBy(s, c.current, f))
    case PhaseCall(ns, f) => s.(phc := Adjphase(c, ns, f).0)
  }

  /** The unlocked tests: a call that comes during a pull-in goes no further. */
  lemma PullInShutsOut(s: Sys, e: Event)
    requires e.FineCheck? || e.TimeCheck?
    ensures Step(s, e) != s <==> e.tid !in s.threads && !s.phc.pullIn
    ensures Step(s, e) != s ==> Step(s, e).phc == s.phc && Step(s, e).threads.Keys == s.threads.Keys + {e.tid}
  {
    if e.tid !in s.threads && !s.phc.pullIn {
      assert e.tid in Step(s, e).threads;
    }
  }

  /** The worker ends the pull-in and puts the frequency that is kept back, exactly if its write
      does not fail; a phase call that succeeds has the phase in its register. */
  lemma LockedBodiesWork(s: Sys, ns: int, f: Faults)
    requires Coherent(s.phc)
    ensures s.running ==>
              var r := Step(s, WorkerBody(f));
              && !r.running
              && (!WriteFails(s.phc, f) ==>
                    !r.phc.pullIn && r.phc.regs.freq == FrequencyWord.Encode(FrequencyWord.ClockMatrix, s.phc.current))
              && (WriteFails(s.phc, f) ==> r.phc.pullIn == s.phc.pullIn)
    ensures f.data == 0 && !ModeFails(s.phc, WritePhase, f) ==>
              SignExtend(LeValue(Step(s, PhaseCall(ns, f)).phc.regs.phase), TWO_32) == Clamp(20 * ns, 0x7FFF_FFFF)
    ensures s.phc.queued && !s.running ==> Step(s, WorkerFires).running && !Step(s, WorkerFires).phc.queued
  {
    WriteFailsExactly(s.phc, s.phc.current, f);
    CallsEnterTheirMode(s.phc, ns, f);
  }

  ghost predicate IsRun(states: seq<Sys>, events: seq<Event>) {
    && |states| == |events| + 1
    && forall n | 0 <= n < |events| :: states[n + 1] == Step(states[n], events[n])
  }

  // ---- Runs in which the frequency kept is the one in force ----

  /** A frequency write that succeeds. */
  predicate Writes(s: Sys, e: Event) {
    match e
    case FineBody(tid, f) => At(s, tid, e) && !WriteFails(s.phc, f)
    case TimeBody(tid, f) => At(s, tid, e) && BodyPulls(s.phc, s.threads[tid].delta) && !WriteFails(s.phc, f)
    case WorkerBody(f) => s.running && !WriteFails(s.phc, f)
    case _ => false
  }

  /** Some adjfine has written its frequency and not kept it yet. */
  ghost predicate Unkept(s: Sys) { exists tid :: tid in s.threads && s.threads[tid].FineWrote? }

  /** A frequency write that comes between the two. */
  ghost predicate Overlaps(s: Sys, e: Event) { Writes(s, e) && Unkept(s) }

  predicate InRange(ppm: int) { -TWO_31 <= ppm < TWO_31 }

  predicate Accepted(e: Event) { e.FineCheck? ==> InRange(e.ppm) }

  ghost predicate Orderly(s: Sys) {
    && Coherent(s.phc)
    && (s.written.Some? ==> s.phc.regs.freq == FrequencyWord.Encode(FrequencyWord.ClockMatrix, s.written.value))
    && (forall tid | tid in s.threads && !s.threads[tid].TimeEntered? :: InRange(s.threads[tid].ppm))
    && (forall tid | tid in s.threads && s.threads[tid].FineWrote? && s.written.Some? ::
          s.written.value == s.threads[tid].ppm)
    && (forall t, u | t in s.threads && u in s.threads && s.threads[t].FineWrote? && s.threads[u].FineWrote? :: t == u)
    && (!s.phc.pullIn && !Unkept(s) && s.written.Some? ==> s.written.value == s.phc.current)
  }

  /** What a frequency write with its mode change does to the channel. */
  lemma WriteEffect(s: Sys, ppm: int, f: Faults)
    requires Orderly(s)
    ensures var (c, err) := WriteFrequencyWord(s.phc, ppm, f);
            var w := WrittenBy(s, ppm, f);
            && Coherent(c) && (err == 0 <==> !WriteFails(s.phc, f)) && c == s.phc.(mode := c.mode, regs := c.regs)
            && (w.Some? ==> c.regs.freq == FrequencyWord.Encode(FrequencyWord.ClockMatrix, w.value))
            && (err == 0 ==> w == Some(ppm)) && (err != 0 && w.Some? ==> w == s.written)
  {
    WriteFailsExactly(s.phc, ppm, f);
    ConfigureCoherent(s.phc, WriteFrequency, f);
  }

  lemma FineBodyOrderly(s: Sys, tid: nat, f: Faults)
    requires Orderly(s) && !Overlaps(s, FineBody(tid, f))
    ensures Orderly(Step(s, FineBody(tid, f)))
  {
    var e := FineBody(tid, f);
    if At(s, tid, e) {
      var r := Step(s, e);
      WriteEffect(s, s.threads[tid].ppm, f);
      if WriteFails(s.phc, f) {
        KeptElsewhere(s, r, tid);
      } else {
        assert r.threads[tid].FineWrote?;
      }
    }
  }

  /** A call that leaves without having written leaves the question of unkept frequencies open. */
  lemma KeptElsewhere(s: Sys, r: Sys, tid: nat)
    requires tid in s.threads && !s.threads[tid].FineWrote? && r.threads == s.threads - {tid}
    ensures Unkept(s) <==> Unkept(r)
  {
    if Unkept(s) {
      var t :| t in s.threads && s.threads[t].FineWrote?;
      assert t in r.threads;
    }
  }

  lemma TimeBodyOrderly(s: Sys, tid: nat, f: Faults)
    requires Orderly(s) && !Overlaps(s, TimeBody(tid, f))
    ensures Orderly(Step(s, TimeBody(tid, f)))
  {
    var e := TimeBody(tid, f);
    if At(s, tid, e) {
      var delta, r := s.threads[tid].delta, Step(s, e);
      KeptElsewhere(s, r, tid);
      if BodyPulls(s.phc, delta) {
        WriteEffect(s, PullInFrequency(s.phc, S32(delta)), f);
      } else if s.phc.variant.PllMode? || Abs64(delta) >= PULL_IN_THRESHOLD_NS {
        OtherWaysKeep(s.phc, delta, f);
      }
    }
  }

  lemma FineKeepsOrderly(s: Sys, tid: nat)
    requires Orderly(s)
    ensures Orderly(Step(s, FineKeeps(tid)))
  {
  }

  lemma CheckOrderly(s: Sys, e: Event)
    requires Orderly(s) && Accepted(e) && (e.FineCheck? || e.TimeCheck?)
    ensures Orderly(Step(s, e))
  {
    if e.tid !in s.threads && !s.phc.pullIn {
      KeptElsewhere(Step(s, e), s, e.tid);
    }
  }

  lemma StepOrderly(s: Sys, e: Event)
    requires Orderly(s) && Accepted(e) && !Overlaps(s, e)
    ensures Orderly(Step(s, e))
  {
    match e
    case FineCheck(tid, ppm) => CheckOrderly(s, e);
    case FineBody(tid, f) => FineBodyOrderly(s, tid, f);
    case FineKeeps(tid) => FineKeepsOrderly(s, tid);
    case TimeCheck(tid, delta) => CheckOrderly(s, e);
    case TimeBody(tid, f) => TimeBodyOrderly(s, tid, f);
    case WorkerFires =>
    case WorkerBody(f) => WriteEffect(s, s.phc.current, f);
    case PhaseCall(ns, f) => ConfigureCoherent(s.phc, WritePhase, f);
  }

  /** Main result: in every interleaving in which no frequency write comes between the write of an
      adjfine and the keeping of its frequency, the frequency kept for the worker is the one in
      the register whenever no pull-in is on and no adjfine is between the two. */
  lemma {:induction false} OrderlyRuns(states: seq<Sys>, events: seq<Event>, n: nat)
    requires IsRun(states, events) && n < |states| && Orderly(states[0])
    requires forall i | 0 <= i < n :: Accepted(events[i]) && !Overlaps(states[i], events[i])
    ensures Orderly(states[n])
    ensures !states[n].phc.pullIn && !Unkept(states[n]) && states[n].written.Some? ==>
              states[n].phc.regs.freq == FrequencyWord.Encode(FrequencyWord.ClockMatrix, states[n].phc.current)
  {
    if n > 0 {
      OrderlyRuns(states, events, n - 1);
      StepOrderly(states[n - 1], events[n - 1]);
      assert states[n - 1 + 1] == Step(states[n - 1], events[n - 1]);
    }
  }

  // ---- How things settle after an overlap ----

  ghost predicate OnlyKeeps(events: seq<Event>) { forall e | e in events :: e.FineKeeps? }

  ghost predicate WritersInRange(s: Sys) {
    forall tid | tid in s.threads && s.threads[tid].FineWrote? :: InRange(s.threads[tid].ppm)
  }

  /** In whatever order the pending frequencies are kept, the last one is the one in force. */
  ghost predicate Settles(s: Sys, w: int) {
    forall states: seq<Sys>, events: seq<Event> |
      IsRun(states, events) && states[0] == s && OnlyKeeps(events) && !Unkept(states[|events|]) ::
      states[|events|].phc.current == w
  }

  ghost predicate AllPendingAre(s: Sys, w: int) {
    && (forall tid | tid in s.threads && s.threads[tid].FineWrote? :: s.threads[tid].ppm == w)
    && (!Unkept(s) ==> s.phc.current == w)
  }

  lemma {:induction false} KeepingPending(states: seq<Sys>, events: seq<Event>, w: int, n: nat)
    requires IsRun(states, events) && n < |states| && OnlyKeeps(events) && InRange(w) && AllPendingAre(states[0], w)
    ensures AllPendingAre(states[n], w)
  {
    if n > 0 {
      KeepingPending(states, events, w, n - 1);
      assert events[n - 1].FineKeeps? && states[n - 1 + 1] == Step(states[n - 1], events[n - 1]);
    }
  }

  lemma Continued(s: Sys, e: Event, states: seq<Sys>, events: seq<Event>)
    requires IsRun(states, events) && states[0] == Step(s, e)
    ensures IsRun([s] + states, [e] + events)
  {
    var xs, es := [s] + states, [e] + events;
    forall n | 0 <= n < |es| ensures xs[n + 1] == Step(xs[n], es[n]) {
      if n > 0 {
        assert states[n - 1 + 1] == Step(states[n - 1], events[n - 1]);
      }
    }
  }

  /** Any pending frequency can be the last one kept. */
  lemma {:induction false} KeptLast(s: Sys, tid: nat) returns (states: seq<Sys>, events: seq<Event>)
    requires WritersInRange(s) && tid in s.threads && s.threads[tid].FineWrote?
    ensures IsRun(states, events) && states[0] == s && OnlyKeeps(events) && !Unkept(states[|events|])
    ensures states[|events|].phc.current == s.threads[tid].ppm
    decreases |s.threads|
  {
    if t :| t in s.threads && t != tid && s.threads[t].FineWrote? {
      var e := FineKeeps(t);
      var s1 := Step(s, e);
      assert s.threads.Keys == s1.threads.Keys + {t};
      var states1, events1 := KeptLast(s1, tid);
      Continued(s, e, states1, events1);
      states, events := [s] + states1, [e] + events1;
    } else {
      events := [FineKeeps(tid)];
      states := [s, Step(s, events[0])];
    }
  }

  /** After any run: the frequency kept will be the one in force, in whatever order the calls
      finish, exactly when every pending frequency is that one, or none is pending and it is kept
      already. */
  lemma SettlesExactly(s: Sys, w: int)
    requires WritersInRange(s) && InRange(w)
    ensures Settles(s, w) <==> AllPendingAre(s, w)
  {
    if AllPendingAre(s, w) {
      forall states: seq<Sys>, events: seq<Event> |
        IsRun(states, events) && states[0] == s && OnlyKeeps(events) && !Unkept(states[|events|])
        ensures states[|events|].phc.current == w
      {
        KeepingPending(states, events, w, |events|);
      }
    } else if Unkept(s) {
      var tid :| tid in s.threads && s.threads[tid].FineWrote? && s.threads[tid].ppm != w;
      var states, events := KeptLast(s, tid);
    } else {
      var states, events: seq<Event> := [s], [];
      assert IsRun(states, events) && OnlyKeeps(events);
    }
  }

  // ---- Runs in which it goes wrong, on a bus without errors ----

  const NO_FAULTS := Faults(0, 0, 0, 0, 0, None, 0, 0, 0)

  /** A channel in write-frequency mode, without calls in progress. */
  ghost predicate Idle(s: Sys) {
    Orderly(s) && s.threads == map[] && !s.running && !s.phc.pullIn && s.phc.mode == WriteFrequency
  }

  lemma KeepsBackwards(s: Sys, first: int, second: int) returns (states: seq<Sys>, events: seq<Event>)
    requires s.threads == map[1 := FineWrote(first), 2 := FineWrote(second)] && InRange(first)
    ensures IsRun(states, events) && states[0] == s && events == [FineKeeps(2), FineKeeps(1)]
    ensures states[2].threads == map[] && states[2].phc == s.phc.(current := first)
  {
    events := [FineKeeps(2), FineKeeps(1)];
    var s1 := Step(s, events[0]);
    states := [s, s1, Step(s1, events[1])];
  }

  lemma KeptInOtherOrderFrom(s: Sys, first: int, second: int) returns (states: seq<Sys>, events: seq<Event>)
    requires s.threads == map[1 := FineEntered(first), 2 := FineEntered(second)]
    requires !s.phc.pullIn && InRange(first) && InRange(second)
    ensures IsRun(states, events) && states[0] == s
    ensures events == [FineBody(1, NO_FAULTS), FineBody(2, NO_FAULTS), FineKeeps(2), FineKeeps(1)]
    ensures var r := states[4];
            && r.threads == map[] && !r.phc.pullIn && r.phc.current == first
            && r.phc.regs.freq == FrequencyWord.Encode(FrequencyWord.ClockMatrix, second)
  {
    var s1 := Step(s, FineBody(1, NO_FAULTS));
    var s2 := Step(s1, FineBody(2, NO_FAULTS));
    var states2, events2 := KeepsBackwards(s2, first, second);
    Continued(s1, FineBody(2, NO_FAULTS), states2, events2);
    Continued(s, FineBody(1, NO_FAULTS), [s1] + states2, [FineBody(2, NO_FAULTS)] + events2);
    states, events := [s] + ([s1] + states2), [FineBody(1, NO_FAULTS)] + ([FineBody(2, NO_FAULTS)] + events2);
    assert states[2 + 2] == states2[2];
  }

  /** Two adjfine calls that keep their frequencies in the other order than they wrote them: the
      register has the second one, the worker would restore the first. */
  lemma KeptInOtherOrder(s: Sys, first: int, second: int) returns (states: seq<Sys>, events: seq<Event>)
    requires Idle(s) && InRange(first) && InRange(second)
    ensures IsRun(states, events) && states[0] == s && |events| == 6
    ensures var r := states[6];
            && r.threads == map[] && !r.phc.pullIn && r.phc.current == first
            && r.phc.regs.freq == FrequencyWord.Encode(FrequencyWord.ClockMatrix, second)
  {
    var s1 := Step(s, FineCheck(1, first));
    var s2 := Step(s1, FineCheck(2, second));
    var states2, events2 := KeptInOtherOrderFrom(s2, first, second);
    Continued(s1, FineCheck(2, second), states2, events2);
    Continued(s, FineCheck(1, first), [s1] + states2, [FineCheck(2, second)] + events2);
    states, events := [s] + ([s1] + states2), [FineCheck(1, first)] + ([FineCheck(2, second)] + events2);
    assert states[4 + 2] == states2[4];
  }

  /** An adjtime between the write of an adjfine and its keeping: the pull-in is added to the
      frequency from before, not to the one that adjfine has just set. */
  lemma PullInFromStaleFrequency(s: Sys, ppm: int, delta: int) returns (states: seq<Sys>, events: seq<Event>)
    requires Idle(s) && InRange(ppm) && BodyPulls(s.phc, delta)
    ensures IsRun(states, events) && states[0] == s && |events| == 5
    ensures states[2].phc.regs.freq == FrequencyWord.Encode(FrequencyWord.ClockMatrix, ppm)
    ensures var r := states[5];
            && r.threads == map[] && r.phc.pullIn && r.phc.current == ppm
            && r.phc.regs.freq == FrequencyWord.Encode(FrequencyWord.ClockMatrix, PullInFrequency(s.phc, S32(delta)))
  {
    events := [FineCheck(1, ppm), FineBody(1, NO_FAULTS), TimeCheck(2, delta), TimeBody(2, NO_FAULTS), FineKeeps(1)];
    var s1 := Step(s, events[0]);
    var s2 := Step(s1, events[1]);
    var s3 := Step(s2, events[2]);
    var s4 := Step(s3, events[3]);
    states := [s, s1, s2, s3, s4, Step(s4, events[4])];
  }
}
