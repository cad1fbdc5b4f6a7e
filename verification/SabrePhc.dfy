/** One channel of the 82P33 PHC driver: the frequency and phase callbacks, the temporary
    frequency of a pull-in ("ddco"), and the worker that restores the old frequency. The
    callbacks test `ddco` and `current_freq` before they take the lock and act inside it, so
    their runs interleave; the second half of the module is about every interleaving.

    Bus errors are parameters. A failed mode access leaves the mode register alone; a failed
    frequency or phase write may leave any bytes behind. */
module SabrePhc {
  import opened CInt
  import FrequencyWord
  import PhaseWord
  import PullIn
  import opened Options

  const EBUSY := -16
  const DCO: nat := 10
  const WPH: nat := 18
  const DCO_MAX_PPB := 92000
  const DDCO_THRESHOLD_NS := 5

  /** The driver's fields (currentFreq, ddco, pllMode), the registers (modeReg, freqReg,
      phaseReg), whether the restore worker is queued and with which delay. */
  datatype Chan = Chan(currentFreq: int, ddco: bool, pllMode: nat,
                       modeReg: int, freqReg: seq<byte>, phaseReg: seq<byte>, queued: bool, delayMs: nat)

  /** Error codes of the accesses of one call; `torn` is what a failed data write leaves in the
      register, None if it leaves the register alone. */
  datatype Faults = Faults(modeRead: int, modeWrite: int, data: int, torn: Option<seq<byte>>)

  const NO_FAULTS := Faults(0, 0, 0, None)

  // ---- The locked bodies ----

  function SetMode(c: Chan, mode: nat, f: Faults): (Chan, int) {
    if c.pllMode == mode then (c, 0)
    else if f.modeRead != 0 then (c, f.modeRead)
    else if f.modeWrite != 0 then (c, f.modeWrite)
    else (c.(modeReg := SetField(c.modeReg, 1, 32, mode), pllMode := mode), 0)
  }

  function WriteFrequency(c: Chan, scaledPpm: int, f: Faults): (Chan, int) {
    var (c1, err) := SetMode(c, DCO, f);
    if err != 0 then (c1, err)
    else if f.data != 0 then (c1.(freqReg := f.torn.UnwrapOr(c1.freqReg)), f.data)
    else (c1.(freqReg := FrequencyWord.Encode(FrequencyWord.Sabre, scaledPpm)), 0)
  }

  /** When a frequency write fails: its data write does, or a mode change that it needs. */
  predicate WriteFails(c: Chan, f: Faults) {
    f.data != 0 || (c.pllMode != DCO && (f.modeRead != 0 || f.modeWrite != 0))
  }

  lemma WriteFailsExactly(c: Chan, scaledPpm: int, f: Faults)
    ensures WriteFrequency(c, scaledPpm, f).1 != 0 <==> WriteFails(c, f)
  {
  }

  function AdjfineBody(c: Chan, scaledPpm: int, f: Faults): (Chan, int) {
    var (c1, err) := WriteFrequency(c, scaledPpm, f);
    if err != 0 then (c1, err) else (c1.(currentFreq := S32(scaledPpm)), 0)
  }

  function PullInFrequency(c: Chan, deltaNs: int): int {
    PullIn.Shifted(c.currentFreq, PullIn.Offset(deltaNs, DCO_MAX_PPB), DCO_MAX_PPB)
  }

  function Delay(deltaNs: int): nat {
    PullIn.MSEC_PER_SEC * Pow2(PullIn.Halvings(deltaNs, DCO_MAX_PPB)) % TWO_32
  }

  /** abs() on 32 bits: the most negative offset counts as small. */
  predicate TooSmall(deltaNs: int) { S32(Abs(deltaNs)) < DDCO_THRESHOLD_NS }

  /** An adjtime that starts a pull-in: below the snap threshold, not too small. */
  predicate Pulls(delta: int, threshold: nat) { Abs64(delta) < threshold && !TooSmall(S32(delta)) }

  function StartDdco(c: Chan, deltaNs: int, f: Faults): (Chan, int) {
    if TooSmall(deltaNs) then (c, 0) else
      var (c1, err) := WriteFrequency(c, PullInFrequency(c, deltaNs), f);
      if err != 0 then (c1, err) else (c1.(queued := true, delayMs := Delay(deltaNs), ddco := true), 0)
  }

  function StopDdco(c: Chan, f: Faults): (Chan, int) {
    var (c1, err) := WriteFrequency(c, c.currentFreq, f);
    if err != 0 then (c1, err) else (c1.(ddco := false), 0)
  }

  /** adjtime under the lock: a pull-in below the snap threshold, a write of the time of day
      at or above it (that part touches none of these fields and returns `f.data`). */
  function AdjtimeBody(c: Chan, delta: int, threshold: nat, f: Faults): (Chan, int) {
    if Abs64(delta) < threshold then StartDdco(c, S32(delta), f) else (c, f.data)
  }

  function WritePhase(c: Chan, offsetNs: int, f: Faults): (Chan, int) {
    var (c1, err) := SetMode(c, WPH, f);
    if err != 0 then (c1, err)
    else if f.data != 0 then (c1.(phaseReg := f.torn.UnwrapOr(c1.phaseReg)), f.data)
    else (c1.(phaseReg := PhaseWord.SabreBytes(offsetNs)), 0)
  }

  class Channel {
    var currentFreq: int
    var ddco: bool
    var pllMode: nat
    var modeReg: int
    var freqReg: seq<byte>
    var phaseReg: seq<byte>
    var queued: bool
    var delayMs: nat

    ghost function State(): Chan reads this {
      Chan(currentFreq, ddco, pllMode, modeReg, freqReg, phaseReg, queued, delayMs)
    }

    constructor (modeReg: int, freqReg: seq<byte>, phaseReg: seq<byte>)
      ensures State() == Chan(0, false, 0, modeReg, freqReg, phaseReg, false, 0)
    {
      currentFreq, ddco, pllMode, queued, delayMs := 0, false, 0, false, 0;
      this.modeReg, this.freqReg, this.phaseReg := modeReg, freqReg, phaseReg;
    }

    method DpllSetMode(mode: nat, f: Faults) returns (err: int)
      modifies this
      ensures (State(), err) == SetMode(old(State()), mode, f)
    {
      if pllMode == mode { return 0; }
      if f.modeRead != 0 { return f.modeRead; }
      var dpllMode := SetField(modeReg, 1, 32, mode);
      if f.modeWrite != 0 { return f.modeWrite; }
      modeReg := dpllMode;
      pllMode := mode;
      err := 0;
    }

    method AdjfineLocked(scaledPpm: int, f: Faults) returns (err: int)
      modifies this
      ensures (State(), err) == WriteFrequency(old(State()), scaledPpm, f)
    {
      var buf := FrequencyWord.EncodeFrequency(FrequencyWord.Sabre, scaledPpm);
      err := DpllSetMode(DCO, f);
      if err != 0 { return; }
      err := f.data;
      freqReg := if err != 0 then f.torn.UnwrapOr(freqReg) else buf[..];
    }

    method StartDoubleDco(deltaNs: int, f: Faults) returns (err: int)
      requires -TWO_31 <= deltaNs < TWO_31
      modifies this
      ensures (State(), err) == StartDdco(old(State()), deltaNs, f)
    {
      if S32(Abs(deltaNs)) < DDCO_THRESHOLD_NS { return 0; }
      var ppb, durationMs := PullIn.Halve(deltaNs, DCO_MAX_PPB);
      err := AdjfineLocked(PullIn.Shifted(currentFreq, ppb, DCO_MAX_PPB), f);
      if err != 0 { return; }
      queued, delayMs := true, durationMs;
      ddco := true;
    }

    method StopDoubleDco(f: Faults) returns (err: int)
      modifies this
      ensures (State(), err) == StopDdco(old(State()), f)
    {
      err := AdjfineLocked(currentFreq, f);
      if err != 0 { return; }
      ddco := false;
    }

    /** adjfine and adjtime as one uninterrupted call. */
    method Adjfine(scaledPpm: int, f: Faults) returns (err: int)
      modifies this
      ensures old(ddco) || old(currentFreq) == scaledPpm ==> State() == old(State()) && err == 0
      ensures !(old(ddco) || old(currentFreq) == scaledPpm) ==>
                (State(), err) == AdjfineBody(old(State()), scaledPpm, f)
    {
      if ddco { return 0; }
      if scaledPpm == currentFreq { return 0; }
      err := AdjfineLocked(scaledPpm, f);
      if err == 0 {
        currentFreq := S32(scaledPpm);
      }
    }

    method Adjtime(delta: int, threshold: nat, f: Faults) returns (err: int)
      modifies this
      ensures old(ddco) ==> State() == old(State()) && err == EBUSY
      ensures !old(ddco) ==> (State(), err) == AdjtimeBody(old(State()), delta, threshold, f)
    {
      if ddco { return EBUSY; }
      if Abs64(delta) < threshold {
        err := StartDoubleDco(S32(delta), f);
      } else {
        err := f.data;
      }
    }

    method Adjwritephase(offsetNs: int, f: Faults) returns (err: int)
      requires -TWO_31 <= offsetNs < TWO_31
      modifies this
      ensures (State(), err) == WritePhase(old(State()), offsetNs, f)
    {
      var val := PhaseWord.SabreEncode(offsetNs);
      err := DpllSetMode(WPH, f);
      if err != 0 { return; }
      err := f.data;
      phaseReg := if err != 0 then f.torn.UnwrapOr(phaseReg) else val[..];
    }
  }

  // ---- Interleavings ----

  /** Where a call stands between its unlocked tests and its locked body. */
  datatype Pc = FineEntered(scaledPpm: int) | FinePassed(scaledPpm: int) | TimePassed(delta: int)

  /** Any number of calls in progress, one worker, and three facts of history: `written` is the
      frequency that the last frequency write put into the register (None before the first
      write and after a write that failed half-way), `restoreFailed` says that the last
      attempt to end the latest pull-in failed. `schedules` counts how often the worker has been
      scheduled; each time its delay starts again. */
  datatype Sys = Sys(chan: Chan, threads: map<nat, Pc>, running: bool, written: Option<int>, restoreFailed: bool,
                     schedules: nat)

  datatype Event =
    | FineCheckDdco(tid: nat, scaledPpm: int)
    | FineCheckFreq(tid: nat)
    | FineBody(tid: nat, f: Faults)
    | TimeCheck(tid: nat, delta: int)
    | TimeBody(tid: nat, f: Faults)
    | WorkerFires
    | WorkerBody(f: Faults)
    | PhaseCall(offsetNs: int, f: Faults)

  function Written(s: Sys, scaledPpm: int, f: Faults): Option<int> {
    if WriteFrequency(s.chan, scaledPpm, f).1 == 0 then Some(scaledPpm)
    else if SetMode(s.chan, DCO, f).1 != 0 || f.torn == None then s.written
    else None
  }

  /** One event; an event that is not enabled does nothing. The second component is the value
      a call returns with this event. */
  function Step(s: Sys, threshold: nat, e: Event): (Sys, Option<int>) {
    match e
    case FineCheckDdco(tid, ppm) =>
      if tid in s.threads then (s, None)
      else if s.chan.ddco then (s, Some(0))
      else (s.(threads := s.threads[tid := FineEntered(ppm)]), None)
    case FineCheckFreq(tid) =>
      if tid in s.threads && s.threads[tid].FineEntered? then
        var ppm := s.threads[tid].scaledPpm;
        if ppm == s.chan.currentFreq then (s.(threads := s.threads - {tid}), Some(0))
        else (s.(threads := s.threads[tid := FinePassed(ppm)]), None)
      else (s, None)
    case FineBody(tid, f) =>
      if tid in s.threads && s.threads[tid].FinePassed? then
        var ppm := s.threads[tid].scaledPpm;
        var (c, err) := AdjfineBody(s.chan, ppm, f);
        (s.(chan := c, threads := s.threads - {tid}, written := Written(s, ppm, f)), Some(err))
      else (s, None)
    case TimeCheck(tid, delta) =>
      if tid in s.threads then (s, None)
      else if s.chan.ddco then (s, Some(EBUSY))
      else (s.(threads := s.threads[tid := TimePassed(delta)]), None)
    case TimeBody(tid, f) =>
      if tid in s.threads && s.threads[tid].TimePassed? then
        var delta := s.threads[tid].delta;
        var (c, err) := AdjtimeBody(s.chan, delta, threshold, f);
        var pulls := Pulls(delta, threshold);
        (s.(chan := c, threads := s.threads - {tid},
            written := if pulls then Written(s, PullInFrequency(s.chan, S32(delta)), f) else s.written,
            restoreFailed := s.restoreFailed && !(pulls && err == 0),
            schedules := if pulls && err == 0 then s.schedules + 1 else s.schedules), Some(err))
      else (s, None)
    case WorkerFires =>
      if s.chan.queued && !s.running then (s.(chan := s.chan.(queued := false), running := true), None) else (s, None)
    case WorkerBody(f) =>
      if s.running then
        var (c, err) := StopDdco(s.chan, f);
        (s.(chan := c, running := false, written := Written(s, s.chan.currentFreq, f), restoreFailed := err != 0), None)
      else (s, None)
    case PhaseCall(offsetNs, f) =>
      var (c, err) := WritePhase(s.chan, offsetNs, f);
      (s.(chan := c), Some(err))
  }

  /** The states of a run, the initial one first. */
  ghost predicate IsRun(states: seq<Sys>, threshold: nat, events: seq<Event>) {
    && |states| == |events| + 1
    && forall n | 0 <= n < |events| :: states[n + 1] == Step(states[n], threshold, events[n]).0
  }

  /** A channel after probe, which sets DCO mode under the lock before any call can act. */
  ghost predicate Initial(s: Sys) {
    && s.chan.currentFreq == 0 && !s.chan.ddco && !s.chan.queued
    && s.chan.pllMode == DCO && GetField(s.chan.modeReg, 1, 32) == DCO
    && s.threads == map[] && !s.running && s.written == None && !s.restoreFailed && s.schedules == 0
  }

  /** The cached mode, once the driver has set it, is the mode field of the register. */
  ghost predicate ModeCoherent(c: Chan) {
    c.pllMode == 0 || ((c.pllMode == DCO || c.pllMode == WPH) && GetField(c.modeReg, 1, 32) == c.pllMode)
  }

  ghost predicate Safe(s: Sys) {
    && ModeCoherent(s.chan)
    && (s.written.Some? ==> s.chan.freqReg == FrequencyWord.Encode(FrequencyWord.Sabre, s.written.value))
    && (s.written.Some? && !s.chan.ddco ==> s.written.value == s.chan.currentFreq)
    && (s.chan.ddco ==> s.chan.queued || s.running || s.restoreFailed)
    && (forall tid | tid in s.threads && !s.threads[tid].TimePassed? :: InRange(s.threads[tid].scaledPpm))
  }

  /** The PTP core passes on no frequency outside the driver's max_adj, which fits 32 bits. */
  predicate InRange(scaledPpm: int) { -TWO_31 <= scaledPpm < TWO_31 }

  predicate Accepted(e: Event) { e.FineCheckDdco? ==> InRange(e.scaledPpm) }

  /** A mode change that succeeds leaves the field at the mode asked for, one that fails keeps
      cache and field together; the other bits of the register stay. */
  lemma SetModeCoherent(c: Chan, mode: nat, f: Faults)
    requires ModeCoherent(c) && (mode == DCO || mode == WPH)
    ensures ModeCoherent(SetMode(c, mode, f).0)
    ensures SetMode(c, mode, f).1 == 0 ==> GetField(SetMode(c, mode, f).0.modeReg, 1, 32) == mode
    ensures SetMode(c, mode, f).0.modeReg / 32 == c.modeReg / 32
  {
  }

  /** What one frequency write, with its mode change, does to the channel. */
  lemma WriteFrequencySafe(s: Sys, scaledPpm: int, f: Faults)
    requires Safe(s)
    ensures var (c, err) := WriteFrequency(s.chan, scaledPpm, f);
            var w := Written(s, scaledPpm, f);
            && ModeCoherent(c)
            && c.ddco == s.chan.ddco && c.queued == s.chan.queued && c.currentFreq == s.chan.currentFreq
            && (w.Some? ==> c.freqReg == FrequencyWord.Encode(FrequencyWord.Sabre, w.value))
            && (err == 0 ==> w == Some(scaledPpm))
            && (err != 0 && w.Some? ==> w == s.written)
  {
    SetModeCoherent(s.chan, DCO, f);
  }

  lemma TimeBodySafe(s: Sys, threshold: nat, tid: nat, f: Faults)
    requires Safe(s)
    ensures Safe(Step(s, threshold, TimeBody(tid, f)).0)
  {
    if tid in s.threads && s.threads[tid].TimePassed? {
      WriteFrequencySafe(s, PullInFrequency(s.chan, S32(s.threads[tid].delta)), f);
    }
  }

  lemma FineBodySafe(s: Sys, threshold: nat, tid: nat, f: Faults)
    requires Safe(s)
    ensures Safe(Step(s, threshold, FineBody(tid, f)).0)
  {
    if tid in s.threads && s.threads[tid].FinePassed? {
      WriteFrequencySafe(s, s.threads[tid].scaledPpm, f);
    }
  }

  lemma StepSafe(s: Sys, threshold: nat, e: Event)
    requires Safe(s) && Accepted(e)
    ensures Safe(Step(s, threshold, e).0)
  {
    match e
    case FineBody(tid, f) => FineBodySafe(s, threshold, tid, f);
    case TimeBody(tid, f) => TimeBodySafe(s, threshold, tid, f);
    case WorkerBody(f) => WriteFrequencySafe(s, s.chan.currentFreq, f);
    case PhaseCall(offsetNs, f) => SetModeCoherent(s.chan, WPH, f);
    case _ =>
  }

  /** Probe leaves an initial state exactly when its mode change does not fail. */
  lemma ProbedIsInitial(modeReg: int, freqReg: seq<byte>, phaseReg: seq<byte>, f: Faults)
    ensures var (c, err) := SetMode(Chan(0, false, 0, modeReg, freqReg, phaseReg, false, 0), DCO, f);
            && (err == 0 <==> f.modeRead == 0 == f.modeWrite)
            && (err == 0 <==> Initial(Sys(c, map[], false, None, false, 0)))
  {
    SetFieldSplits(modeReg, 1, 32, DCO);
  }

  lemma InitialSafe(s: Sys)
    requires Initial(s)
    ensures Safe(s)
  {
  }

  /** Main result: at every point of every interleaving of any number of adjfine, adjtime and
      adjphase calls with the worker, under arbitrary bus errors, the frequency register holds
      the current frequency whenever no pull-in is on and the last frequency write succeeded,
      and a pull-in that is on has a worker that is queued or running unless its restore
      failed. */
  lemma {:induction false} EveryInterleavingIsSafe(states: seq<Sys>, threshold: nat, events: seq<Event>, n: nat)
    requires IsRun(states, threshold, events) && n < |states| && (Initial(states[0]) || Safe(states[0]))
    requires forall e | e in events :: Accepted(e)
    ensures Safe(states[n])
    ensures !states[n].chan.ddco && states[n].written.Some? ==>
              states[n].chan.freqReg == FrequencyWord.Encode(FrequencyWord.Sabre, states[n].chan.currentFreq)
    ensures states[n].chan.ddco && !states[n].restoreFailed ==> states[n].chan.queued || states[n].running
  {
    if n > 0 {
      EveryInterleavingIsSafe(states, threshold, events, n - 1);
      StepSafe(states[n - 1], threshold, events[n - 1]);
    } else if Initial(states[0]) {
      InitialSafe(states[0]);
    }
  }

  function FaultsOf(e: Event): Option<Faults> {
    match e
    case FineBody(_, f) => Some(f)
    case TimeBody(_, f) => Some(f)
    case WorkerBody(f) => Some(f)
    case PhaseCall(_, f) => Some(f)
    case _ => None
  }

  /** A bus whose failed writes leave the device unchanged. */
  predicate Untorn(e: Event) { FaultsOf(e).Some? ==> FaultsOf(e).value.torn == None }

  lemma StepKeepsWritten(s: Sys, threshold: nat, e: Event)
    requires s.written.Some? && Untorn(e)
    ensures Step(s, threshold, e).0.written.Some?
  {
    match e
    case FineBody(tid, f) =>
    case TimeBody(tid, f) =>
    case WorkerBody(f) =>
    case _ =>
  }

  /** On such a bus the frequency register follows the driver from the first successful
      frequency write on, whatever fails afterwards. */
  lemma {:induction false} FollowsFromFirstWrite(states: seq<Sys>, threshold: nat, events: seq<Event>, n: nat)
    requires IsRun(states, threshold, events) && n < |states| && Safe(states[0]) && states[0].written.Some?
    requires forall e | e in events :: Accepted(e) && Untorn(e)
    ensures Safe(states[n]) && states[n].written.Some?
    ensures !states[n].chan.ddco ==>
              states[n].chan.freqReg == FrequencyWord.Encode(FrequencyWord.Sabre, states[n].chan.currentFreq)
  {
    if n > 0 {
      FollowsFromFirstWrite(states, threshold, events, n - 1);
      StepSafe(states[n - 1], threshold, events[n - 1]);
      StepKeepsWritten(states[n - 1], threshold, events[n - 1]);
    }
  }

  /** A pull-in that starts programs a frequency, and schedules its end so that the step asked
      for and the delay together make up the phase: the error is less than 8317/8192 ns per
      second. The programmed frequency is the current one plus that step exactly when the sum is
      within the clamp of 92000 ppb. */
  lemma PullInDelivers(c: Chan, deltaNs: int, f: Faults)
    requires -TWO_31 <= deltaNs < TWO_31 && !TooSmall(deltaNs) && !WriteFails(c, f)
    ensures var (c1, err) := StartDdco(c, deltaNs, f);
            var step := PullIn.Scaled(PullIn.Offset(deltaNs, DCO_MAX_PPB));
            && err == 0 && c1.queued && c1.ddco && c1.delayMs > 0
            && c1.freqReg == FrequencyWord.Encode(FrequencyWord.Sabre, PullInFrequency(c, deltaNs))
            && Abs(8192 * deltaNs * 1000 - 125 * step * c1.delayMs) < 8317 * c1.delayMs
            && (PullInFrequency(c, deltaNs) == c.currentFreq + step <==>
                  Abs(c.currentFreq + step) <= PullIn.Scaled(DCO_MAX_PPB))
  {
    var k := PullIn.Halvings(deltaNs, DCO_MAX_PPB);
    var ppb := PullIn.Offset(deltaNs, DCO_MAX_PPB);
    WriteFailsExactly(c, PullInFrequency(c, deltaNs), f);
    PullIn.ShiftExact(c.currentFreq, ppb, DCO_MAX_PPB);
    PullIn.DurationExact(deltaNs, DCO_MAX_PPB);
    PullIn.PullInDeliversPhase(deltaNs, DCO_MAX_PPB);
    PullIn.InMilliseconds(deltaNs, PullIn.Scaled(ppb), Pow2(k));
    DivModUnique(1000 * Pow2(k), TWO_32, 0, 1000 * Pow2(k));
  }

  /** It moves the frequency the way that was asked for exactly when the current frequency is
      short of 92000 ppb on that side; no accepted frequency is past that, so it never moves the
      wrong way. */
  lemma PullInDirection(c: Chan, deltaNs: int)
    ensures deltaNs > 0 ==>
              (PullInFrequency(c, deltaNs) > c.currentFreq <==> c.currentFreq < PullIn.Scaled(DCO_MAX_PPB))
    ensures deltaNs < 0 ==>
              (PullInFrequency(c, deltaNs) < c.currentFreq <==> c.currentFreq > -PullIn.Scaled(DCO_MAX_PPB))
    ensures Abs(c.currentFreq) <= FrequencyWord.Part.Sabre.MaxScaledPpm() ==>
              && (deltaNs > 0 ==> PullInFrequency(c, deltaNs) >= c.currentFreq)
              && (deltaNs < 0 ==> PullInFrequency(c, deltaNs) <= c.currentFreq)
  {
    PullIn.OffsetSign(deltaNs, DCO_MAX_PPB);
    PullIn.ShiftDirection(c.currentFreq, PullIn.Offset(deltaNs, DCO_MAX_PPB), DCO_MAX_PPB);
    assert PullIn.Scaled(DCO_MAX_PPB) == FrequencyWord.Part.Sabre.MaxScaledPpm();
  }

  /** At the largest accepted frequency a pull-in forward reports success, keeps adjfine and
      adjtime out for its second, and writes the frequency that is there already. */
  lemma PullInAtTheMaximum(c: Chan, f: Faults)
    requires c.currentFreq == FrequencyWord.Part.Sabre.MaxScaledPpm() && !WriteFails(c, f)
    ensures var (c1, err) := StartDdco(c, 5000, f);
            && err == 0 && c1.ddco && c1.queued
            && c1.freqReg == FrequencyWord.Encode(FrequencyWord.Sabre, c.currentFreq)
  {
    PullInDelivers(c, 5000, f);
    PullInDirection(c, 5000);
    assert PullInFrequency(c, 5000) <= PullIn.Scaled(DCO_MAX_PPB);
  }

  /** Which adjtime pulls in: every one of at least 5 ns and below the threshold. A 32-bit
      threshold beyond 2^31 would let larger amounts in, cut to 32 bits. */
  lemma PullsExactly(delta: int, threshold: nat)
    requires -TWO_63 < delta < TWO_63 && threshold <= TWO_31
    ensures Pulls(delta, threshold) <==> 5 <= Abs(delta) < threshold
  {
    assert Abs64(delta) == Abs(delta);
  }

  /** What adjtime does under the lock, on a bus without errors: it pulls in, or leaves the channel
      as it is, for the smallest amounts and for those that step the clock. */
  lemma AdjtimeDecides(c: Chan, delta: int, threshold: nat)
    requires -TWO_63 < delta < TWO_63 && threshold <= TWO_31
    ensures var (c1, err) := AdjtimeBody(c, delta, threshold, NO_FAULTS);
            && err == 0
            && (if 5 <= Abs(delta) < threshold then c1.ddco && c1.queued else c1 == c)
  {
    PullsExactly(delta, threshold);
    WriteFailsExactly(c, PullInFrequency(c, S32(delta)), NO_FAULTS);
  }

  /** A call past its tests returns 0 exactly when its work is done: an adjfine when its frequency
      write does not fail, an adjtime when it need not write one or that write does not fail. */
  lemma CallsReportFailure(s: Sys, threshold: nat, tid: nat, f: Faults)
    requires tid in s.threads
    ensures s.threads[tid].FinePassed? ==>
              (Step(s, threshold, FineBody(tid, f)).1 == Some(0) <==> !WriteFails(s.chan, f))
    ensures s.threads[tid].TimePassed? && Abs64(s.threads[tid].delta) < threshold ==>
              (Step(s, threshold, TimeBody(tid, f)).1 == Some(0) <==>
                 !Pulls(s.threads[tid].delta, threshold) || !WriteFails(s.chan, f))
    ensures s.threads[tid].TimePassed? && Abs64(s.threads[tid].delta) >= threshold ==>
              Step(s, threshold, TimeBody(tid, f)).1 == Some(f.data)
  {
    match s.threads[tid]
    case FineEntered(_) =>
    case FinePassed(ppm) => WriteFailsExactly(s.chan, ppm, f);
    case TimePassed(delta) => WriteFailsExactly(s.chan, PullInFrequency(s.chan, S32(delta)), f);
  }

  /** A successful adjfine leaves the device in DCO mode with the word of the call in its register,
      and the frequency kept; a successful phase call leaves it in write-phase mode with the phase
      of the call in its register, and touches nothing else. */
  lemma CallsEnterTheirMode(c: Chan, x: int, f: Faults)
    requires ModeCoherent(c) && -TWO_31 <= x < TWO_31
    ensures var (c1, err) := AdjfineBody(c, x, f);
            && (err == 0 <==> !WriteFails(c, f))
            && (err == 0 ==>
                  && c1.freqReg == FrequencyWord.Encode(FrequencyWord.Sabre, x) && c1.currentFreq == x
                  && GetField(c1.modeReg, 1, 32) == 10)
    ensures var (c1, err) := WritePhase(c, x, f);
            && (err == 0 <==> f.data == 0 && (c.pllMode == WPH || f.modeRead == 0 == f.modeWrite))
            && (err == 0 ==>
                  && |c1.phaseReg| == 4 && PhaseWord.SabreField(c1.phaseReg) == PhaseWord.Sabre(x)
                  && c1.phaseReg[3] / 128 == 1 && GetField(c1.modeReg, 1, 32) == 18)
            && c1 == c.(modeReg := c1.modeReg, pllMode := c1.pllMode, phaseReg := c1.phaseReg)
  {
    WriteFailsExactly(c, x, f);
    SetModeCoherent(c, DCO, f);
    SetModeCoherent(c, WPH, f);
    PhaseWord.SabrePhaseNeverSpills(x);
  }

  // ---- A failed restore ----

  /** A pull-in without anyone to end it: no worker queued or running, and no adjtime past its
      test that could start another. */
  ghost predicate Wedged(s: Sys, threshold: nat) {
    && s.chan.ddco && !s.chan.queued && !s.running
    && (forall tid | tid in s.threads && s.threads[tid].TimePassed? :: !Pulls(s.threads[tid].delta, threshold))
  }

  /** The one restore attempt of a pull-in wedges it exactly when its frequency write fails and
      no adjtime that can start another pull-in is past its test. */
  lemma FailedRestoreWedges(s: Sys, threshold: nat, f: Faults)
    requires s.chan.ddco && s.chan.queued && !s.running
    ensures Wedged(Step(Step(s, threshold, WorkerFires).0, threshold, WorkerBody(f)).0, threshold)
      <==> WriteFails(s.chan, f)
           && (forall tid | tid in s.threads && s.threads[tid].TimePassed? :: !Pulls(s.threads[tid].delta, threshold))
  {
    var s1 := Step(s, threshold, WorkerFires).0;
    WriteFailsExactly(s1.chan, s.chan.currentFreq, f);
  }

  lemma WedgedStep(s: Sys, threshold: nat, e: Event)
    requires Wedged(s, threshold)
    ensures var (r, result) := Step(s, threshold, e);
            && Wedged(r, threshold)
            && (s.threads == map[] ==>
                r.threads == map[] && r.chan.freqReg == s.chan.freqReg && r.chan.currentFreq == s.chan.currentFreq)
  {
  }

  /** From then on every new adjfine reports success without effect and every new adjtime is
      busy, for ever; without calls in progress the frequency stays where the failed restore
      left it. */
  lemma {:induction false} WedgedForEver(states: seq<Sys>, threshold: nat, events: seq<Event>, n: nat)
    requires IsRun(states, threshold, events) && n < |states| && Wedged(states[0], threshold)
    ensures Wedged(states[n], threshold)
    ensures states[0].threads == map[] ==>
              && states[n].threads == map[] && states[n].chan.freqReg == states[0].chan.freqReg
              && states[n].chan.currentFreq == states[0].chan.currentFreq
    ensures forall tid, ppm | tid !in states[n].threads ::
              Step(states[n], threshold, FineCheckDdco(tid, ppm)) == (states[n], Some(0))
    ensures forall tid, delta | tid !in states[n].threads ::
              Step(states[n], threshold, TimeCheck(tid, delta)) == (states[n], Some(EBUSY))
  {
    if n > 0 {
      WedgedForEver(states, threshold, events, n - 1);
      WedgedStep(states[n - 1], threshold, events[n - 1]);
    }
  }

  /** An adjtime past its test is the one way out: it starts another pull-in, whose worker can
      restore the frequency. */
  lemma LateAdjtimeUnwedges(s: Sys, threshold: nat, tid: nat) returns (states: seq<Sys>, events: seq<Event>)
    requires s.chan.ddco && !s.chan.queued && !s.running
    requires tid in s.threads && s.threads[tid].TimePassed? && Pulls(s.threads[tid].delta, threshold)
    ensures IsRun(states, threshold, events) && states[0] == s && !states[|events|].chan.ddco
  {
    events := [TimeBody(tid, NO_FAULTS), WorkerFires, WorkerBody(NO_FAULTS)];
    var s1 := Step(s, threshold, events[0]).0;
    var s2 := Step(s1, threshold, events[1]).0;
    states := [s, s1, s2, Step(s2, threshold, events[2]).0];
  }

  /** So a pull-in whose worker is gone stays on in every run exactly when it is wedged. */
  lemma WedgedExactly(s: Sys, threshold: nat)
    requires s.chan.ddco && !s.chan.queued && !s.running
    ensures Wedged(s, threshold) <==>
      forall states: seq<Sys>, events: seq<Event> | IsRun(states, threshold, events) && states[0] == s ::
        states[|events|].chan.ddco
  {
    if Wedged(s, threshold) {
      forall states: seq<Sys>, events: seq<Event> | IsRun(states, threshold, events) && states[0] == s
        ensures states[|events|].chan.ddco
      {
        WedgedForEver(states, threshold, events, |events|);
      }
    } else {
      var tid :| tid in s.threads && s.threads[tid].TimePassed? && Pulls(s.threads[tid].delta, threshold);
      var states, events := LateAdjtimeUnwedges(s, threshold, tid);
    }
  }
}
