/** One channel of the ClockMatrix PHC driver, its callbacks taken as atomic steps, together
    with the two calls of the misc driver (rsmu_cm.c) that rewrite the same DPLL_MODE
    register: holdover and clock priorities. Bus errors are parameters; a write that fails
    leaves a control register alone but may leave any bytes in a data register. */
module ClockMatrixPhc {
  import opened CInt
  import FrequencyWord
  import PhaseWord
  import PullIn
  import opened Options
  import opened TimeOfDay

  const EBUSY := -16
  const EINVAL := -22
  const PULL_IN_THRESHOLD_NS := 15000
  const PULL_IN_MIN_NS := 2
  const PULL_IN_MAX_PPB := 144000

  /** How the channel is put into write-frequency or write-phase mode: by the mode field of
      DPLL_MODE (bits 3-5), or by the manual reference (bits 0-4 of its own register). */
  datatype Variant = PllMode | ManualReference

  datatype Mode = WriteFrequency | WritePhase | Unsupported {
    function PllField(): nat { if WritePhase? then 1 else 2 }
    function RefField(): nat { if WritePhase? then 16 else 17 }
  }

  /** Registers the channel and the misc driver touch. */
  datatype Regs = Regs(dpllMode: int, manuRef: int, wfTimer: nat, wpTimer: nat,
                       freq: seq<byte>, phase: seq<byte>,
                       pullOffset: seq<byte>, pullSlope: seq<byte>, pullCtrl: int,
                       tod: seq<byte>, todType: WriteType)

  datatype Phc = Phc(variant: Variant, mode: Mode, current: int, pullIn: bool, queued: bool, delayMs: nat,
                     maxAdj: nat, regs: Regs)

  /** One error code per register access of a call; `torn` is what a failed data write
      leaves in the register, None if it leaves the register alone. */
  datatype Faults = Faults(wfTimer: int, wpTimer: int, modeRead: int, modeWrite: int,
                           data: int, torn: Option<seq<byte>>, slope: int, ctrlRead: int, ctrlWrite: int)

  // ---- What each call does ----

  function SetPllMode(r: Regs, mode: Mode, f: Faults): (Regs, int) {
    if f.wfTimer != 0 then (r, f.wfTimer) else
      var r1 := r.(wfTimer := 0);
      if f.wpTimer != 0 then (r1, f.wpTimer) else
        var r2 := r1.(wpTimer := if mode.WritePhase? then 160 else 0);
        if f.modeRead != 0 then (r2, f.modeRead)
        else if f.modeWrite != 0 then (r2, f.modeWrite)
        else (r2.(dpllMode := SetField(r.dpllMode, 8, 8, mode.PllField())), 0)
  }

  function SetManualReference(r: Regs, mode: Mode, f: Faults): (Regs, int) {
    if f.modeRead != 0 then (r, f.modeRead)
    else if f.modeWrite != 0 then (r, f.modeWrite)
    else (r.(manuRef := SetField(r.manuRef, 1, 32, mode.RefField())), 0)
  }

  function Configure(c: Phc, mode: Mode, f: Faults): (Phc, int) {
    var (r, err) := if c.variant.PllMode? then SetPllMode(c.regs, mode, f) else SetManualReference(c.regs, mode, f);
    (if err != 0 then c.(regs := r) else c.(regs := r, mode := mode), err)
  }

  /** Switch mode if the cached mode says so. */
  function Enter(c: Phc, mode: Mode, f: Faults): (Phc, int) {
    if c.mode == mode then (c, 0) else Configure(c, mode, f)
  }

  /** What the registers say about a channel at probe: a DPLL in its PLL mode (0) is driven by
      the manual reference, any other by the mode field. */
  function Discover(c: Phc, readErr: int, refErr: int): (Phc, int) {
    var field, ref := GetField(c.regs.dpllMode, 8, 8), GetField(c.regs.manuRef, 1, 32);
    if readErr != 0 then (c.(mode := Unsupported), readErr)
    else if field == 0 && refErr != 0 then (c.(mode := Unsupported), refErr)
    else if field == 0 then
      var found := if ref == 16 then WritePhase else if ref == 17 then WriteFrequency else Unsupported;
      (c.(variant := ManualReference, mode := found), 0)
    else
      var found := if field == 1 then WritePhase else if field == 2 then WriteFrequency else Unsupported;
      (c.(variant := PllMode, mode := found), if found == Unsupported then EINVAL else 0)
  }

  /** A channel found in write-phase mode is switched to write-frequency mode; the error of that
      switch is not reported. */
  function Initialize(c: Phc, readErr: int, refErr: int, f: Faults): (Phc, int) {
    var (c1, err) := Discover(c, readErr, refErr);
    (if c1.mode.WritePhase? then Configure(c1, WriteFrequency, f).0 else c1, err)
  }

  function WriteFrequencyWord(c: Phc, scaledPpm: int, f: Faults): (Phc, int) {
    var (c1, err) := Enter(c, WriteFrequency, f);
    if err != 0 then (c1, err)
    else if f.data != 0 then (c1.(regs := c1.regs.(freq := f.torn.UnwrapOr(c1.regs.freq))), f.data)
    else (c1.(regs := c1.regs.(freq := FrequencyWord.Encode(FrequencyWord.ClockMatrix, scaledPpm))), 0)
  }

  function Adjfine(c: Phc, scaledPpm: int, f: Faults): (Phc, int) {
    if c.pullIn then (c, 0) else
      var (c1, err) := WriteFrequencyWord(c, scaledPpm, f);
      if err != 0 then (c1, err) else (c1.(current := S32(scaledPpm)), 0)
  }

  function Adjphase(c: Phc, deltaNs: int, f: Faults): (Phc, int) {
    var (c1, err) := Enter(c, WritePhase, f);
    if err != 0 then (c1, err)
    else if f.data != 0 then (c1.(regs := c1.regs.(phase := f.torn.UnwrapOr(c1.regs.phase))), f.data)
    else (c1.(regs := c1.regs.(phase := LeBytes(PhaseWord.ClockMatrix(deltaNs), 4))), 0)
  }

  function PullInLimit(maxFfoPpb: nat): (l: nat)
    ensures 1 <= l <= PULL_IN_MAX_PPB
  {
    if maxFfoPpb == 0 || maxFfoPpb > PULL_IN_MAX_PPB then PULL_IN_MAX_PPB else maxFfoPpb
  }

  function PullInFrequency(c: Phc, deltaNs: int): int {
    PullIn.Shifted32(c.current, PullIn.Offset(deltaNs, PullInLimit(c.maxAdj)), PULL_IN_MAX_PPB)
  }

  function Delay(c: Phc, deltaNs: int): nat {
    PullIn.MSEC_PER_SEC * Pow2(PullIn.Halvings(deltaNs, PullInLimit(c.maxAdj))) % TWO_32
  }

  predicate TooSmall(deltaNs: int) { S32(Abs(deltaNs)) < PULL_IN_MIN_NS }

  /** Pull-in by software: shift the frequency, queue the worker that shifts it back. */
  function PullInSw(c: Phc, deltaNs: int, f: Faults): (Phc, int) {
    if TooSmall(deltaNs) then (c, 0) else
      var (c1, err) := WriteFrequencyWord(c, PullInFrequency(c, deltaNs), f);
      if err != 0 then (c1, err) else (c1.(queued := true, delayMs := Delay(c, deltaNs), pullIn := true), 0)
  }

  /** Pull-in by the device: offset, slope limit (24 bits, else none), start unless busy. */
  function PullInFw(c: Phc, deltaNs: int, f: Faults): (Phc, int) {
    var r := c.regs;
    if f.data != 0 then (c.(regs := r.(pullOffset := f.torn.UnwrapOr(r.pullOffset))), f.data) else
      var r1 := r.(pullOffset := LeBytes(S32(-deltaNs), 4));
      if f.slope != 0 then (c.(regs := r1), f.slope) else
        var r2 := r1.(pullSlope := LeBytes(if c.maxAdj >= 0x100_0000 then 0 else c.maxAdj, 3));
        if f.ctrlRead != 0 then (c.(regs := r2), f.ctrlRead)
        else if r.pullCtrl != 0 then (c.(regs := r2), EBUSY)
        else if f.ctrlWrite != 0 then (c.(regs := r2), f.ctrlWrite)
        else (c.(regs := r2.(pullCtrl := 1)), 0)
  }

  /** Write the time-of-day registers and trigger the write with its type. The command register
      fails with `modeRead` when it is read and with `ctrlWrite` when it is written; the
      handshake that follows only waits, and fails with `ctrlRead`. */
  function Settime(c: Phc, t: WriteType, ts: Timespec, f: Faults): (Phc, int) {
    if f.data != 0 then (c.(regs := c.regs.(tod := f.torn.UnwrapOr(c.regs.tod))), f.data) else
      var r1 := c.regs.(tod := Encode(Layout.ClockMatrix, ts));
      if f.modeRead != 0 then (c.(regs := r1), f.modeRead)
      else if f.ctrlWrite != 0 then (c.(regs := r1), f.ctrlWrite)
      else (c.(regs := r1.(todType := t)), f.ctrlRead)
  }

  /** adjtime under the lock. */
  function AdjtimeBody(c: Phc, delta: int, f: Faults): (Phc, int) {
    if Abs64(delta) < PULL_IN_THRESHOLD_NS then
      if c.variant.PllMode? then PullInFw(c, S32(delta), f) else PullInSw(c, S32(delta), f)
    else Settime(c, DeltaWrite(delta).0, DeltaWrite(delta).1, f)
  }

  function Adjtime(c: Phc, delta: int, f: Faults): (Phc, int) {
    if c.pullIn then (c, EBUSY) else AdjtimeBody(c, delta, f)
  }

  function Worker(c: Phc, f: Faults): (Phc, int) {
    var (c1, err) := WriteFrequencyWord(c, c.current, f);
    if err != 0 then (c1, err) else (c1.(pullIn := false), 0)
  }

  /** When entering a mode fails: only if the cached mode differs, by any access of the change. */
  predicate ModeFails(c: Phc, mode: Mode, f: Faults) {
    && c.mode != mode
    && (f.modeRead != 0 || f.modeWrite != 0 || (c.variant.PllMode? && (f.wfTimer != 0 || f.wpTimer != 0)))
  }

  predicate WriteFails(c: Phc, f: Faults) { f.data != 0 || ModeFails(c, WriteFrequency, f) }

  lemma WriteFailsExactly(c: Phc, scaledPpm: int, f: Faults)
    ensures WriteFrequencyWord(c, scaledPpm, f).1 != 0 <==> WriteFails(c, f)
  {
  }

  /** An adjtime whose body starts a pull-in by software. */
  predicate BodyPulls(c: Phc, delta: int) {
    Abs64(delta) < PULL_IN_THRESHOLD_NS && c.variant.ManualReference? && !TooSmall(S32(delta))
  }

  predicate Pulls(c: Phc, delta: int) { !c.pullIn && BodyPulls(c, delta) }

  class Channel {
    var variant: Variant
    var mode: Mode
    var current: int
    var pullIn: bool
    var queued: bool
    var delayMs: nat
    var maxAdj: nat
    var regs: Regs

    ghost function State(): Phc reads this { Phc(variant, mode, current, pullIn, queued, delayMs, maxAdj, regs) }

    constructor (maxAdj: nat, regs: Regs)
      ensures State() == Phc(PllMode, Unsupported, 0, false, false, 0, maxAdj, regs)
    {
      variant, mode, current, pullIn, queued, delayMs := PllMode, Unsupported, 0, false, false, 0;
      this.maxAdj, this.regs := maxAdj, regs;
    }

    method SetModeField(newMode: Mode, f: Faults) returns (err: int)
      modifies this`regs
      ensures (regs, err) == SetPllMode(old(regs), newMode, f)
    {
      if f.wfTimer != 0 { return f.wfTimer; }
      regs := regs.(wfTimer := 0);
      var timer := 0;
      if newMode == WritePhase { timer := 160; }
      if f.wpTimer != 0 { return f.wpTimer; }
      regs := regs.(wpTimer := timer);
      if f.modeRead != 0 { return f.modeRead; }
      var dpllMode := SetField(regs.dpllMode, 8, 8, newMode.PllField());
      if f.modeWrite != 0 { return f.modeWrite; }
      regs := regs.(dpllMode := dpllMode);
      err := 0;
    }

    method ConfigureMode(newMode: Mode, f: Faults) returns (err: int)
      modifies this
      ensures (State(), err) == Configure(old(State()), newMode, f)
    {
      if variant == PllMode {
        err := SetModeField(newMode, f);
      } else {
        if f.modeRead != 0 { return f.modeRead; }
        var cfg := SetField(regs.manuRef, 1, 32, newMode.RefField());
        if f.modeWrite != 0 { return f.modeWrite; }
        regs := regs.(manuRef := cfg);
        err := 0;
      }
      if err == 0 {
        mode := newMode;
      }
    }

    /** Probe: find out how the channel is driven. */
    method InitializeMode(readErr: int, refErr: int, f: Faults) returns (err: int)
      modifies this
      ensures (State(), err) == Initialize(old(State()), readErr, refErr, f)
    {
      mode := Unsupported;
      if readErr != 0 { return readErr; }
      var field := GetField(regs.dpllMode, 8, 8);
      err := 0;
      if field == 0 {
        if refErr != 0 { return refErr; }
        var ref := GetField(regs.manuRef, 1, 32);
        variant := ManualReference;
        if ref == 16 { mode := WritePhase; } else if ref == 17 { mode := WriteFrequency; }
      } else {
        variant := PllMode;
        if field == 1 { mode := WritePhase; } else if field == 2 { mode := WriteFrequency; } else { err := EINVAL; }
      }
      if mode == WritePhase {
        var ignored := ConfigureMode(WriteFrequency, f);
      }
    }

    method AdjfineInner(scaledPpm: int, f: Faults) returns (err: int)
      modifies this
      ensures (State(), err) == WriteFrequencyWord(old(State()), scaledPpm, f)
    {
      if mode != WriteFrequency {
        err := ConfigureMode(WriteFrequency, f);
        if err != 0 { return; }
      }
      var buf := FrequencyWord.EncodeFrequency(FrequencyWord.ClockMatrix, scaledPpm);
      err := f.data;
      regs := regs.(freq := if err != 0 then f.torn.UnwrapOr(regs.freq) else buf[..]);
    }

    method AdjustFine(scaledPpm: int, f: Faults) returns (err: int)
      modifies this
      ensures (State(), err) == Adjfine(old(State()), scaledPpm, f)
    {
      if pullIn { return 0; }
      err := AdjfineInner(scaledPpm, f);
      if err == 0 {
        current := S32(scaledPpm);
      }
    }

    method AdjustPhase(deltaNs: int, f: Faults) returns (err: int)
      requires -TWO_31 <= deltaNs < TWO_31
      modifies this
      ensures (State(), err) == Adjphase(old(State()), deltaNs, f)
    {
      if mode != WritePhase {
        err := ConfigureMode(WritePhase, f);
        if err != 0 { return; }
      }
      var buf := PhaseWord.ClockMatrixEncode(deltaNs);
      err := f.data;
      regs := regs.(phase := if err != 0 then f.torn.UnwrapOr(regs.phase) else buf[..]);
    }

    method DoPullInSw(deltaNs: int, f: Faults) returns (err: int)
      requires -TWO_31 <= deltaNs < TWO_31
      modifies this
      ensures (State(), err) == PullInSw(old(State()), deltaNs, f)
    {
      if S32(Abs(deltaNs)) < PULL_IN_MIN_NS { return 0; }
      var maxFfoPpb := maxAdj;
      if maxFfoPpb == 0 || maxFfoPpb > PULL_IN_MAX_PPB { maxFfoPpb := PULL_IN_MAX_PPB; }
      var ppb, durationMs := PullIn.Halve(deltaNs, maxFfoPpb);
      err := AdjfineInner(PullIn.Shifted32(current, ppb, PULL_IN_MAX_PPB), f);
      if err != 0 { return; }
      queued, delayMs := true, durationMs;
      pullIn := true;
    }

    method DoPullInFw(deltaNs: int, f: Faults) returns (err: int)
      requires -TWO_31 <= deltaNs < TWO_31
      modifies this
      ensures (State(), err) == PullInFw(old(State()), deltaNs, f)
    {
      var offset := new byte[4];
      StoreLe(offset, 0, S32(-deltaNs), 4);
      assert offset[..] == offset[0..4];
      regs := regs.(pullOffset := if f.data != 0 then f.torn.UnwrapOr(regs.pullOffset) else offset[..]);
      if f.data != 0 { return f.data; }
      var ppb := maxAdj;
      if ppb >= 0x100_0000 { ppb := 0; }
      var slope := new byte[3];
      StoreLe(slope, 0, ppb, 3);
      assert slope[..] == slope[0..3];
      if f.slope != 0 { return f.slope; }
      regs := regs.(pullSlope := slope[..]);
      if f.ctrlRead != 0 { return f.ctrlRead; }
      if regs.pullCtrl != 0 { return EBUSY; }
      if f.ctrlWrite != 0 { return f.ctrlWrite; }
      regs := regs.(pullCtrl := 1);
      err := 0;
    }

    method AdjustTime(delta: int, f: Faults) returns (err: int)
      requires -TWO_63 <= delta < TWO_63
      modifies this
      ensures (State(), err) == Adjtime(old(State()), delta, f)
    {
      if pullIn { return EBUSY; }
      if Abs64(delta) < PULL_IN_THRESHOLD_NS {
        if variant == PllMode {
          err := DoPullInFw(S32(delta), f);
        } else {
          err := DoPullInSw(S32(delta), f);
        }
        return;
      }
      var ts, kind := NsToTimespec(delta), DeltaPlus;
      if delta < 0 {
        ts, kind := NsToTimespec(S64(-delta)), DeltaMinus;
      }
      var buf := new byte[11];
      err := TimespecToBytes(Layout.ClockMatrix, ts, buf);
      assert buf[..11] == buf[..];
      regs := regs.(tod := if f.data != 0 then f.torn.UnwrapOr(regs.tod) else buf[..]);
      if f.data != 0 { return f.data; }
      if f.modeRead != 0 { return f.modeRead; }
      if f.ctrlWrite != 0 { return f.ctrlWrite; }
      regs := regs.(todType := kind);
      err := f.ctrlRead;
    }

    method StopPullIn(f: Faults) returns (err: int)
      modifies this
      ensures (State(), err) == Worker(old(State()), f)
    {
      err := AdjfineInner(current, f);
      if err != 0 { return; }
      pullIn := false;
    }
  }

  // ---- Every run ----

  datatype Event =
    | CallAdjfine(scaledPpm: int, f: Faults)
    | CallAdjphase(deltaNs: int, f: Faults)
    | CallAdjtime(delta: int, f: Faults)
    | WorkerRuns(f: Faults)
    /** rsmu_cm_set_holdover_mode and the end of rsmu_cm_set_clock_priorities: under the lock they
        read DPLL_MODE and write it back, with bits 0-2 changed or as it was. */
    | MiscHoldoverReads(enable: bool, readErr: int)
    | MiscPrioritiesReads(readErr: int)
    | MiscWrites(writeErr: int)

  /** What the misc driver is about to write back: 3 in bits 0-2 forces holdover, 0 is automatic. */
  datatype Pending = Holdover(enable: bool, reg: int) | Priorities(reg: int) {
    function Value(): int { if Holdover? then SetField(reg, 1, 8, HoldoverField(enable)) else reg }
  }

  function HoldoverField(enable: bool): nat { if enable then 3 else 0 }

  /** `misc` is what the misc driver has read while it holds the lock, None while the lock is
      free. History: `written` is what the last frequency write put into the register, None
      before the first and after a torn one; `held` is the last successful holdover request. */
  datatype Sys = Sys(phc: Phc, misc: Option<Pending>, written: Option<int>, held: Option<bool>, restoreFailed: bool)

  function Written(s: Sys, scaledPpm: int, f: Faults): Option<int> {
    if WriteFrequencyWord(s.phc, scaledPpm, f).1 == 0 then Some(scaledPpm)
    else if Enter(s.phc, WriteFrequency, f).1 != 0 || f.torn == None then s.written
    else None
  }

  /** One event; an event that needs the lock while the misc driver holds it does nothing. */
  function Step(s: Sys, e: Event): Sys {
    var c := s.phc;
    if s.misc.Some? != e.MiscWrites? then s else
      match e
      case CallAdjfine(ppm, f) =>
        s.(phc := Adjfine(c, ppm, f).0, written := if c.pullIn then s.written else Written(s, ppm, f))
      case CallAdjphase(ns, f) => s.(phc := Adjphase(c, ns, f).0)
      case CallAdjtime(delta, f) =>
        var (c1, err) := Adjtime(c, delta, f);
        s.(phc := c1, written := if Pulls(c, delta) then Written(s, PullInFrequency(c, S32(delta)), f) else s.written,
           restoreFailed := s.restoreFailed && !(Pulls(c, delta) && err == 0))
      case WorkerRuns(f) =>
        if !c.queued then s else
          var (c1, err) := Worker(c.(queued := false), f);
          s.(phc := c1, written := Written(s, c.current, f), restoreFailed := err != 0)
      case MiscHoldoverReads(enable, readErr) =>
        if readErr != 0 then s
        else if GetField(c.regs.dpllMode, 1, 8) == HoldoverField(enable) then s.(held := Some(enable))
        else s.(misc := Some(Holdover(enable, c.regs.dpllMode)))
      case MiscPrioritiesReads(readErr) =>
        if readErr != 0 then s else s.(misc := Some(Priorities(c.regs.dpllMode)))
      case MiscWrites(writeErr) =>
        if writeErr != 0 then s.(misc := None) else
          var p := s.misc.value;
          s.(misc := None, phc := c.(regs := c.regs.(dpllMode := p.Value())),
             held := if p.Holdover? then Some(p.enable) else s.held)
  }

  /** The states of a run, the initial one first. */
  ghost predicate IsRun(states: seq<Sys>, events: seq<Event>) {
    && |states| == |events| + 1
    && forall n | 0 <= n < |events| :: states[n + 1] == Step(states[n], events[n])
  }

  /** The cached mode is the mode of the hardware. */
  ghost predicate Coherent(c: Phc) {
    c.mode == Unsupported ||
    if c.variant.PllMode? then GetField(c.regs.dpllMode, 8, 8) == c.mode.PllField()
    else GetField(c.regs.manuRef, 1, 32) == c.mode.RefField()
  }

  predicate Accepted(e: Event) { e.CallAdjfine? ==> -TWO_31 <= e.scaledPpm < TWO_31 }

  ghost predicate Safe(s: Sys) {
    && Coherent(s.phc)
    && (s.written.Some? ==> s.phc.regs.freq == FrequencyWord.Encode(FrequencyWord.ClockMatrix, s.written.value))
    && (s.written.Some? && !s.phc.pullIn ==> s.written.value == s.phc.current)
    && (s.phc.pullIn ==> s.phc.queued || s.restoreFailed)
    && (s.held.Some? ==> GetField(s.phc.regs.dpllMode, 1, 8) == HoldoverField(s.held.value))
    && (s.misc.Some? ==> s.misc.value.reg == s.phc.regs.dpllMode)
  }

  /** The two fields of DPLL_MODE do not disturb each other. */
  lemma FieldsApart(reg: int, v: nat)
    requires v < 8
    ensures GetField(SetField(reg, 8, 8, v), 8, 8) == v && GetField(SetField(reg, 8, 8, v), 1, 8) == GetField(reg, 1, 8)
    ensures GetField(SetField(reg, 1, 8, v), 1, 8) == v && GetField(SetField(reg, 1, 8, v), 8, 8) == GetField(reg, 8, 8)
  {
    SetFieldSplits(reg, 8, 8, v);
    SetFieldSplits(reg, 1, 8, v);
  }

  lemma PllModeField(r: Regs, mode: Mode, f: Faults)
    requires mode != Unsupported
    ensures var (r1, err) := SetPllMode(r, mode, f);
            && r1.freq == r.freq && r1.manuRef == r.manuRef
            && GetField(r1.dpllMode, 1, 8) == GetField(r.dpllMode, 1, 8)
            && (if err == 0 then GetField(r1.dpllMode, 8, 8) == mode.PllField() else r1.dpllMode == r.dpllMode)
  {
    FieldsApart(r.dpllMode, mode.PllField());
  }

  lemma ManualReferenceField(r: Regs, mode: Mode, f: Faults)
    requires mode != Unsupported
    ensures var (r1, err) := SetManualReference(r, mode, f);
            && r1.freq == r.freq && r1.dpllMode == r.dpllMode
            && (if err == 0 then GetField(r1.manuRef, 1, 32) == mode.RefField() else r1.manuRef == r.manuRef)
  {
  }

  lemma ConfigureCoherent(c: Phc, mode: Mode, f: Faults)
    requires Coherent(c) && mode != Unsupported
    ensures var (c1, err) := Configure(c, mode, f);
            && Coherent(c1) && (err == 0 ==> c1.mode == mode)
            && GetField(c1.regs.dpllMode, 1, 8) == GetField(c.regs.dpllMode, 1, 8)
            && c1 == c.(mode := c1.mode, regs := c1.regs) && c1.regs.freq == c.regs.freq
  {
    PllModeField(c.regs, mode, f);
    ManualReferenceField(c.regs, mode, f);
  }

  /** Whatever the probe finds, the cached mode it leaves is the hardware's. It is unknown
      exactly when a read failed or the hardware is in none of the four modes the driver knows,
      and the probe fails exactly when a read failed or the mode field is not 0, 1 or 2: an
      unknown manual reference is accepted. A channel found in write-phase mode stays there exactly
      when the switch to write-frequency mode fails. A probed channel can start a run. */
  lemma InitializeCoherent(c: Phc, readErr: int, refErr: int, f: Faults)
    ensures var (c1, err) := Initialize(c, readErr, refErr, f);
            var field, ref := GetField(c.regs.dpllMode, 8, 8), GetField(c.regs.manuRef, 1, 32);
            && Coherent(c1)
            && (c1.mode == Unsupported <==>
                  readErr != 0 || field > 2 || (field == 0 && (refErr != 0 || (ref != 16 && ref != 17))))
            && (err == 0 <==> readErr == 0 && field <= 2 && (field == 0 ==> refErr == 0))
            && (c1.mode == WritePhase <==>
                  && readErr == 0 && (field == 1 || (field == 0 && refErr == 0 && ref == 16))
                  && (f.modeRead != 0 || f.modeWrite != 0 || (field == 1 && (f.wfTimer != 0 || f.wpTimer != 0))))
            && (c1.mode == WriteFrequency ==>
                  if field == 0 then GetField(c1.regs.manuRef, 1, 32) == 17 else GetField(c1.regs.dpllMode, 8, 8) == 2)
            && (!c.pullIn ==> Safe(Sys(c1, None, None, None, false)))
  {
    var c1 := Discover(c, readErr, refErr).0;
    if c1.mode.WritePhase? {
      ConfigureCoherent(c1, WriteFrequency, f);
      assert Configure(c1, WriteFrequency, f).1 != 0 <==> ModeFails(c1, WriteFrequency, f);
    }
  }

  /** What one frequency write, with its mode change, does to the channel. */
  lemma WriteFrequencySafe(s: Sys, scaledPpm: int, f: Faults)
    requires Safe(s)
    ensures var (c, err) := WriteFrequencyWord(s.phc, scaledPpm, f);
            var w := Written(s, scaledPpm, f);
            && Coherent(c) && (err == 0 ==> c.mode == WriteFrequency)
            && c == s.phc.(mode := c.mode, regs := c.regs)
            && GetField(c.regs.dpllMode, 1, 8) == GetField(s.phc.regs.dpllMode, 1, 8)
            && (w.Some? ==> c.regs.freq == FrequencyWord.Encode(FrequencyWord.ClockMatrix, w.value))
            && (err == 0 ==> w == Some(scaledPpm))
            && (err != 0 && w.Some? ==> w == s.written)
  {
    ConfigureCoherent(s.phc, WriteFrequency, f);
  }

  lemma SettimeKeeps(c: Phc, t: WriteType, ts: Timespec, f: Faults)
    ensures var c1 := Settime(c, t, ts, f).0;
            c1 == c.(regs := c.regs.(tod := c1.regs.tod, todType := c1.regs.todType))
  {
  }

  lemma PullInFwKeeps(c: Phc, deltaNs: int, f: Faults)
    ensures var c1 := PullInFw(c, deltaNs, f).0;
            var r := c1.regs;
            c1 == c.(regs := c.regs.(pullOffset := r.pullOffset, pullSlope := r.pullSlope, pullCtrl := r.pullCtrl))
  {
  }

  /** The other two ways of adjtime leave modes and frequency alone. */
  lemma OtherWaysKeep(c: Phc, delta: int, f: Faults)
    requires c.variant.PllMode? || Abs64(delta) >= PULL_IN_THRESHOLD_NS
    ensures var c1 := AdjtimeBody(c, delta, f).0;
            && c1 == c.(regs := c1.regs) && c1.regs.dpllMode == c.regs.dpllMode
            && c1.regs.manuRef == c.regs.manuRef && c1.regs.freq == c.regs.freq
  {
    SettimeKeeps(c, DeltaWrite(delta).0, DeltaWrite(delta).1, f);
    PullInFwKeeps(c, S32(delta), f);
  }

  lemma AdjtimeSafe(s: Sys, delta: int, f: Faults)
    requires Safe(s)
    ensures Safe(Step(s, CallAdjtime(delta, f)))
  {
    if s.misc.Some? {
    } else if s.phc.variant.PllMode? || Abs64(delta) >= PULL_IN_THRESHOLD_NS {
      OtherWaysKeep(s.phc, delta, f);
    } else if !s.phc.pullIn && !TooSmall(S32(delta)) {
      PullInSwSafe(s, S32(delta), f);
    }
  }

  lemma PullInSwSafe(s: Sys, deltaNs: int, f: Faults)
    requires Safe(s) && s.misc == None && !TooSmall(deltaNs)
    ensures var (c, err) := PullInSw(s.phc, deltaNs, f);
            Safe(s.(phc := c, written := Written(s, PullInFrequency(s.phc, deltaNs), f),
                    restoreFailed := s.restoreFailed && err != 0))
  {
    WriteFrequencySafe(s, PullInFrequency(s.phc, deltaNs), f);
  }

  lemma WorkerSafe(s: Sys, f: Faults)
    requires Safe(s)
    ensures Safe(Step(s, WorkerRuns(f)))
  {
    WriteFrequencySafe(s, s.phc.current, f);
    var c := s.phc.(queued := false);
    assert WriteFrequencyWord(c, c.current, f).0 == WriteFrequencyWord(s.phc, c.current, f).0.(queued := false);
  }

  lemma AdjphaseSafe(s: Sys, ns: int, f: Faults)
    requires Safe(s)
    ensures Safe(Step(s, CallAdjphase(ns, f)))
  {
    ConfigureCoherent(s.phc, WritePhase, f);
  }

  lemma AdjfineSafe(s: Sys, ppm: int, f: Faults)
    requires Safe(s) && -TWO_31 <= ppm < TWO_31
    ensures Safe(Step(s, CallAdjfine(ppm, f)))
  {
    WriteFrequencySafe(s, ppm, f);
  }

  lemma MiscReadsSafe(s: Sys, e: Event)
    requires Safe(s) && (e.MiscHoldoverReads? || e.MiscPrioritiesReads?)
    ensures Safe(Step(s, e))
  {
  }

  /** The misc driver's write-back keeps the mode field: what it read under the lock is current. */
  lemma MiscWritesSafe(s: Sys, writeErr: int)
    requires Safe(s)
    ensures Safe(Step(s, MiscWrites(writeErr)))
  {
    if s.misc.Some? {
      var p := s.misc.value;
      if p.Holdover? {
        FieldsApart(p.reg, HoldoverField(p.enable));
      }
      assert GetField(p.Value(), 8, 8) == GetField(p.reg, 8, 8);
    }
  }

  lemma StepSafe(s: Sys, e: Event)
    requires Safe(s) && Accepted(e)
    ensures Safe(Step(s, e))
  {
    match e
    case CallAdjfine(ppm, f) => AdjfineSafe(s, ppm, f);
    case CallAdjphase(ns, f) => AdjphaseSafe(s, ns, f);
    case CallAdjtime(delta, f) => AdjtimeSafe(s, delta, f);
    case WorkerRuns(f) => WorkerSafe(s, f);
    case MiscWrites(writeErr) => MiscWritesSafe(s, writeErr);
    case _ => MiscReadsSafe(s, e);
  }

  /** A holdover request on a working bus: bits 0-2 of DPLL_MODE are 3 afterwards if holdover was
      asked for and 0 if not, and the other bits are as before. */
  lemma HoldoverDone(s: Sys, enable: bool)
    requires s.misc == None
    ensures var r := Step(Step(s, MiscHoldoverReads(enable, 0)), MiscWrites(0));
            && GetField(r.phc.regs.dpllMode, 1, 8) == (if enable then 3 else 0)
            && r.phc.regs.dpllMode / 8 == s.phc.regs.dpllMode / 8
            && r.phc == s.phc.(regs := s.phc.regs.(dpllMode := r.phc.regs.dpllMode))
            && r.misc == None && r.held == Some(enable)
  {
    SetFieldSplits(s.phc.regs.dpllMode, 1, 8, HoldoverField(enable));
  }

  /** The end of a priorities call: it holds the lock from its read to its write, so that no call of
      the PHC acts in between, and leaves the channel as it was. */
  lemma PrioritiesDone(s: Sys, e: Event, writeErr: int)
    requires s.misc == None && IsPhcCall(e)
    ensures var r := Step(s, MiscPrioritiesReads(0));
            && r.misc.Some? && Step(r, e) == r && Step(r, MiscWrites(writeErr)) == s
  {
  }

  /** A request that fails leaves the register and the last successful request as they were. */
  lemma HoldoverFailed(s: Sys, enable: bool, err: int)
    requires s.misc == None && err != 0
    ensures Step(s, MiscHoldoverReads(enable, err)) == s
    ensures var r := Step(s, MiscHoldoverReads(enable, 0));
            r.misc.Some? ==> Step(r, MiscWrites(err)) == s
  {
  }

  predicate IsPhcCall(e: Event) { e.CallAdjfine? || e.CallAdjphase? || e.CallAdjtime? || e.WorkerRuns? }

  /** The mode after a call is the mode before or the call's own. */
  lemma EnterModes(c: Phc, mode: Mode, f: Faults)
    ensures var c1 := Enter(c, mode, f).0;
            (c1.mode == c.mode || c1.mode == mode) && c1 == c.(mode := c1.mode, regs := c1.regs)
  {
  }

  lemma CallsKeepKnown(s: Sys, e: Event)
    requires s.misc == None && IsPhcCall(e) && s.phc.mode != Unsupported
    ensures Step(s, e).phc.mode != Unsupported && Step(s, e).phc.variant == s.phc.variant
  {
    match e
    case CallAdjfine(_, f) => EnterModes(s.phc, WriteFrequency, f);
    case CallAdjphase(_, f) => EnterModes(s.phc, WritePhase, f);
    case CallAdjtime(delta, f) =>
      if s.phc.variant.PllMode? || Abs64(delta) >= PULL_IN_THRESHOLD_NS {
        OtherWaysKeep(s.phc, delta, f);
      } else {
        EnterModes(s.phc, WriteFrequency, f);
      }
    case WorkerRuns(f) => EnterModes(s.phc.(queued := false), WriteFrequency, f);
  }

  /** What the lock is for: if a call of the PHC came between the misc driver's read and its
      write-back, the cached mode would be right afterwards exactly when the call has not changed
      the mode, or the mode is not kept in that register. */
  lemma UnlockedWriteBack(s: Sys, e: Event, p: Pending)
    requires Safe(s) && s.misc == None && s.phc.mode != Unsupported
    requires IsPhcCall(e) && Accepted(e) && p.reg == s.phc.regs.dpllMode
    ensures var c := Step(s, e).phc;
            Coherent(c.(regs := c.regs.(dpllMode := p.Value()))) <==>
            c.variant.ManualReference? || c.mode == s.phc.mode
  {
    StepSafe(s, e);
    CallsKeepKnown(s, e);
    if p.Holdover? {
      FieldsApart(p.reg, HoldoverField(p.enable));
    }
    assert GetField(p.Value(), 8, 8) == GetField(s.phc.regs.dpllMode, 8, 8);
  }

  /** Main result: at every point of every run that mixes the PHC's callbacks, its worker and
      the misc driver's calls, under arbitrary bus errors, the cached mode is the hardware's;
      outside a pull-in the frequency register holds the current frequency once it has been
      written; a pull-in still has its worker unless its restore failed; and the holdover state
      is the one the misc driver asked for last. */
  lemma {:induction false} EveryRunIsSafe(states: seq<Sys>, events: seq<Event>, n: nat)
    requires IsRun(states, events) && n < |states| && Safe(states[0])
    requires forall e | e in events :: Accepted(e)
    ensures Safe(states[n])
    ensures !states[n].phc.pullIn && states[n].written.Some? ==>
              states[n].phc.regs.freq == FrequencyWord.Encode(FrequencyWord.ClockMatrix, states[n].phc.current)
    ensures states[n].held.Some? ==>
              GetField(states[n].phc.regs.dpllMode, 1, 8) == if states[n].held.value then 3 else 0
  {
    if n > 0 {
      EveryRunIsSafe(states, events, n - 1);
      StepSafe(states[n - 1], events[n - 1]);
    }
  }

  function FaultsOf(e: Event): Option<Faults> {
    match e
    case CallAdjfine(_, f) => Some(f)
    case CallAdjphase(_, f) => Some(f)
    case CallAdjtime(_, f) => Some(f)
    case WorkerRuns(f) => Some(f)
    case _ => None
  }

  /** A bus whose failed writes leave the device unchanged. */
  predicate Untorn(e: Event) { FaultsOf(e).Some? ==> FaultsOf(e).value.torn == None }

  lemma StepKeepsWritten(s: Sys, e: Event)
    requires s.written.Some? && Untorn(e)
    ensures Step(s, e).written.Some?
  {
    match e
    case CallAdjfine(ppm, f) =>
    case CallAdjtime(delta, f) =>
    case WorkerRuns(f) =>
    case _ =>
  }

  lemma {:induction false} StaysWritten(states: seq<Sys>, events: seq<Event>, n: nat)
    requires IsRun(states, events) && n < |states| && states[0].written.Some?
    requires forall e | e in events :: Untorn(e)
    ensures states[n].written.Some?
  {
    if n > 0 {
      StaysWritten(states, events, n - 1);
      StepKeepsWritten(states[n - 1], events[n - 1]);
    }
  }

  /** On such a bus the frequency register follows the driver from the first successful
      frequency write on, whatever fails afterwards. */
  lemma FollowsFromFirstWrite(states: seq<Sys>, events: seq<Event>, n: nat)
    requires IsRun(states, events) && n < |states| && Safe(states[0]) && states[0].written.Some?
    requires forall e | e in events :: Accepted(e) && Untorn(e)
    ensures Safe(states[n]) && states[n].written.Some?
    ensures !states[n].phc.pullIn ==>
              states[n].phc.regs.freq == FrequencyWord.Encode(FrequencyWord.ClockMatrix, states[n].phc.current)
  {
    EveryRunIsSafe(states, events, n);
    StaysWritten(states, events, n);
  }

  /** A successful adjfine outside a pull-in leaves the hardware writing frequencies, with the
      word in the register; a successful adjphase leaves it writing phases, with the clamped
      phase in the register. A change of the mode field sets the two timers first. */
  lemma CallsEnterTheirMode(c: Phc, x: int, f: Faults)
    requires Coherent(c)
    ensures !c.pullIn && Adjfine(c, x, f).1 == 0 ==>
              var r := Adjfine(c, x, f).0.regs;
              && r.freq == FrequencyWord.Encode(FrequencyWord.ClockMatrix, x)
              && (c.variant.PllMode? && c.mode != WriteFrequency ==> r.wfTimer == 0 && r.wpTimer == 0)
              && (if c.variant.PllMode? then GetField(r.dpllMode, 8, 8) == 2 else GetField(r.manuRef, 1, 32) == 17)
    ensures Adjphase(c, x, f).1 == 0 ==>
              var r := Adjphase(c, x, f).0.regs;
              && SignExtend(LeValue(r.phase), TWO_32) == Clamp(20 * x, 0x7FFF_FFFF)
              && (c.variant.PllMode? && c.mode != WritePhase ==> r.wfTimer == 0 && r.wpTimer == 160)
              && (if c.variant.PllMode? then GetField(r.dpllMode, 8, 8) == 1 else GetField(r.manuRef, 1, 32) == 16)
  {
    ConfigureCoherent(c, WriteFrequency, f);
    ConfigureCoherent(c, WritePhase, f);
    PhaseWord.ClockMatrixPhaseExact(x);
  }

  /** During a pull-in, and only then, adjtime is busy and adjfine reports success without
      effect whatever the bus does. */
  lemma PullInExcludes(c: Phc, x: int, f: Faults)
    ensures c.pullIn <==> (forall g :: Adjtime(c, x, g) == (c, EBUSY)) && (forall g, y :: Adjfine(c, y, g) == (c, 0))
  {
    if !c.pullIn && c.mode == WriteFrequency {
      var g := f.(data := 1);
      assert Adjfine(c, 0, g).1 == 1;
    } else if !c.pullIn {
      var g := f.(wfTimer := 1, modeRead := 1);
      assert Adjfine(c, 0, g).1 == 1;
    }
  }

  /** A software pull-in programs a frequency, and schedules its end so that the step asked for
      and the delay together make up the phase. The programmed frequency is the current one plus
      that step exactly when the sum is within 144000 ppb, and the delay is the true one exactly
      when it fits 32 bits; adjtime asks for less than 15 us, which always fits. */
  lemma PullInDelivers(c: Phc, deltaNs: int, f: Faults)
    requires -TWO_31 <= deltaNs < TWO_31 && !TooSmall(deltaNs) && !WriteFails(c, f)
    ensures var (c1, err) := PullInSw(c, deltaNs, f);
            var limit := PullInLimit(c.maxAdj);
            var step := PullIn.Scaled(PullIn.Offset(deltaNs, limit));
            && err == 0 && c1.pullIn && c1.queued
            && c1.regs.freq == FrequencyWord.Encode(FrequencyWord.ClockMatrix, PullInFrequency(c, deltaNs))
            && (PullInFrequency(c, deltaNs) == c.current + step <==>
                  Abs(c.current + step) <= PullIn.Scaled(PULL_IN_MAX_PPB))
            && (Abs(deltaNs) < (limit + 1) * 0x40_0000 ==>
                  c1.delayMs > 0 && Abs(8192 * deltaNs * 1000 - 125 * step * c1.delayMs) < 8317 * c1.delayMs)
            && (Abs(deltaNs) < PULL_IN_THRESHOLD_NS ==> Abs(deltaNs) < (limit + 1) * 0x40_0000)
  {
    var limit := PullInLimit(c.maxAdj);
    var k := PullIn.Halvings(deltaNs, limit);
    var ppb := PullIn.Offset(deltaNs, limit);
    WriteFailsExactly(c, PullInFrequency(c, deltaNs), f);
    PullIn.ShiftExact(c.current, ppb, PULL_IN_MAX_PPB);
    PullIn.DurationExact(deltaNs, limit);
    PullIn.PullInDeliversPhase(deltaNs, limit);
    PullIn.InMilliseconds(deltaNs, PullIn.Scaled(ppb), Pow2(k));
    if Abs(deltaNs) < (limit + 1) * 0x40_0000 {
      DivModUnique(1000 * Pow2(k), TWO_32, 0, 1000 * Pow2(k));
    }
  }

  /** It moves the frequency the way that was asked for exactly when the current frequency is
      short of 144000 ppb on that side, and the wrong way exactly when it is past that. */
  lemma PullInDirection(c: Phc, deltaNs: int)
    requires -TWO_31 <= c.current + PullIn.Scaled(PullIn.Offset(deltaNs, PullInLimit(c.maxAdj))) < TWO_31
    ensures deltaNs > 0 ==> (PullInFrequency(c, deltaNs) > c.current <==> c.current < PullIn.Scaled(PULL_IN_MAX_PPB))
    ensures deltaNs < 0 ==> (PullInFrequency(c, deltaNs) < c.current <==> c.current > -PullIn.Scaled(PULL_IN_MAX_PPB))
    ensures deltaNs > 0 ==> (PullInFrequency(c, deltaNs) < c.current <==> c.current > PullIn.Scaled(PULL_IN_MAX_PPB))
    ensures deltaNs < 0 ==> (PullInFrequency(c, deltaNs) > c.current <==> c.current < -PullIn.Scaled(PULL_IN_MAX_PPB))
  {
    var ppb := PullIn.Offset(deltaNs, PullInLimit(c.maxAdj));
    PullIn.OffsetSign(deltaNs, PullInLimit(c.maxAdj));
    PullIn.ShiftExact(c.current, ppb, PULL_IN_MAX_PPB);
    PullIn.ShiftDirection(c.current, ppb, PULL_IN_MAX_PPB);
  }

  /** A step of the clock that does not fail carries its 64-bit amount exactly. */
  lemma StepsCarryDelta(c: Phc, delta: int, f: Faults)
    requires -TWO_63 < delta < TWO_63 && Abs(delta) >= PULL_IN_THRESHOLD_NS
    requires !c.pullIn && Adjtime(c, delta, f).1 == 0
    ensures var r := Adjtime(c, delta, f).0.regs;
            |r.tod| == 11 && Denotes(r.todType, Decode(Layout.ClockMatrix, r.tod)) == delta
  {
    DeltaCarriedExactly(delta);
    assert Abs64(delta) == Abs(delta);
    var (t, ts) := DeltaWrite(delta);
    assert AdjtimeBody(c, delta, f) == Settime(c, t, ts, f);
  }

  /** The accesses of a pull-in by the device: which have taken effect when it succeeds. */
  lemma PullInFwSucceeds(c: Phc, deltaNs: int, f: Faults)
    ensures var (c1, err) := PullInFw(c, deltaNs, f);
            && (err == 0 <==> f.data == f.slope == f.ctrlRead == f.ctrlWrite == 0 && c.regs.pullCtrl == 0)
            && (err == 0 ==>
                  && c1.regs.pullOffset == LeBytes(S32(-deltaNs), 4) && c1.regs.pullCtrl == 1
                  && c1.regs.pullSlope == LeBytes(if c.maxAdj < 0x100_0000 then c.maxAdj else 0, 3))
  {
  }

  lemma OffsetDecodes(ns: int)
    requires -TWO_31 <= ns < TWO_31
    ensures SignExtend(LeValue(LeBytes(ns, 4)), TWO_32) == ns
  {
    LeSignedRoundTrip(ns, 4);
    assert Pow256(4) == TWO_32;
  }

  lemma SlopeDecodes(ppb: nat)
    requires ppb < 0x100_0000
    ensures LeValue(LeBytes(ppb, 3)) == ppb
  {
    LeRoundTrip(ppb, 3);
    assert Pow256(3) == 0x100_0000;
    DivModUnique(ppb, 0x100_0000, 0, ppb);
  }

  /** Main result: a pull-in by the device gets the phase asked for, with the sign turned, in
      nanoseconds, and the largest slope the channel allows if that fits 24 bits; it is started
      exactly when no access fails and no other one is running. Nothing else changes. */
  lemma DevicePullInExact(c: Phc, delta: int, f: Faults)
    requires !c.pullIn && c.variant.PllMode? && Abs(delta) < PULL_IN_THRESHOLD_NS
    ensures var (c1, err) := Adjtime(c, delta, f);
            var r := c1.regs;
            && (err == 0 <==> f.data == f.slope == f.ctrlRead == f.ctrlWrite == 0 && c.regs.pullCtrl == 0)
            && (err == 0 ==>
                  && |r.pullOffset| == 4 && SignExtend(LeValue(r.pullOffset), TWO_32) == -delta
                  && |r.pullSlope| == 3 && LeValue(r.pullSlope) == (if c.maxAdj < 0x100_0000 then c.maxAdj else 0)
                  && r.pullCtrl == 1)
            && c1 == c.(regs := c.regs.(pullOffset := r.pullOffset, pullSlope := r.pullSlope, pullCtrl := r.pullCtrl))
  {
    assert Adjtime(c, delta, f) == PullInFw(c, delta, f);
    PullInFwKeeps(c, delta, f);
    PullInFwSucceeds(c, delta, f);
    OffsetDecodes(-delta);
    SlopeDecodes(if c.maxAdj < 0x100_0000 then c.maxAdj else 0);
  }

  /** Which adjtime pulls in by software: every one of at least 2 ns and below 15 us. */
  lemma PullsExactly(c: Phc, delta: int)
    requires -TWO_63 < delta < TWO_63
    ensures Pulls(c, delta) <==> !c.pullIn && c.variant.ManualReference? && 2 <= Abs(delta) < 15000
    ensures !c.pullIn && c.variant.ManualReference? && Abs(delta) < 2 ==> forall f :: Adjtime(c, delta, f) == (c, 0)
  {
    assert Abs64(delta) == Abs(delta);
  }

  /** The limit of a pull-in is the largest offset that neither the driver nor the channel forbids;
      a channel that allows 0 forbids nothing. */
  lemma LimitIsLargestAllowed(maxAdj: nat, l: nat)
    ensures 1 <= l <= 144000 && (maxAdj == 0 || l <= maxAdj) ==> l <= PullInLimit(maxAdj)
    ensures PullInLimit(maxAdj) <= 144000 && (maxAdj == 0 || PullInLimit(maxAdj) <= maxAdj)
  {
  }

  /** A step of the clock reports an error exactly when one of its accesses or the handshake fails. */
  lemma StepFailsExactly(c: Phc, delta: int, f: Faults)
    requires -TWO_63 < delta < TWO_63 && Abs(delta) >= PULL_IN_THRESHOLD_NS && !c.pullIn
    ensures Adjtime(c, delta, f).1 == 0 <==> f.data == f.modeRead == f.ctrlWrite == f.ctrlRead == 0
  {
    assert Abs64(delta) == Abs(delta);
  }

  /** The most negative amount never reaches the time of day: its 64-bit absolute value is
      negative, so it counts as a small correction, of no nanoseconds at all. A pull-in by
      software drops it and reports success; a pull-in by the device is started with offset 0,
      and is on afterwards, exactly when no access fails and no other one is running. */
  lemma MostNegativeStepIsLost(c: Phc, f: Faults)
    requires !c.pullIn
    ensures var (c1, err) := Adjtime(c, -TWO_63, f);
            && c1.regs.tod == c.regs.tod && c1.regs.todType == c.regs.todType
            && (c.variant.ManualReference? ==> c1 == c && err == 0)
            && (c.variant.PllMode? ==>
                  (err == 0 <==> f.data == f.slope == f.ctrlRead == f.ctrlWrite == 0 && c.regs.pullCtrl == 0))
            && (c.variant.PllMode? && err == 0 ==> c1.regs.pullCtrl == 1 && c1.regs.pullOffset == [0, 0, 0, 0])
  {
    assert Abs64(-TWO_63) == -TWO_63 && S32(-TWO_63) == 0;
    assert LeBytes(0, 2) == [0, 0];
    assert LeBytes(0, 4) == [0] + ([0] + LeBytes(0, 2));
  }
}
