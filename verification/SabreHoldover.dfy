/** Holdover in the 82P33 misc driver (rsmu_sabre.c). Enabling saves the operating mode and
    forces holdover; disabling writes the saved mode back. The operating-mode register is the
    one the PHC driver caches. One DPLL is modelled, with its saved mode. */
module SabreHoldover {
  import opened CInt
  import SabrePhc
  import opened Options

  const EINVAL := -22
  const AUTOMATIC := 0
  const FORCE_HOLDOVER := 2
  const DCO := 10
  const WPH := 18

  /** `prev` is the driver's static copy of the operating-mode register, initially 0xff. */
  datatype Dpll = Dpll(modeReg: int, msbReg: int, prev: int)

  datatype Faults = Faults(modeRead: int, modeWrite: int, msbRead: int, msbWrite: int)

  const NO_FAULTS := Faults(0, 0, 0, 0)

  function OperatingMode(reg: int): int { GetField(reg, 1, 32) }

  function SetOperatingMode(d: Dpll, mode: nat, save: bool, f: Faults): (Dpll, int) {
    if f.modeRead != 0 then (d, f.modeRead) else
      var d1 := if save then d.(prev := d.modeReg) else d;
      if f.modeWrite != 0 then (d1, f.modeWrite) else (d1.(modeReg := SetField(d.modeReg, 1, 32, mode)), 0)
  }

  /** Bit 7 selects manual holdover. */
  function SetManual(d: Dpll, mode: nat, f: Faults): (Dpll, int) {
    if f.msbRead != 0 then (d, f.msbRead)
    else if f.msbWrite != 0 then (d, f.msbWrite)
    else (d.(msbReg := SetField(d.msbReg, 128, 2, mode)), 0)
  }

  function SetHoldover(d: Dpll, enable: bool, mode: nat, f: Faults): (Dpll, int) {
    if mode > 1 then (d, EINVAL)
    else if enable then
      var (d1, err) := SetManual(d, mode, f);
      if err != 0 then (d1, err) else SetOperatingMode(d1, FORCE_HOLDOVER, true, f)
    else
      var prev := OperatingMode(d.prev);
      if prev == DCO then
        var (d1, err) := SetOperatingMode(d, DCO, false, f);
        if err != 0 then (d1, err) else SetManual(d1, 1, f)
      else if prev == WPH then SetOperatingMode(d, WPH, false, f)
      else if prev == AUTOMATIC then SetOperatingMode(d, AUTOMATIC, false, f)
      else (d, EINVAL)
  }

  class Driver {
    var modeReg: int
    var msbReg: int
    var prev: int

    ghost function State(): Dpll reads this { Dpll(modeReg, msbReg, prev) }

    constructor (modeReg: int, msbReg: int)
      ensures State() == Dpll(modeReg, msbReg, 0xff)
    {
      this.modeReg, this.msbReg, prev := modeReg, msbReg, 0xff;
    }

    method RmwMode(mode: nat, save: bool, f: Faults) returns (err: int)
      modifies this
      ensures (State(), err) == SetOperatingMode(old(State()), mode, save, f)
    {
      if f.modeRead != 0 { return f.modeRead; }
      var tmp := modeReg;
      if save {
        prev := tmp;
      }
      tmp := SetField(tmp, 1, 32, mode);
      if f.modeWrite != 0 { return f.modeWrite; }
      modeReg := tmp;
      err := 0;
    }

    method RmwManual(mode: nat, f: Faults) returns (err: int)
      modifies this
      ensures (State(), err) == SetManual(old(State()), mode, f)
    {
      if f.msbRead != 0 { return f.msbRead; }
      var tmp := SetField(msbReg, 128, 2, mode);
      if f.msbWrite != 0 { return f.msbWrite; }
      msbReg := tmp;
      err := 0;
    }

    method SetHoldoverMode(enable: bool, mode: nat, f: Faults) returns (err: int)
      modifies this
      ensures (State(), err) == SetHoldover(old(State()), enable, mode, f)
    {
      if mode > 1 { return EINVAL; }
      err := EINVAL;
      if enable {
        err := RmwManual(mode, f);
        if err != 0 { return; }
        err := RmwMode(FORCE_HOLDOVER, true, f);
      } else {
        var prevMode := OperatingMode(prev);
        if prevMode == DCO {
          err := RmwMode(DCO, false, f);
          if err != 0 { return; }
          err := RmwManual(1, f);
        } else if prevMode == WPH {
          err := RmwMode(WPH, false, f);
        } else if prevMode == AUTOMATIC {
          err := RmwMode(AUTOMATIC, false, f);
        }
      }
    }
  }

  /** DCO, write-phase and automatic mode. */
  predicate Restorable(mode: int) { mode == 10 || mode == 18 || mode == 0 }

  lemma ModeField(reg: int, mode: nat)
    requires mode < 32
    ensures OperatingMode(SetField(reg, 1, 32, mode)) == mode
    ensures SetField(SetField(reg, 1, 32, mode), 1, 32, OperatingMode(reg)) == reg
  {
    SetFieldSplits(reg, 1, 32, mode);
  }

  /** Enabling and then disabling holdover on a working bus, from any mode: disabling succeeds
      exactly when the mode was one that the driver knows how to restore, and then the register
      is as before. A register already in forced holdover is not restorable, but stays as it
      is; from every other mode a refused disable leaves the device in holdover. */
  lemma HoldoverRoundTrip(d: Dpll, mode: nat, mode': nat)
    requires mode <= 1 && mode' <= 1
    ensures var (d1, err1) := SetHoldover(d, true, mode, NO_FAULTS);
            var (d2, err2) := SetHoldover(d1, false, mode', NO_FAULTS);
            var was := OperatingMode(d.modeReg);
            && err1 == 0 && OperatingMode(d1.modeReg) == 2
            && (err2 == 0 <==> Restorable(was))
            && (d2.modeReg == d.modeReg <==> Restorable(was) || was == 2)
            && (OperatingMode(d2.modeReg) == 2 <==> !Restorable(was))
  {
    ModeField(d.modeReg, FORCE_HOLDOVER);
  }

  /** Bit 7 of the holdover register: enabling sets it to the mode asked for, disabling from DCO
      mode sets it, and nothing else changes the register. */
  lemma ManualBit(d: Dpll, enable: bool, mode: nat)
    requires mode <= 1
    ensures var (d1, err) := SetHoldover(d, enable, mode, NO_FAULTS);
            && (enable ==> d1.msbReg / 128 % 2 == mode)
            && (!enable && OperatingMode(d.prev) == 10 ==> d1.msbReg / 128 % 2 == 1)
            && (!enable && OperatingMode(d.prev) != 10 ==> d1.msbReg == d.msbReg)
            && d1.msbReg % 128 == d.msbReg % 128 && d1.msbReg / 128 / 2 == d.msbReg / 128 / 2
  {
    SetFieldSplits(d.msbReg, 128, 2, mode);
    SetFieldSplits(d.msbReg, 128, 2, 1);
  }

  /** Holdover is on and holdover is what would be restored. */
  ghost predicate Stuck(d: Dpll) {
    OperatingMode(d.modeReg) == FORCE_HOLDOVER && OperatingMode(d.prev) == FORCE_HOLDOVER
  }

  /** The mode register is read by an enabling call, and so saved, unless the call fails before. */
  predicate SavesMode(enable: bool, mode: nat, f: Faults) {
    enable && mode <= 1 && f.msbRead == 0 && f.msbWrite == 0 && f.modeRead == 0
  }

  /** A call ends stuck exactly when the device was in forced holdover before and the saved mode
      was holdover already or is saved now: a successful enable sticks exactly when holdover was
      already on. */
  lemma SticksExactly(d: Dpll, enable: bool, mode: nat, f: Faults)
    ensures var (d1, err) := SetHoldover(d, enable, mode, f);
            && (Stuck(d1) <==>
                  OperatingMode(d.modeReg) == FORCE_HOLDOVER
                  && (OperatingMode(d.prev) == FORCE_HOLDOVER || SavesMode(enable, mode, f))
                  && (!enable ==> !Restorable(OperatingMode(d.prev))))
            && (enable && err == 0 ==> (Stuck(d1) <==> OperatingMode(d.modeReg) == FORCE_HOLDOVER))
  {
    ModeField(d.modeReg, FORCE_HOLDOVER);
    ModeField(d.modeReg, DCO);
    ModeField(d.modeReg, WPH);
    ModeField(d.modeReg, AUTOMATIC);
  }

  /** So two enables in a row always stick. */
  lemma EnablingTwiceSticks(d: Dpll, mode: nat, f: Faults, g: Faults)
    ensures var (d1, err1) := SetHoldover(d, true, mode, f);
            var (d2, err2) := SetHoldover(d1, true, mode, g);
            err1 == 0 == err2 ==> Stuck(d2)
  {
    ModeField(d.modeReg, FORCE_HOLDOVER);
    SticksExactly(SetHoldover(d, true, mode, f).0, true, mode, g);
  }

  // ---- Runs that mix holdover calls with mode requests of the PHC ----

  /** The PHC's channel, whose mode register both drivers write, and the rest of the misc driver. */
  datatype Sys = Sys(chan: SabrePhc.Chan, msbReg: int, prev: int) {
    function Holding(): Dpll { Dpll(chan.modeReg, msbReg, prev) }
  }

  /** A holdover call, or the mode change that starts a frequency or phase write of the PHC. */
  datatype Call = Holdover(enable: bool, mode: nat, f: Faults) | Request(asked: nat, g: SabrePhc.Faults)

  predicate Valid(c: Call) { c.Request? ==> c.asked == SabrePhc.DCO || c.asked == SabrePhc.WPH }

  function Step(s: Sys, c: Call): Sys {
    match c
    case Holdover(enable, mode, f) =>
      var d := SetHoldover(s.Holding(), enable, mode, f).0;
      Sys(s.chan.(modeReg := d.modeReg), d.msbReg, d.prev)
    case Request(asked, g) => s.(chan := SabrePhc.SetMode(s.chan, asked, g).0)
  }

  /** A request for another mode than the cached one, on a bus that carries it out. */
  predicate Frees(cached: nat, c: Call) { c.Request? && c.asked != cached && c.g.modeRead == 0 == c.g.modeWrite }

  /** One call: holdover that is stuck stays so exactly unless the PHC sets another mode. */
  lemma StuckStep(s: Sys, c: Call)
    requires Stuck(s.Holding()) && Valid(c)
    ensures Stuck(Step(s, c).Holding()) <==> !Frees(s.chan.pllMode, c)
    ensures !Frees(s.chan.pllMode, c) ==> Step(s, c).chan.pllMode == s.chan.pllMode
    ensures c.Holdover? && !c.enable ==> SetHoldover(s.Holding(), false, c.mode, c.f) == (s.Holding(), EINVAL)
  {
    match c
    case Holdover(enable, mode, f) =>
      ModeField(s.chan.modeReg, FORCE_HOLDOVER);
    case Request(asked, g) =>
      ModeField(s.chan.modeReg, asked);
  }

  ghost predicate IsRun(states: seq<Sys>, calls: seq<Call>) {
    && |states| == |calls| + 1
    && forall i | 0 <= i < |calls| :: Valid(calls[i]) && states[i + 1] == Step(states[i], calls[i])
  }

  ghost predicate StuckUpTo(states: seq<Sys>, n: nat)
    requires n < |states|
  {
    forall i | 0 <= i <= n :: Stuck(states[i].Holding())
  }

  ghost predicate NoneFrees(cached: nat, calls: seq<Call>, n: nat)
    requires n <= |calls|
  {
    forall i | 0 <= i < n :: !Frees(cached, calls[i])
  }

  /** Over every run, failing or not: holdover that is stuck stays stuck up to a point exactly when
      no call before it frees the device. */
  lemma {:induction false} StuckUntilFreed(states: seq<Sys>, calls: seq<Call>, n: nat)
    requires IsRun(states, calls) && n < |states| && Stuck(states[0].Holding())
    ensures StuckUpTo(states, n) <==> NoneFrees(states[0].chan.pllMode, calls, n)
    ensures StuckUpTo(states, n) ==> states[n].chan.pllMode == states[0].chan.pllMode
  {
    if n > 0 {
      var cached, s, c := states[0].chan.pllMode, states[n - 1], calls[n - 1];
      StuckUntilFreed(states, calls, n - 1);
      assert states[n - 1 + 1] == Step(s, c) && Valid(c);
      assert StuckUpTo(states, n) <==> StuckUpTo(states, n - 1) && Stuck(states[n].Holding());
      assert NoneFrees(cached, calls, n) <==> NoneFrees(cached, calls, n - 1) && !Frees(cached, c);
      if StuckUpTo(states, n - 1) {
        assert Stuck(s.Holding()) && s.chan.pllMode == cached;
        StuckStep(s, c);
      }
    }
  }

  /** Holdover calls alone never end it, and every request to disable it is refused. */
  lemma StuckForEver(states: seq<Sys>, calls: seq<Call>, n: nat)
    requires IsRun(states, calls) && n < |states| && Stuck(states[0].Holding())
    requires forall c | c in calls :: c.Holdover?
    ensures Stuck(states[n].Holding())
    ensures forall mode, f :: SetHoldover(states[n].Holding(), false, mode, f) == (states[n].Holding(), EINVAL)
  {
    forall i | 0 <= i < n ensures !Frees(states[0].chan.pllMode, calls[i]) {
      assert calls[i] in calls;
    }
    StuckUntilFreed(states, calls, n);
    assert Stuck(states[n].Holding());
  }

  // ---- Against the PHC's cached mode ----

  /** A frequency write that succeeds leaves the device in DCO mode exactly when it was there or
      the cached mode made the PHC set it: holdover forced behind a cache that says DCO stays on
      although the write reports success. */
  lemma HoldoverHidesFromPhc(c: SabrePhc.Chan, scaledPpm: int, f: SabrePhc.Faults)
    requires !SabrePhc.WriteFails(c, f)
    ensures var (c1, err) := SabrePhc.WriteFrequency(c, scaledPpm, f);
            && err == 0
            && (OperatingMode(c1.modeReg) == DCO <==> c.pllMode != DCO || OperatingMode(c.modeReg) == DCO)
            && (OperatingMode(c1.modeReg) == FORCE_HOLDOVER <==>
                  c.pllMode == DCO && OperatingMode(c.modeReg) == FORCE_HOLDOVER)
  {
    ModeField(c.modeReg, DCO);
  }

  /** Enable holdover, let the PHC ask for a mode, disable holdover: the PHC's cached mode is
      the device's again exactly when the mode asked for is the one from before. */
  lemma HoldoverKeepsPhcCoherent(c: SabrePhc.Chan, msbReg: int, prev: int, asked: nat)
    requires SabrePhc.ModeCoherent(c) && c.pllMode != 0
    requires asked == SabrePhc.DCO || asked == SabrePhc.WPH
    ensures var (d1, err1) := SetHoldover(Dpll(c.modeReg, msbReg, prev), true, 1, NO_FAULTS);
            var (c1, err2) := SabrePhc.SetMode(c.(modeReg := d1.modeReg), asked, SabrePhc.Faults(0, 0, 0, None));
            var (d2, err3) := SetHoldover(d1.(modeReg := c1.modeReg), false, 1, NO_FAULTS);
            && err1 == 0 == err2 && err3 == 0
            && (SabrePhc.ModeCoherent(c1.(modeReg := d2.modeReg)) <==> asked == c.pllMode)
  {
    ModeField(c.modeReg, FORCE_HOLDOVER);
    ModeField(SetField(c.modeReg, 1, 32, FORCE_HOLDOVER), asked);
    ModeField(SetField(c.modeReg, 1, 32, FORCE_HOLDOVER), c.pllMode);
    ModeField(SetField(SetField(c.modeReg, 1, 32, FORCE_HOLDOVER), 1, 32, asked), c.pllMode);
  }
}
