/** Stepping the Sabre's clock at an internal second (ptp_idt82p33.c): read the clock, compute
    the time of the next second plus the step, store it, and arm the write so that the device
    loads it at that second. Times are nanoseconds of the device's own clock. */
module TodTrigger {
  import opened CInt
  import opened Options
  import opened TimeOfDay

  const DELAY_NS := 32
  const LATE_NS := 995_000_000
  const PPS_TRIGGER := 5
  const READ_LSB_TRIGGER := 9
  const MAX_TRIGGER := 9
  const EINVAL := -22

  /** The driver's guess of the second at which the load happens: one second on, or two when
      the next one is less than 5 ms away (it then waits 6 ms before it arms). */
  function Late(ts: Timespec): bool { ts.nsec > LATE_NS }

  function LoadValue(ts: Timespec, delta: int): int { S64(Target(ts, delta)) }

  /** The first second after the trigger is armed. */
  function Edge(armed: int): int { (armed / NSEC_PER_SEC + 1) * NSEC_PER_SEC }

  /** The time the driver means to load, before it is cut to 64 bits. */
  function Target(ts: Timespec, delta: int): int {
    (ts.sec + (if Late(ts) then 2 else 1)) * NSEC_PER_SEC + delta + DELAY_NS
  }

  /** 10^9 is 2^9 times an odd number, so few whole seconds are a multiple of 2^64 ns. */
  lemma SecondsAgainstWords(k: int, m: int)
    requires k * NSEC_PER_SEC == m * TWO_64 && Abs(k) < 0x80_0000_0000_0000
    ensures k == 0
  {
    var unit := 0x80_0000_0000_0000;
    assert k * 1953125 == m * unit;
    var x := k * (-1095668) + m * 20211507185753197;
    assert k == unit * x;
    MultipleGap(x, unit);
  }

  lemma S64Residue(t: int) returns (m: int)
    ensures S64(t) == t - m * TWO_64
  {
    m := (t + TWO_63) / TWO_64;
    assert t + TWO_63 == m * TWO_64 + (t + TWO_63) % TWO_64;
  }

  /** What the device finds in the stored bytes: times before the epoch appear 2^48 s later. */
  lemma StoredTime(v: int)
    requires -TWO_63 <= v < TWO_63
    ensures ToNs(Decode(Layout.Sabre, Encode(Layout.Sabre, NsToTimespec(v)))) ==
            if v >= 0 then v else v + 0x1_0000_0000_0000 * NSEC_PER_SEC
  {
    SplitNs(v);
    var ts := NsToTimespec(v);
    DecodeEncode(Layout.Sabre, ts);
    S32Fixed(ts.nsec);
    if v >= 0 {
      DivModUnique(ts.sec, 0x1_0000_0000_0000, 0, ts.sec);
    } else {
      DivModUnique(ts.sec, 0x1_0000_0000_0000, -1, ts.sec + 0x1_0000_0000_0000);
    }
  }

  /** A stored time that is off by whole seconds, by wrapping or by both is never right by
      accident. */
  lemma NeverRightByAccident(t: int, v: int, m: int, e: int, stored: int)
    requires v == t - m * TWO_64 && -TWO_63 <= v < TWO_63 && -1 <= e < 0x1_0000_0000_0000
    requires stored == if v >= 0 then v else v + 0x1_0000_0000_0000 * NSEC_PER_SEC
    ensures stored == t + e * NSEC_PER_SEC <==> e == 0 && 0 <= t < TWO_63
  {
    if stored == t + e * NSEC_PER_SEC {
      if v >= 0 {
        SecondsAgainstWords(-e, m);
      } else {
        SecondsAgainstWords(0x1_0000_0000_0000 - e, m);
      }
    } else if 0 <= t < TWO_63 {
      assert m == 0;
    }
  }

  lemma ElapsedSeconds(ts: Timespec, latency: nat)
    requires 0 <= ts.nsec < NSEC_PER_SEC && latency < 0xFFFF_FFFF_FFFF * NSEC_PER_SEC
    ensures ts.sec <= (ToNs(ts) + latency) / NSEC_PER_SEC < ts.sec + 0x1_0000_0000_0000
  {
  }

  /** Main result: armed `latency` ns after the reading, the bytes that the device loads at the
      next second are the time of that second plus the step plus the 32 ns the load takes,
      exactly when the arming falls into the second that the driver guessed and the target time
      is neither before the epoch nor beyond 64 bits. The latency is below the 2^48 - 1 seconds
      that the device can count. */
  lemma StepExactWhenGuessRight(ts: Timespec, delta: int, latency: nat)
    requires 0 <= ts.nsec < NSEC_PER_SEC && latency < 0xFFFF_FFFF_FFFF * NSEC_PER_SEC
    ensures ToNs(Decode(Layout.Sabre, Encode(Layout.Sabre, NsToTimespec(LoadValue(ts, delta)))))
              == Edge(ToNs(ts) + latency) + delta + DELAY_NS
      <==> (ToNs(ts) + latency) / NSEC_PER_SEC == ts.sec + (if Late(ts) then 1 else 0)
           && 0 <= Target(ts, delta) < TWO_63
  {
    var t, v := Target(ts, delta), LoadValue(ts, delta);
    var armed := (ToNs(ts) + latency) / NSEC_PER_SEC;
    var e := armed - (ts.sec + (if Late(ts) then 1 else 0));
    ElapsedSeconds(ts, latency);
    StoredTime(v);
    var m := S64Residue(t);
    NeverRightByAccident(t, v, m, e, ToNs(Decode(Layout.Sabre, Encode(Layout.Sabre, NsToTimespec(v)))));
    assert Edge(ToNs(ts) + latency) == (armed + 1) * NSEC_PER_SEC;
  }

  /** The guess is right when arming takes less than 5 ms, and, after the wait of 6 ms, when it
      takes less than 994 ms more. */
  lemma GuessRight(ts: Timespec, latency: nat)
    requires 0 <= ts.nsec < NSEC_PER_SEC
    requires if Late(ts) then 6_000_000 <= latency < 1_000_000_000 else latency < 5_000_000
    ensures (ToNs(ts) + latency) / NSEC_PER_SEC == ts.sec + (if Late(ts) then 1 else 0)
  {
    var k := if Late(ts) then 1 else 0;
    DivModUnique(ToNs(ts) + latency, NSEC_PER_SEC, ts.sec + k, ts.nsec + latency - k * NSEC_PER_SEC);
  }

  // ---- The calls ----

  /** TOD_CNFG, the trigger register (read trigger in bits 0-3, write trigger in bits 4-7), and
      whether the alignment workaround is scheduled. */
  datatype Chan = Chan(todCnfg: seq<byte>, trigger: int, scheduled: bool)

  /** Error codes of the accesses of one call, in their order; `torn` is what a failed store
      leaves in TOD_CNFG, None if it leaves the register alone. */
  datatype Faults = Faults(selectRead: int, selectWrite: int, timeRead: int, store: int, torn: Option<seq<byte>>,
                           armRead: int, armWrite: int)

  function SetTrigger(c: Chan, value: nat, write: bool, readErr: int, writeErr: int): (Chan, int) {
    if value > MAX_TRIGGER then (c, EINVAL)
    else if readErr != 0 then (c, readErr)
    else if writeErr != 0 then (c, writeErr)
    else (c.(trigger := if write then SetField(c.trigger, 16, 16, value) else SetField(c.trigger, 1, 16, value)), 0)
  }

  /** Reading the clock selects the read trigger first. */
  function Gettime(c: Chan, f: Faults): (Chan, int) {
    var (c1, err) := SetTrigger(c, READ_LSB_TRIGGER, false, f.selectRead, f.selectWrite);
    if err != 0 then (c1, err) else (c1, f.timeRead)
  }

  /** `ts` is what the clock reads. */
  function AdjtimeTriggered(c: Chan, ts: Timespec, delta: int, f: Faults): (Chan, int) {
    var (c1, err) := Gettime(c, f);
    if err != 0 then (c1, err)
    else if f.store != 0 then (c1.(todCnfg := f.torn.UnwrapOr(c1.todCnfg)), f.store)
    else
      var c2 := c1.(todCnfg := Encode(Layout.Sabre, NsToTimespec(LoadValue(ts, delta))),
                    scheduled := c1.scheduled || delta % NSEC_PER_SEC != 0);
      SetTrigger(c2, PPS_TRIGGER, true, f.armRead, f.armWrite)
  }

  predicate CallFails(f: Faults) {
    f.selectRead != 0 || f.selectWrite != 0 || f.timeRead != 0 || f.store != 0 || f.armRead != 0 || f.armWrite != 0
  }

  /** The trigger register takes the values up to 9 and refuses others without an access. */
  lemma SetTriggerFails(c: Chan, value: nat, write: bool, readErr: int, writeErr: int)
    ensures var (c1, err) := SetTrigger(c, value, write, readErr, writeErr);
            && (err == 0 <==> value <= 9 && readErr == 0 == writeErr)
            && (value > 9 ==> err == -22) && (err != 0 ==> c1 == c)
  {
  }

  lemma CallFailsExactly(c: Chan, ts: Timespec, delta: int, f: Faults)
    ensures AdjtimeTriggered(c, ts, delta, f).1 != 0 <==> CallFails(f)
  {
  }

  class Channel {
    var todCnfg: seq<byte>
    var trigger: int
    var scheduled: bool

    ghost function State(): Chan reads this { Chan(todCnfg, trigger, scheduled) }

    constructor (todCnfg: seq<byte>, trigger: int)
      ensures State() == Chan(todCnfg, trigger, false)
    {
      this.todCnfg, this.trigger, scheduled := todCnfg, trigger, false;
    }

    method SetTodTrigger(value: nat, write: bool, readErr: int, writeErr: int) returns (err: int)
      modifies this`trigger
      ensures (State(), err) == SetTrigger(old(State()), value, write, readErr, writeErr)
    {
      if value > MAX_TRIGGER { return EINVAL; }
      if readErr != 0 { return readErr; }
      var cfg := if write then SetField(trigger, 16, 16, value) else SetField(trigger, 1, 16, value);
      if writeErr != 0 { return writeErr; }
      trigger := cfg;
      err := 0;
    }

    /** The bulk write of the ten bytes. */
    method StoreTod(ts: Timespec, f: Faults) returns (err: int)
      modifies this`todCnfg
      ensures err == f.store
      ensures todCnfg == if err == 0 then Encode(Layout.Sabre, ts) else f.torn.UnwrapOr(old(todCnfg))
    {
      var buf := new byte[10];
      err := TimespecToBytes(Layout.Sabre, ts, buf);
      assert buf[..10] == buf[..];
      err := f.store;
      todCnfg := if err != 0 then f.torn.UnwrapOr(todCnfg) else buf[..];
    }

    method AdjtimeInternalTriggered(ts: Timespec, delta: int, f: Faults) returns (err: int)
      modifies this
      ensures (State(), err) == AdjtimeTriggered(old(State()), ts, delta, f)
    {
      err := SetTodTrigger(READ_LSB_TRIGGER, false, f.selectRead, f.selectWrite);
      if err != 0 { return; }
      if f.timeRead != 0 { return f.timeRead; }
      var ns;
      if ts.nsec > NSEC_PER_SEC - 5 * 1_000_000 {
        ns := S64((ts.sec + 2) * NSEC_PER_SEC + delta + DELAY_NS);
      } else {
        ns := S64((ts.sec + 1) * NSEC_PER_SEC + delta + DELAY_NS);
      }
      err := StoreTod(NsToTimespec(ns), f);
      if err != 0 { return; }
      var remainder := delta - TDiv(delta, NSEC_PER_SEC) * NSEC_PER_SEC;
      RemainderZero(delta);
      if remainder != 0 {
        scheduled := true;
      }
      err := SetTodTrigger(PPS_TRIGGER, true, f.armRead, f.armWrite);
    }

    /** The scheduled work: a step by nothing, one second later. It never schedules itself. */
    method AdjtimeWorkaround(ts: Timespec, f: Faults)
      requires scheduled
      modifies this
      ensures State() == AdjtimeTriggered(old(State()).(scheduled := false), ts, 0, f).0
      ensures !scheduled
    {
      scheduled := false;
      var err := AdjtimeInternalTriggered(ts, 0, f);
    }
  }

  function Seconds(k: int): int { k * NSEC_PER_SEC }

  /** The workaround is scheduled exactly when the step is not a whole number of seconds and the
      time has been stored, whatever becomes of the arming. */
  lemma WorkaroundScheduled(c: Chan, ts: Timespec, delta: int, f: Faults)
    ensures var c1 := AdjtimeTriggered(c, ts, delta, f).0;
            c1.scheduled <==>
              || c.scheduled
              || (f.selectRead == f.selectWrite == f.timeRead == f.store == 0 && !exists k :: delta == Seconds(k))
  {
    if delta % NSEC_PER_SEC == 0 {
      assert delta == Seconds(delta / NSEC_PER_SEC);
    } else if k :| delta == Seconds(k) {
      DivModUnique(delta, NSEC_PER_SEC, k, 0);
    }
  }

  /** What a call that fails leaves: before the store the time to load is as it was, after a failed
      store it is what the bus left there, and once it is stored it stays; the write trigger is
      armed exactly by a call that succeeds. */
  lemma FailedStepLeaves(c: Chan, ts: Timespec, delta: int, f: Faults)
    requires CallFails(f)
    ensures var c1 := AdjtimeTriggered(c, ts, delta, f).0;
            && GetField(c1.trigger, 16, 16) == GetField(c.trigger, 16, 16)
            && (if f.selectRead != 0 || f.selectWrite != 0 || f.timeRead != 0 then c1.todCnfg == c.todCnfg
                else if f.store != 0 then c1.todCnfg == f.torn.UnwrapOr(c.todCnfg)
                else c1.todCnfg == Encode(Layout.Sabre, NsToTimespec(LoadValue(ts, delta))))
  {
    TriggerFields(c.trigger, READ_LSB_TRIGGER);
  }

  lemma TriggerFields(reg: int, value: nat)
    requires value < 16
    ensures GetField(SetField(reg, 16, 16, value), 16, 16) == value
    ensures GetField(SetField(reg, 16, 16, value), 1, 16) == GetField(reg, 1, 16)
    ensures GetField(SetField(reg, 1, 16, value), 1, 16) == value
    ensures GetField(SetField(reg, 1, 16, value), 16, 16) == GetField(reg, 16, 16)
  {
    SetFieldSplits(reg, 16, 16, value);
    SetFieldSplits(reg, 1, 16, value);
  }

  /** Main result: a call that succeeds leaves the device armed for the next second. When it
      took less than 5 ms from the reading to the arming (less than a second, 6 ms of them
      waiting, if it read a time within 5 ms of a second), the time that the device loads at
      that second is the time of the second plus the step plus 32 ns, exactly if the target time
      is neither before the epoch nor beyond 64 bits. */
  lemma SuccessfulStepIsExact(c: Chan, ts: Timespec, delta: int, f: Faults, latency: nat)
    requires 0 <= ts.nsec < NSEC_PER_SEC && !CallFails(f)
    requires if Late(ts) then 6_000_000 <= latency < 1_000_000_000 else latency < 5_000_000
    ensures var (c1, err) := AdjtimeTriggered(c, ts, delta, f);
            && err == 0 && GetField(c1.trigger, 16, 16) == 5
            && GetField(c1.trigger, 1, 16) == 9 && |c1.todCnfg| == 10
            && (ToNs(Decode(Layout.Sabre, c1.todCnfg)) == Edge(ToNs(ts) + latency) + delta + 32 <==>
                  0 <= Target(ts, delta) < TWO_63)
  {
    var armed := SetField(c.trigger, 1, 16, READ_LSB_TRIGGER);
    TriggerFields(c.trigger, READ_LSB_TRIGGER);
    TriggerFields(armed, PPS_TRIGGER);
    GuessRight(ts, latency);
    StepExactWhenGuessRight(ts, delta, latency);
  }

  /** The C remainder is zero exactly for whole seconds. */
  lemma RemainderZero(delta: int)
    ensures delta - TDiv(delta, NSEC_PER_SEC) * NSEC_PER_SEC == 0 <==> delta % NSEC_PER_SEC == 0
  {
    var q := TDiv(delta, NSEC_PER_SEC);
    if delta == q * NSEC_PER_SEC {
      DivModUnique(delta, NSEC_PER_SEC, q, 0);
    } else if delta % NSEC_PER_SEC == 0 {
      TDivUnique(delta, NSEC_PER_SEC, delta / NSEC_PER_SEC);
    }
  }
}
