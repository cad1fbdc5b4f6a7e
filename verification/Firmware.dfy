/** The ClockMatrix firmware loader of ptp_clockmatrix.c, on top of the paged bus: the test
    for a full configuration, the record loop, and the mask records that configure the
    driver itself. */
module Firmware {
  import opened CInt
  import opened PagedBus

  const EINVAL := -22
  const EFAULT := -14

  datatype Record = Record(hiaddr: byte, loaddr: byte, value: byte, reserved: byte) {
    function Addr(): nat { hiaddr * 0x100 + loaddr }
  }

  const GPIO_CONTROL := 0xC160

  function Scratch(v520: bool): nat { if v520 then 0xCF4C else 0xCF50 }

  /** The loader's filter: inside [low, high), outside the last four bytes of a 128-byte page. */
  predicate Programmable(low: nat, high: nat, addr: nat) {
    var lo := addr % 0x100;
    low <= addr < high && !((0x7b < lo <= 0x7f) || lo > 0xfb)
  }

  // ---- Is the configuration full? ----

  function FullCount(low: nat, high: nat): int {
    (high - low) - (high / 128 - low / 128) * 4
  }

  function ProgrammableSet(low: nat, high: nat): set<nat> {
    set a | low <= a < high && Programmable(low, high, a)
  }

  /** How far a bound reaches into the four skipped bytes of its page. */
  function Overhang(x: nat): nat { if x % 128 > 0x7c then x % 128 - 0x7c else 0 }

  function Rank(x: nat): int { x - 4 * (x / 128) - Overhang(x) }

  lemma RankStep(low: nat, x: nat)
    requires low <= x
    ensures Rank(x + 1) == Rank(x) + (if Programmable(low, x + 1, x) then 1 else 0)
  {
    var m, q := x % 128, x / 128;
    assert x == 128 * q + m;
    if m == 127 {
      DivModUnique(x + 1, 128, q + 1, 0);
    } else {
      DivModUnique(x + 1, 128, q, m + 1);
    }
    assert x % 256 == m || x % 256 == m + 128;
  }

  lemma ProgrammableStep(low: nat, x: nat)
    requires low <= x
    ensures |ProgrammableSet(low, x + 1)| == |ProgrammableSet(low, x)| + (if Programmable(low, x + 1, x) then 1 else 0)
  {
    var last := if Programmable(low, x + 1, x) then {x} else {};
    assert ProgrammableSet(low, x + 1) == ProgrammableSet(low, x) + last;
  }

  lemma {:induction false} CountProgrammable(low: nat, high: nat)
    requires low <= high
    ensures |ProgrammableSet(low, high)| == Rank(high) - Rank(low)
  {
    if low < high {
      CountProgrammable(low, high - 1);
      RankStep(low, high - 1);
      ProgrammableStep(low, high - 1);
    } else {
      assert ProgrammableSet(low, high) == {};
    }
  }

  /** The closed form counts the programmable addresses exactly when the two bounds reach
      equally far into the skipped bytes. */
  lemma FullCountIsExact(low: nat, high: nat)
    requires low <= high
    ensures FullCount(low, high) == |ProgrammableSet(low, high)| <==> Overhang(low) == Overhang(high)
  {
    CountProgrammable(low, high);
  }

  /** Neither of the driver's bounds reaches into them, so its count is right. */
  lemma DriverCountIsExact(v520: bool)
    ensures FullCount(GPIO_CONTROL, Scratch(v520)) == |ProgrammableSet(GPIO_CONTROL, Scratch(v520))|
    ensures FullCount(GPIO_CONTROL, Scratch(v520)) == if v520 then 3452 else 3456
  {
    DivModUnique(GPIO_CONTROL, 128, 386, 0x60);
    DivModUnique(Scratch(v520), 128, 414, if v520 then 0x4c else 0x50);
    FullCountIsExact(GPIO_CONTROL, Scratch(v520));
  }

  /** The addresses of the records that pass the filter, in file order. */
  function Hits(low: nat, high: nat, recs: seq<Record>): seq<nat> {
    if recs == [] then [] else
      var n := |recs| - 1;
      Hits(low, high, recs[..n]) + (if Programmable(low, high, recs[n].Addr()) then [recs[n].Addr()] else [])
  }

  method ContainsFullConfiguration(recs: seq<Record>, v520: bool) returns (full: bool)
    ensures full <==> |Hits(GPIO_CONTROL, Scratch(v520), recs)| >= |ProgrammableSet(GPIO_CONTROL, Scratch(v520))|
  {
    var scratch := Scratch(v520);
    var count := 0;
    for i := 0 to |recs|
      invariant count == |Hits(GPIO_CONTROL, scratch, recs[..i])|
    {
      assert recs[..i + 1][..i] == recs[..i];
      var regaddr := recs[i].hiaddr * 0x100 + recs[i].loaddr;
      var loaddr := recs[i].loaddr;
      if regaddr < GPIO_CONTROL || regaddr >= scratch { continue; }
      if (loaddr > 0x7b && loaddr <= 0x7f) || loaddr > 0xfb { continue; }
      count := count + 1;
    }
    assert recs[..|recs|] == recs;
    full := count >= FullCount(GPIO_CONTROL, scratch);
    DriverCountIsExact(v520);
  }

  function Elements(s: seq<nat>): set<nat> { set x | x in s }

  ghost predicate Distinct(s: seq<nat>) { forall i, j | 0 <= i < j < |s| :: s[i] != s[j] }

  lemma {:induction false} ElementCount(s: seq<nat>)
    ensures |Elements(s)| <= |s|
    ensures Distinct(s) ==> |Elements(s)| == |s|
  {
    if s == [] {
      assert Elements(s) == {};
    } else {
      var n := |s| - 1;
      ElementCount(s[..n]);
      assert s == s[..n] + [s[n]];
      assert Elements(s) == Elements(s[..n]) + {s[n]};
      if Distinct(s) {
        assert s[n] !in Elements(s[..n]);
      }
    }
  }

  lemma {:induction false} HitsPass(low: nat, high: nat, recs: seq<Record>)
    ensures Elements(Hits(low, high, recs)) <= ProgrammableSet(low, high)
    ensures forall a | a in Hits(low, high, recs) :: exists r :: r in recs && r.Addr() == a
  {
    if recs != [] {
      var n := |recs| - 1;
      HitsPass(low, high, recs[..n]);
      forall a | a in Hits(low, high, recs) ensures exists r :: r in recs && r.Addr() == a {
        if a in Hits(low, high, recs[..n]) {
          var r :| r in recs[..n] && r.Addr() == a;
          assert r in recs;
        } else {
          assert recs[n] in recs && recs[n].Addr() == a;
        }
      }
    }
  }

  /** The answer is right: for a file without repeated addresses the counting loop says yes
      exactly when every programmable byte is covered. */
  lemma FullConfigurationIsCoverage(recs: seq<Record>, v520: bool)
    requires Distinct(Hits(GPIO_CONTROL, Scratch(v520), recs))
    ensures |Hits(GPIO_CONTROL, Scratch(v520), recs)| >= |ProgrammableSet(GPIO_CONTROL, Scratch(v520))|
      <==> Elements(Hits(GPIO_CONTROL, Scratch(v520), recs)) == ProgrammableSet(GPIO_CONTROL, Scratch(v520))
  {
    var hits, all := Hits(GPIO_CONTROL, Scratch(v520), recs), ProgrammableSet(GPIO_CONTROL, Scratch(v520));
    ElementCount(hits);
    HitsPass(GPIO_CONTROL, Scratch(v520), recs);
    if |hits| >= |all| {
      assert |all - Elements(hits)| == |all| - |Elements(hits)|;
      assert all - Elements(hits) == {};
    }
  }

  /** With repeated addresses a covering file is still recognised. */
  lemma CoverageIsRecognised(recs: seq<Record>, v520: bool)
    requires Elements(Hits(GPIO_CONTROL, Scratch(v520), recs)) == ProgrammableSet(GPIO_CONTROL, Scratch(v520))
    ensures |Hits(GPIO_CONTROL, Scratch(v520), recs)| >= |ProgrammableSet(GPIO_CONTROL, Scratch(v520))|
  {
    ElementCount(Hits(GPIO_CONTROL, Scratch(v520), recs));
  }

  /** How many programmable addresses the file leaves out, and how many of its records repeat
      an address. */
  function Missing(recs: seq<Record>, v520: bool): nat {
    |ProgrammableSet(GPIO_CONTROL, Scratch(v520)) - Elements(Hits(GPIO_CONTROL, Scratch(v520), recs))|
  }

  ghost predicate Covers(recs: seq<Record>, v520: bool) {
    Elements(Hits(GPIO_CONTROL, Scratch(v520), recs)) == ProgrammableSet(GPIO_CONTROL, Scratch(v520))
  }

  function Repeats(recs: seq<Record>, v520: bool): int {
    |Hits(GPIO_CONTROL, Scratch(v520), recs)| - |Elements(Hits(GPIO_CONTROL, Scratch(v520), recs))|
  }

  /** For every file: the answer is yes exactly when the repeated records make up for the
      missing addresses, so it is wrong exactly when some are missing and no more than that are
      repeated. */
  lemma AnswerIsWrongExactly(recs: seq<Record>, v520: bool)
    ensures |Hits(GPIO_CONTROL, Scratch(v520), recs)| >= |ProgrammableSet(GPIO_CONTROL, Scratch(v520))|
      <==> Missing(recs, v520) <= Repeats(recs, v520)
    ensures Covers(recs, v520) <==> Missing(recs, v520) == 0
    ensures Repeats(recs, v520) >= 0
  {
    var hits, all := Hits(GPIO_CONTROL, Scratch(v520), recs), ProgrammableSet(GPIO_CONTROL, Scratch(v520));
    ElementCount(hits);
    HitsPass(GPIO_CONTROL, Scratch(v520), recs);
    assert |all - Elements(hits)| == |all| - |Elements(hits)|;
    if Missing(recs, v520) == 0 {
      assert all - Elements(hits) == {};
    }
  }

  /** A file that repeats one record often enough covers one address ... */
  lemma {:induction false} RepeatedRecordCounts(r: Record, v520: bool, n: nat)
    requires Programmable(GPIO_CONTROL, Scratch(v520), r.Addr())
    ensures |Hits(GPIO_CONTROL, Scratch(v520), seq(n, _ => r))| == n
    ensures Elements(Hits(GPIO_CONTROL, Scratch(v520), seq(n, _ => r))) <= {r.Addr()}
  {
    var recs := seq(n, _ => r);
    if n > 0 {
      assert recs[..n - 1] == seq(n - 1, _ => r);
      RepeatedRecordCounts(r, v520, n - 1);
    }
  }

  /** ... and 3456 copies of the first programmable byte are taken for a full configuration. */
  lemma RepeatedFileIsTakenForFull(v520: bool)
    ensures var recs := seq(3456, _ => Record(0xC1, 0x60, 0, 0));
            && |Hits(GPIO_CONTROL, Scratch(v520), recs)| >= FullCount(GPIO_CONTROL, Scratch(v520))
            && !Covers(recs, v520)
  {
    var r := Record(0xC1, 0x60, 0, 0);
    DriverCountIsExact(v520);
    RepeatedRecordCounts(r, v520, 3456);
    assert r.Addr() == 0xC160 && Programmable(GPIO_CONTROL, Scratch(v520), 0xC161);
    assert 0xC161 in ProgrammableSet(GPIO_CONTROL, Scratch(v520)) && 0xC161 !in {r.Addr()};
  }

  // ---- Loading the records ----

  /** The driver's own settings that mask records change. */
  datatype Config = Config(todMask: byte, pll: seq<byte>, outputMask: seq<nat>) {
    ghost predicate Valid() { |pll| == 4 && |outputMask| == 4 }
  }

  const TOD_MASK_ADDR := 0xFFA5
  const TOD0_PTP_PLL_ADDR := 0xFFA8
  const TOD0_OUT_ALIGN_MASK_ADDR := 0xFFB0

  function SetMasks(c: Config, addr: nat, val: byte): (r: (Config, int))
    requires c.Valid()
    ensures r.0.Valid()
  {
    if addr == TOD_MASK_ADDR then
      if val / 16 != 0 || val % 16 == 0 then (c, EINVAL) else (c.(todMask := val), 0)
    else if TOD0_PTP_PLL_ADDR <= addr < TOD0_PTP_PLL_ADDR + 4 then
      if val >= 8 then (c, EINVAL) else (c.(pll := c.pll[addr - TOD0_PTP_PLL_ADDR := val]), 0)
    else if TOD0_OUT_ALIGN_MASK_ADDR <= addr < TOD0_OUT_ALIGN_MASK_ADDR + 8 then
      var k := (addr - TOD0_OUT_ALIGN_MASK_ADDR) / 2;
      var m := c.outputMask[k];
      (c.(outputMask := c.outputMask[k := if addr % 2 == 0 then m / 256 * 256 + val else m % 256 + val * 256]), 0)
    else (c, EFAULT)
  }

  /** A record that stops the load: reserved byte set, or an invalid mask or PLL number. */
  predicate Rejected(r: Record) {
    || r.reserved != 0
    || (r.Addr() == TOD_MASK_ADDR && (r.value / 16 != 0 || r.value % 16 == 0))
    || (TOD0_PTP_PLL_ADDR <= r.Addr() < TOD0_PTP_PLL_ADDR + 4 && r.value >= 8)
  }

  function ApplyMasks(c: Config, recs: seq<Record>): (r: Config)
    requires c.Valid()
    ensures r.Valid()
  {
    if recs == [] then c else
      var n := |recs| - 1;
      SetMasks(ApplyMasks(c, recs[..n]), recs[n].Addr(), recs[n].value).0
  }

  function ApplyWrites(mem: map<nat, byte>, recs: seq<Record>, v520: bool): map<nat, byte> {
    if recs == [] then mem else
      var n, r := |recs| - 1, recs[|recs| - 1];
      var m := ApplyWrites(mem, recs[..n], v520);
      if Programmable(GPIO_CONTROL, Scratch(v520), r.Addr()) then m[SCSR_BASE + r.Addr() := r.value] else m
  }

  /** No write of the loader reaches the page register, on either transport. */
  lemma LoaderAvoidsPageRegister(v520: bool, addr: nat)
    requires Programmable(GPIO_CONTROL, Scratch(v520), addr)
    ensures Legal(I2cClockMatrix, SCSR_BASE + addr) && Legal(SpiClockMatrix, SCSR_BASE + addr)
  {
    var lo := addr % 256;
    assert SCSR_BASE == 0x201000 * 256 && SCSR_BASE == 0x402000 * 128;
    DivModUnique(SCSR_BASE + addr, 256, 0x201000 + addr / 256, lo);
    DivModUnique(SCSR_BASE + addr, 128, 0x402000 + addr / 128, addr % 128);
    assert lo == addr % 128 || lo == addr % 128 + 128;
  }

  class Idtcm {
    const bus: Rsmu
    const v520: bool
    var todMask: byte
    var pll: seq<byte>
    var outputMask: seq<nat>

    ghost predicate Valid()
      reads this, bus
    {
      Cfg().Valid() && !bus.transport.SpiSabre? && Coherent(bus.transport, bus.State())
    }

    ghost function Cfg(): Config reads this { Config(todMask, pll, outputMask) }

    constructor (bus: Rsmu, v520: bool)
      requires !bus.transport.SpiSabre? && Coherent(bus.transport, bus.State())
      ensures Valid() && this.bus == bus && this.v520 == v520
      ensures Cfg() == Config(0x04, [0, 1, 2, 3], [0x003, 0x00c, 0x030, 0x0c0])
    {
      this.bus, this.v520 := bus, v520;
      todMask, pll, outputMask := 0x04, [0, 1, 2, 3], [0x003, 0x00c, 0x030, 0x0c0];
    }

    method SetPllOutputMask(addr: nat, val: byte) returns (err: int)
      requires Cfg().Valid()
      requires addr != TOD_MASK_ADDR && !(TOD0_PTP_PLL_ADDR <= addr < TOD0_PTP_PLL_ADDR + 4)
      modifies this`outputMask
      ensures (Cfg(), err) == SetMasks(old(Cfg()), addr, val)
    {
      if addr < TOD0_OUT_ALIGN_MASK_ADDR || addr > TOD0_OUT_ALIGN_MASK_ADDR + 7 { return EFAULT; }
      var k := (addr - TOD0_OUT_ALIGN_MASK_ADDR) / 2;
      if addr % 2 == 0 {
        outputMask := outputMask[k := outputMask[k] / 256 * 256 + val];
      } else {
        outputMask := outputMask[k := outputMask[k] % 256 + val * 256];
      }
      err := 0;
    }

    method CheckAndSetMasks(addr: nat, val: byte) returns (err: int)
      requires Cfg().Valid()
      modifies this
      ensures (Cfg(), err) == SetMasks(old(Cfg()), addr, val)
    {
      if addr == TOD_MASK_ADDR {
        if val / 16 != 0 || val % 16 == 0 { return EINVAL; }
        todMask := val;
        err := 0;
      } else if TOD0_PTP_PLL_ADDR <= addr < TOD0_PTP_PLL_ADDR + 4 {
        if val >= 8 { return EINVAL; }
        pll := pll[addr - TOD0_PTP_PLL_ADDR := val];
        err := 0;
      } else {
        err := SetPllOutputMask(addr, val);
      }
    }

    /** The write of one byte inside the filter. */
    method WriteByte(addr: nat, val: byte, pageErr: int, ioErr: int) returns (err: int)
      requires Valid() && Programmable(GPIO_CONTROL, Scratch(v520), addr)
      modifies bus
      ensures Valid()
      ensures bus.chip.mem == if err == 0 then old(bus.chip.mem)[SCSR_BASE + addr := val] else old(bus.chip.mem)
      ensures err != 0 ==> err == pageErr || err == ioErr
    {
      LoaderAvoidsPageRegister(v520, addr);
      StepIsFlat(bus.transport, bus.State(), Write(SCSR_BASE + addr, val, pageErr, ioErr));
      err := bus.RegWrite(SCSR_BASE + addr, val, pageErr, ioErr);
    }

    /** One turn of the record loop: check the record, update the settings, write the byte
        if the filter lets it through. A record that fails changes nothing. */
    method LoadRecord(rec: Record, pageErr: int, ioErr: int) returns (err: int)
      requires Valid()
      modifies this, bus
      ensures Valid()
      ensures err == 0 ==> !Rejected(rec)
      ensures err == 0 ==> Cfg() == ApplyMasks(old(Cfg()), [rec])
      ensures err == 0 ==> bus.chip.mem == ApplyWrites(old(bus.chip.mem), [rec], v520)
      ensures err != 0 ==> Cfg() == old(Cfg()) && bus.chip.mem == old(bus.chip.mem)
      ensures err != 0 ==>
        if Rejected(rec) then err == EINVAL
        else Programmable(GPIO_CONTROL, Scratch(v520), rec.Addr()) && (err == pageErr || err == ioErr)
    {
      if rec.reserved != 0 { return EINVAL; }
      var regaddr := rec.hiaddr * 0x100 + rec.loaddr;
      err := CheckAndSetMasks(regaddr, rec.value);
      if err == EINVAL { return; }
      err := 0;
      if regaddr < GPIO_CONTROL || regaddr >= Scratch(v520) { return; }
      if (rec.loaddr > 0x7b && rec.loaddr <= 0x7f) || rec.loaddr > 0xfb { return; }
      err := WriteByte(regaddr, rec.value, pageErr, ioErr);
    }

    /** The record loop. `faults[i]` holds the bus errors that the write of record i meets
        when it selects the page and when it transfers the byte. `done` records took effect;
        the load stops at the first rejected record or the first write that fails. */
    method LoadRecords(recs: seq<Record>, faults: seq<(int, int)>) returns (err: int, ghost done: nat)
      requires Valid() && |faults| == |recs|
      modifies this, bus
      ensures Valid() && done <= |recs| && (err == 0 <==> done == |recs|)
      ensures forall i | 0 <= i < done :: !Rejected(recs[i])
      ensures Cfg() == ApplyMasks(old(Cfg()), recs[..done])
      ensures bus.chip.mem == ApplyWrites(old(bus.chip.mem), recs[..done], v520)
      ensures done < |recs| ==>
        if Rejected(recs[done]) then err == EINVAL
        else
          && Programmable(GPIO_CONTROL, Scratch(v520), recs[done].Addr())
          && (err == faults[done].0 || err == faults[done].1)
    {
      done := 0;
      err := 0;
      for i := 0 to |recs|
        invariant done == i && err == 0 && Valid()
        invariant forall j | 0 <= j < done :: !Rejected(recs[j])
        invariant Cfg() == ApplyMasks(old(Cfg()), recs[..done])
        invariant bus.chip.mem == ApplyWrites(old(bus.chip.mem), recs[..done], v520)
      {
        assert recs[..i + 1][..i] == recs[..i];
        err := LoadRecord(recs[i], faults[i].0, faults[i].1);
        if err != 0 { return; }
        done := i + 1;
      }
      assert recs[..|recs|] == recs;
    }
  }

  // ---- What a load leaves behind ----

  ghost predicate LastAt(recs: seq<Record>, a: nat, i: nat) {
    i < |recs| && recs[i].Addr() == a && forall j | i < j < |recs| :: recs[j].Addr() != a
  }

  /** The value of the last record for an address, if there is one. */
  function LastValue(recs: seq<Record>, a: nat, otherwise: nat): nat {
    if recs == [] then otherwise
    else if recs[|recs| - 1].Addr() == a then recs[|recs| - 1].value
    else LastValue(recs[..|recs| - 1], a, otherwise)
  }

  lemma {:induction false} LastValueAt(recs: seq<Record>, a: nat, otherwise: nat, i: nat)
    requires LastAt(recs, a, i)
    ensures LastValue(recs, a, otherwise) == recs[i].value
  {
    if i + 1 < |recs| {
      LastValueAt(recs[..|recs| - 1], a, otherwise, i);
    }
  }

  lemma {:induction false} LastValueNone(recs: seq<Record>, a: nat, otherwise: nat)
    requires forall i | 0 <= i < |recs| :: recs[i].Addr() != a
    ensures LastValue(recs, a, otherwise) == otherwise
  {
    if recs != [] {
      LastValueNone(recs[..|recs| - 1], a, otherwise);
    }
  }

  lemma LastValueMeans(recs: seq<Record>, a: nat, otherwise: nat)
    ensures forall i | 0 <= i < |recs| && LastAt(recs, a, i) :: LastValue(recs, a, otherwise) == recs[i].value
    ensures (forall i | 0 <= i < |recs| :: recs[i].Addr() != a) ==> LastValue(recs, a, otherwise) == otherwise
  {
    forall i | 0 <= i < |recs| && LastAt(recs, a, i) ensures LastValue(recs, a, otherwise) == recs[i].value {
      LastValueAt(recs, a, otherwise, i);
    }
    if forall i | 0 <= i < |recs| :: recs[i].Addr() != a {
      LastValueNone(recs, a, otherwise);
    }
  }

  lemma {:induction false} WritesKeepLast(mem: map<nat, byte>, recs: seq<Record>, v520: bool, a: nat)
    ensures Peek(ApplyWrites(mem, recs, v520), SCSR_BASE + a) ==
      if Programmable(GPIO_CONTROL, Scratch(v520), a) then LastValue(recs, a, Peek(mem, SCSR_BASE + a))
      else Peek(mem, SCSR_BASE + a) as nat
  {
    if recs != [] {
      WritesKeepLast(mem, recs[..|recs| - 1], v520, a);
    }
  }

  /** Registers: the last programmable record for an address wins, other addresses keep
      their contents. */
  lemma LastRecordWins(mem: map<nat, byte>, recs: seq<Record>, v520: bool, a: nat)
    ensures forall i | 0 <= i < |recs| && LastAt(recs, a, i) && Programmable(GPIO_CONTROL, Scratch(v520), a) ::
              Peek(ApplyWrites(mem, recs, v520), SCSR_BASE + a) == recs[i].value
    ensures (!Programmable(GPIO_CONTROL, Scratch(v520), a) || forall i | 0 <= i < |recs| :: recs[i].Addr() != a)
              ==> Peek(ApplyWrites(mem, recs, v520), SCSR_BASE + a) == Peek(mem, SCSR_BASE + a)
  {
    WritesKeepLast(mem, recs, v520, a);
    LastValueMeans(recs, a, Peek(mem, SCSR_BASE + a));
  }

  /** The byte-sized settings: each half of an output mask is a setting of its own. */
  datatype Setting = TodMask | Pll(k: nat) | OutputLsb(k: nat) | OutputMsb(k: nat) {
    predicate Valid() { TodMask? || k < 4 }
    function Addr(): nat {
      match this
      case TodMask => 0xFFA5
      case Pll(k) => 0xFFA8 + k
      case OutputLsb(k) => 0xFFB0 + 2 * k
      case OutputMsb(k) => 0xFFB1 + 2 * k
    }
    function Of(c: Config): nat
      requires Valid() && c.Valid()
    {
      match this
      case TodMask => c.todMask
      case Pll(k) => c.pll[k]
      case OutputLsb(k) => c.outputMask[k] % 256
      case OutputMsb(k) => c.outputMask[k] / 256
    }
  }

  lemma SetMasksChangesOne(c: Config, addr: nat, val: byte, s: Setting)
    requires c.Valid() && s.Valid() && SetMasks(c, addr, val).1 != EINVAL
    ensures s.Of(SetMasks(c, addr, val).0) == if addr == s.Addr() then val as nat else s.Of(c)
  {
    if TOD0_OUT_ALIGN_MASK_ADDR <= addr < TOD0_OUT_ALIGN_MASK_ADDR + 8 {
      var k := (addr - TOD0_OUT_ALIGN_MASK_ADDR) / 2;
      var m := c.outputMask[k];
      DivModUnique(m / 256 * 256 + val, 256, m / 256, val);
      DivModUnique(m % 256 + val * 256, 256, val, m % 256);
    }
  }

  lemma RejectedExactly(c: Config, r: Record)
    requires c.Valid() && r.reserved == 0
    ensures Rejected(r) <==> SetMasks(c, r.Addr(), r.value).1 == EINVAL
  {
  }

  lemma {:induction false} MasksKeepLast(c: Config, recs: seq<Record>, s: Setting)
    requires c.Valid() && s.Valid() && forall r | r in recs :: !Rejected(r)
    ensures s.Of(ApplyMasks(c, recs)) == LastValue(recs, s.Addr(), s.Of(c))
  {
    if recs != [] {
      var front, last := recs[..|recs| - 1], recs[|recs| - 1];
      MasksKeepLast(c, front, s);
      var before := ApplyMasks(c, front);
      assert last in recs;
      RejectedExactly(before, last);
      SetMasksChangesOne(before, last.Addr(), last.value, s);
    }
  }

  /** Settings: each holds the value of its last record, or its old value. */
  lemma LastMaskWins(c: Config, recs: seq<Record>, s: Setting)
    requires c.Valid() && s.Valid() && forall r | r in recs :: !Rejected(r)
    ensures forall i | 0 <= i < |recs| && LastAt(recs, s.Addr(), i) :: s.Of(ApplyMasks(c, recs)) == recs[i].value
    ensures (forall i | 0 <= i < |recs| :: recs[i].Addr() != s.Addr()) ==> s.Of(ApplyMasks(c, recs)) == s.Of(c)
  {
    MasksKeepLast(c, recs, s);
    LastValueMeans(recs, s.Addr(), s.Of(c));
  }
}
