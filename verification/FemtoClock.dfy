/** FemtoClock3 (rsmu_fc3.c): the reference multiplexer, the priority register, and the
    conversion of time-to-digital measurements. */
module FemtoClock {
  import opened CInt

  const EINVAL := -22
  const REFS := 4

  // ---- Which reference carries a clock ----

  /** The clock that a reference is connected to: a three-bit field of REF_SEL_CNFG. */
  function ClockOf(sel: bv32, ref: nat): bv32
    requires ref < REFS
  {
    match ref
    case 0 => sel & 7
    case 1 => (sel >> 3) & 7
    case 2 => (sel >> 6) & 7
    case 3 => (sel >> 9) & 7
  }

  /** The search of the driver. A bus error is returned as if it were a reference, cut to
      eight bits; 4 means that no reference carries the clock. */
  method ClockIndexToRefIndex(sel: bv32, readErr: int, clock: bv32) returns (ref: nat)
    ensures readErr != 0 ==> ref == readErr % 256
    ensures readErr == 0 ==> ref == RefOf(sel, clock)
  {
    if readErr != 0 { return readErr % 256; }
    for i := 0 to REFS
      invariant forall r | 0 <= r < i :: ClockOf(sel, r) != clock
    {
      if clock == ClockOf(sel, i) {
        return i;
      }
    }
    ref := REFS;
  }

  function RefOf(sel: bv32, clock: bv32): (ref: nat)
    ensures ref <= REFS
    ensures ref < REFS ==> ClockOf(sel, ref) == clock
    ensures forall r | 0 <= r < ref :: ClockOf(sel, r) != clock
  {
    if ClockOf(sel, 0) == clock then 0
    else if ClockOf(sel, 1) == clock then 1
    else if ClockOf(sel, 2) == clock then 2
    else if ClockOf(sel, 3) == clock then 3
    else REFS
  }

  /** The search inverts the reader's lookup up to references that carry the same clock. */
  lemma SearchInvertsLookup(sel: bv32, ref: nat)
    requires ref < REFS
    ensures RefOf(sel, ClockOf(sel, ref)) <= ref
    ensures ClockOf(sel, RefOf(sel, ClockOf(sel, ref))) == ClockOf(sel, ref)
    ensures (forall r | 0 <= r < ref :: ClockOf(sel, r) != ClockOf(sel, ref)) <==> RefOf(sel, ClockOf(sel, ref)) == ref
  {
  }

  /** The three bits of a reference, and a clock put into them. */
  function MuxMask(ref: nat): bv32
    requires ref < REFS
  {
    match ref case 0 => 0x7 case 1 => 0x38 case 2 => 0x1c0 case 3 => 0xe00
  }

  function MuxBits(ref: nat, clock: bv32): bv32
    requires ref < REFS
  {
    match ref case 0 => clock case 1 => clock << 3 case 2 => clock << 6 case 3 => clock << 9
  }

  /** The multiplexer register with a reference connected to a clock. */
  function Connect(sel: bv32, ref: nat, clock: bv32): bv32
    requires ref < REFS
  {
    (sel & !MuxMask(ref)) | MuxBits(ref, clock)
  }

  lemma MuxBitsStayInMask(ref: nat, clock: bv32)
    requires ref < REFS && clock < 8
    ensures MuxBits(ref, clock) & !MuxMask(ref) == 0
  {
  }

  lemma MuxWrite(sel: bv32, mask: bv32, bits: bv32, other: bv32)
    requires mask & other == 0 && bits & !mask == 0
    ensures ((sel & !mask) | bits) & other == sel & other
  {
  }

  lemma SameBitsSameClock(a: bv32, b: bv32, ref: nat)
    requires ref < REFS && a & MuxMask(ref) == b & MuxMask(ref)
    ensures ClockOf(a, ref) == ClockOf(b, ref)
  {
  }

  lemma ConnectKeepsOthers(sel: bv32, ref: nat, clock: bv32, r: nat)
    requires ref < REFS && r < REFS && clock < 8 && r != ref
    ensures ClockOf(Connect(sel, ref, clock), r) == ClockOf(sel, r)
  {
    MuxBitsStayInMask(ref, clock);
    MuxWrite(sel, MuxMask(ref), MuxBits(ref, clock), MuxMask(r));
    SameBitsSameClock(Connect(sel, ref, clock), sel, r);
  }

  lemma ConnectConnects(sel: bv32, ref: nat, clock: bv32)
    requires ref < REFS && clock < 8
    ensures ClockOf(Connect(sel, ref, clock), ref) == clock
  {
    if ref == 0 {} else if ref == 1 {} else if ref == 2 {} else {}
  }

  /** Connecting a reference to a clock makes the lookup give that clock, and leaves the others. */
  lemma ConnectSetsClock(sel: bv32, clock: bv32)
    requires clock < 8
    ensures forall ref | 0 <= ref < REFS :: ClockOf(Connect(sel, ref, clock), ref) == clock
    ensures forall ref, r | 0 <= ref < REFS && 0 <= r < REFS && r != ref ::
              ClockOf(Connect(sel, ref, clock), r) == ClockOf(sel, r)
  {
    forall ref | 0 <= ref < REFS ensures ClockOf(Connect(sel, ref, clock), ref) == clock {
      ConnectConnects(sel, ref, clock);
    }
    forall ref, r | 0 <= ref < REFS && 0 <= r < REFS && r != ref
      ensures ClockOf(Connect(sel, ref, clock), r) == ClockOf(sel, r)
    {
      ConnectKeepsOthers(sel, ref, clock, r);
    }
  }

  // ---- The priority register ----

  datatype Entry = Entry(clock: bv8, priority: bv8)

  /** The reference that an entry ends up with. A read error that happens to be 0 to 3 modulo
      256 is taken for a reference. */
  function Target(sel: bv32, e: Entry, readErr: int): nat {
    if readErr != 0 then readErr % 256 else RefOf(sel, e.clock as bv32)
  }

  predicate Usable(sel: bv32, e: Entry, readErr: int) {
    e.clock <= 7 && e.priority < 4 && Target(sel, e, readErr) < REFS
  }

  /** Without a bus error an entry is usable exactly if its clock and priority are in range and some
      reference carries the clock. */
  lemma UsableExactly(sel: bv32, e: Entry)
    ensures Usable(sel, e, 0) <==>
      e.clock < 8 && e.priority < 4 && exists r :: 0 <= r < REFS && ClockOf(sel, r) == e.clock as bv32
  {
  }

  /** The disable bit and the two priority bits of a reference. */
  function RefMask(ref: nat): bv16
    requires ref < REFS
  {
    match ref case 0 => 0x31 case 1 => 0xc2 case 2 => 0x304 case 3 => 0xc08
  }

  function RefBits(ref: nat, p: bv8): bv16
    requires ref < REFS
  {
    match ref
    case 0 => (p as bv16) << 4
    case 1 => (p as bv16) << 6
    case 2 => (p as bv16) << 8
    case 3 => (p as bv16) << 10
  }

  /** Enable the reference (clear its disable bit) and set its two priority bits. */
  function Assign(reg: bv16, ref: nat, p: bv8): bv16
    requires ref < REFS
  {
    (reg & !RefMask(ref)) | RefBits(ref, p)
  }

  predicate Enabled(reg: bv16, ref: nat)
    requires ref < REFS
  {
    match ref case 0 => reg & 1 == 0 case 1 => reg & 2 == 0 case 2 => reg & 4 == 0 case 3 => reg & 8 == 0
  }

  function PriorityOf(reg: bv16, ref: nat): bv16
    requires ref < REFS
  {
    match ref
    case 0 => (reg >> 4) & 3
    case 1 => (reg >> 6) & 3
    case 2 => (reg >> 8) & 3
    case 3 => (reg >> 10) & 3
  }

  /** Reference r has disable bit r and the priority bits from bit 4 + 2r on. */
  lemma FieldPositions(reg: bv16, r: nat)
    requires r < REFS
    ensures Enabled(reg, r) <==> (reg >> r) & 1 == 0
    ensures PriorityOf(reg, r) == (reg >> (4 + 2 * r)) & 3
  {
  }

  ghost predicate AllUsable(sel: bv32, es: seq<Entry>, readErrs: seq<int>)
    requires |es| == |readErrs|
  {
    forall i | 0 <= i < |es| :: Usable(sel, es[i], readErrs[i])
  }

  ghost function Compose(sel: bv32, es: seq<Entry>, readErrs: seq<int>): bv16
    requires |es| == |readErrs| && AllUsable(sel, es, readErrs)
  {
    if es == [] then 0xf else
      var n := |es| - 1;
      assert Usable(sel, es[n], readErrs[n]);
      Assign(Compose(sel, es[..n], readErrs[..n]), Target(sel, es[n], readErrs[n]), es[n].priority)
  }

  class Driver {
    const sel: bv32
    var reg: bv16

    constructor (sel: bv32, reg: bv16)
      ensures this.sel == sel && this.reg == reg
    {
      this.sel, this.reg := sel, reg;
    }

    /** `readErrs[i]` is the bus error of the multiplexer read for entry i. */
    method SetClockPriorities(es: seq<Entry>, readErrs: seq<int>, writeErr: int) returns (err: int)
      requires |es| == |readErrs|
      modifies this
      ensures |es| > 4 || !AllUsable(sel, es, readErrs) ==> err == EINVAL && reg == old(reg)
      ensures |es| <= 4 && AllUsable(sel, es, readErrs) ==>
        err == writeErr && reg == if writeErr == 0 then Compose(sel, es, readErrs) else old(reg)
    {
      if |es| > 4 { return EINVAL; }
      var r: bv16 := 0xf;
      for i := 0 to |es|
        invariant reg == old(reg)
        invariant AllUsable(sel, es[..i], readErrs[..i])
        invariant r == Compose(sel, es[..i], readErrs[..i])
      {
        var clock, priority := es[i].clock, es[i].priority;
        if clock > 7 || priority >= 4 { return EINVAL; }
        var ref := ClockIndexToRefIndex(sel, readErrs[i], clock as bv32);
        assert ref == Target(sel, es[i], readErrs[i]);
        if ref >= REFS { return EINVAL; }
        assert es[..i + 1][..i] == es[..i] && readErrs[..i + 1][..i] == readErrs[..i];
        r := Assign(r, ref, priority);
      }
      assert es[..|es|] == es && readErrs[..|es|] == readErrs;
      if writeErr == 0 {
        reg := r;
      }
      err := writeErr;
    }
  }

  lemma AssignedBits(reg: bv16, ref: nat, p: bv8)
    requires ref < REFS && p < 4
    ensures Enabled(Assign(reg, ref, p), ref) && PriorityOf(Assign(reg, ref, p), ref) == p as bv16
  {
    var q := p as bv16;
    assert q < 4;
  }

  lemma BitsStayInMask(ref: nat, p: bv8)
    requires ref < REFS && p < 4
    ensures RefBits(ref, p) & !RefMask(ref) == 0
  {
    assert p as bv16 < 4;
  }

  lemma MaskedWrite(reg: bv16, mask: bv16, bits: bv16, other: bv16)
    requires mask & other == 0 && bits & !mask == 0
    ensures ((reg & !mask) | bits) & other == reg & other
  {
  }

  lemma SameMaskSameFields(a: bv16, b: bv16, r: nat)
    requires r < REFS && a & RefMask(r) == b & RefMask(r)
    ensures Enabled(a, r) <==> Enabled(b, r)
    ensures PriorityOf(a, r) == PriorityOf(b, r)
  {
  }

  lemma OtherBits(reg: bv16, ref: nat, p: bv8, r: nat)
    requires ref < REFS && r < REFS && p < 4 && r != ref
    ensures Enabled(Assign(reg, ref, p), r) <==> Enabled(reg, r)
    ensures PriorityOf(Assign(reg, ref, p), r) == PriorityOf(reg, r)
  {
    BitsStayInMask(ref, p);
    MaskedWrite(reg, RefMask(ref), RefBits(ref, p), RefMask(r));
    SameMaskSameFields(Assign(reg, ref, p), reg, r);
  }

  lemma ReservedBits(reg: bv16, ref: nat, p: bv8)
    requires ref < REFS && p < 4 && reg & 0xf000 == 0
    ensures Assign(reg, ref, p) & 0xf000 == 0
  {
  }

  /** The map that a list of entries denotes: later entries for a reference win. */
  ghost function Denoted(sel: bv32, es: seq<Entry>, readErrs: seq<int>): map<nat, bv8>
    requires |es| == |readErrs|
  {
    if es == [] then map[] else
      var n := |es| - 1;
      Denoted(sel, es[..n], readErrs[..n])[Target(sel, es[n], readErrs[n]) := es[n].priority]
  }

  /** Register and map agree on reference r. */
  ghost predicate Agree(reg: bv16, m: map<nat, bv8>, r: nat)
    requires r < REFS
  {
    && (Enabled(reg, r) <==> r in m)
    && PriorityOf(reg, r) == if r in m then m[r] as bv16 else 0
  }

  lemma AssignAgrees(reg: bv16, m: map<nat, bv8>, ref: nat, p: bv8, r: nat)
    requires ref < REFS && r < REFS && p < 4 && Agree(reg, m, r)
    ensures Agree(Assign(reg, ref, p), m[ref := p], r)
  {
    if ref == r {
      AssignedBits(reg, ref, p);
    } else {
      OtherBits(reg, ref, p, r);
    }
  }

  /** Main result: the register is the map that the list denotes. A reference is enabled exactly
      when some entry ends up with it, and has the priority of the last one that does; the other
      references have priority 0 and the reserved bits are clear. */
  lemma {:induction false} RegisterIsMap(sel: bv32, es: seq<Entry>, readErrs: seq<int>, r: nat)
    requires |es| == |readErrs| && AllUsable(sel, es, readErrs)
    requires r < REFS
    ensures Agree(Compose(sel, es, readErrs), Denoted(sel, es, readErrs), r)
    ensures Compose(sel, es, readErrs) & 0xf000 == 0
  {
    if es != [] {
      var n := |es| - 1;
      var es', errs' := es[..n], readErrs[..n];
      assert forall i | 0 <= i < n :: es[i] == es'[i] && readErrs[i] == errs'[i];
      assert Usable(sel, es[n], readErrs[n]);
      RegisterIsMap(sel, es', errs', r);
      var reg := Compose(sel, es', errs');
      AssignAgrees(reg, Denoted(sel, es', errs'), Target(sel, es[n], readErrs[n]), es[n].priority, r);
      ReservedBits(reg, Target(sel, es[n], readErrs[n]), es[n].priority);
    }
  }

  lemma FieldsDetermineRegister(a: bv16, b: bv16, m: map<nat, bv8>)
    requires forall r | 0 <= r < REFS :: Agree(a, m, r) && Agree(b, m, r)
    requires a & 0xf000 == b & 0xf000 == 0
    ensures a == b
  {
    assert Agree(a, m, 0) && Agree(a, m, 1) && Agree(a, m, 2) && Agree(a, m, 3);
    assert Agree(b, m, 0) && Agree(b, m, 1) && Agree(b, m, 2) && Agree(b, m, 3);
  }

  /** Lists that denote the same map give the same register. */
  lemma SameMapSameRegister(sel: bv32, es: seq<Entry>, esErrs: seq<int>, fs: seq<Entry>, fsErrs: seq<int>)
    requires |es| == |esErrs| && AllUsable(sel, es, esErrs)
    requires |fs| == |fsErrs| && AllUsable(sel, fs, fsErrs)
    requires Denoted(sel, es, esErrs) == Denoted(sel, fs, fsErrs)
    ensures Compose(sel, es, esErrs) == Compose(sel, fs, fsErrs)
  {
    var a, b := Compose(sel, es, esErrs), Compose(sel, fs, fsErrs);
    RegisterIsMap(sel, es, esErrs, 0);
    RegisterIsMap(sel, fs, fsErrs, 0);
    forall r | 0 <= r < REFS ensures Agree(a, Denoted(sel, es, esErrs), r) && Agree(b, Denoted(sel, es, esErrs), r) {
      RegisterIsMap(sel, es, esErrs, r);
      RegisterIsMap(sel, fs, fsErrs, r);
    }
    FieldsDetermineRegister(a, b, Denoted(sel, es, esErrs));
  }

  lemma DenotedSnoc(sel: bv32, es: seq<Entry>, errs: seq<int>, e: Entry, err: int)
    requires |es| == |errs|
    ensures Denoted(sel, es + [e], errs + [err]) == Denoted(sel, es, errs)[Target(sel, e, err) := e.priority]
  {
    assert (es + [e])[..|es|] == es && (errs + [err])[..|errs|] == errs;
  }

  /** Neighbouring entries for different references can change places. */
  lemma EntriesCommute(sel: bv32, es: seq<Entry>, errs: seq<int>, e: Entry, eErr: int, f: Entry, fErr: int)
    requires |es| == |errs| && AllUsable(sel, es, errs)
    requires Usable(sel, e, eErr) && Usable(sel, f, fErr) && Target(sel, e, eErr) != Target(sel, f, fErr)
    ensures AllUsable(sel, es + [e] + [f], errs + [eErr] + [fErr])
    ensures AllUsable(sel, es + [f] + [e], errs + [fErr] + [eErr])
    ensures Compose(sel, es + [e] + [f], errs + [eErr] + [fErr]) == Compose(sel, es + [f] + [e], errs + [fErr] + [eErr])
  {
    DenotedSnoc(sel, es, errs, e, eErr);
    DenotedSnoc(sel, es, errs, f, fErr);
    DenotedSnoc(sel, es + [e], errs + [eErr], f, fErr);
    DenotedSnoc(sel, es + [f], errs + [fErr], e, eErr);
    SameMapSameRegister(sel, es + [e] + [f], errs + [eErr] + [fErr], es + [f] + [e], errs + [fErr] + [eErr]);
  }

  /** A failed multiplexer read is noticed exactly when its error code, cut to eight bits, is
      not a reference: -EIO is, an interrupted transfer (-512) would count as reference 0. */
  lemma FailedReadNoticed(sel: bv32, e: Entry, readErr: int)
    requires readErr != 0 && e.clock <= 7 && e.priority < 4
    ensures !Usable(sel, e, readErr) <==> readErr % 256 >= 4
    ensures !Usable(sel, e, -5) && Usable(sel, e, -512)
  {
  }

  // ---- Time-to-digital measurements ----

  const NSEC_PER_SEC := 1_000_000_000

  /** A 40-bit reading: 13 signed bits of fine measurement below 27 signed bits of coarse. */
  function Fine(reading: nat): int { SignExtend(reading % 0x2000, 0x2000) }

  function Coarse(reading: nat): int { SignExtend(reading / 0x2000 % 0x800_0000, 0x800_0000) }

  function Meas2Offset(reading: nat, timeRef: nat, tdcApll: nat): int
    requires timeRef > 0 && tdcApll > 0
  {
    TDiv(S64(Coarse(reading) * NSEC_PER_SEC), timeRef) + TDiv(S64(Fine(reading) * NSEC_PER_SEC), tdcApll * 62)
  }

  /** The fields decode: every pair in range is the reading of exactly the packed word. */
  lemma ReadingDecodes(coarse: int, fine: int)
    requires -0x400_0000 <= coarse < 0x400_0000 && -0x1000 <= fine < 0x1000
    ensures var reading := coarse % 0x800_0000 * 0x2000 + fine % 0x2000;
            reading < 0x100_0000_0000 && Coarse(reading) == coarse && Fine(reading) == fine
  {
    var c, f := coarse % 0x800_0000, fine % 0x2000;
    DivModUnique(c * 0x2000 + f, 0x2000, c, f);
    SignExtendRoundTrip(coarse, 0x800_0000, c);
    SignExtendRoundTrip(fine, 0x2000, f);
  }

  lemma TruncationBelowOne(a: int, d: int)
    requires d > 0
    ensures -1.0 < a as real / d as real - TDiv(a, d) as real < 1.0
  {
    var q := TDiv(a, d);
    var r := a - q * d;
    QuotientPlusRest(a, d, q, r);
    assert (r as real / d as real) * d as real == r as real;
  }

  lemma QuotientPlusRest(a: int, d: int, q: int, r: int)
    requires d > 0 && a == q * d + r && -d < r < d
    ensures a as real / d as real == q as real + r as real / d as real
    ensures -1.0 < r as real / d as real < 1.0
  {
    assert a as real == q as real * d as real + r as real;
    assert (q as real * d as real + r as real) / d as real == q as real + r as real / d as real;
  }

  /** Main result: no 64-bit step overflows, and the offset in ns is within 2 of the exact one
      for every reading and every pair of frequencies. */
  lemma MeasurementWithinTwo(reading: nat, timeRef: nat, tdcApll: nat)
    requires timeRef > 0 && tdcApll > 0
    ensures S64(Coarse(reading) * NSEC_PER_SEC) == Coarse(reading) * NSEC_PER_SEC
    ensures S64(Fine(reading) * NSEC_PER_SEC) == Fine(reading) * NSEC_PER_SEC
    ensures var exact := (Coarse(reading) * NSEC_PER_SEC) as real / timeRef as real
                       + (Fine(reading) * NSEC_PER_SEC) as real / (tdcApll * 62) as real;
            -2.0 < exact - Meas2Offset(reading, timeRef, tdcApll) as real < 2.0
  {
    TruncationBelowOne(Coarse(reading) * NSEC_PER_SEC, timeRef);
    TruncationBelowOne(Fine(reading) * NSEC_PER_SEC, tdcApll * 62);
  }
}
