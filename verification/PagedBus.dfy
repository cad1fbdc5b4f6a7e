/** The paged register transports of rsmu_i2c.c and rsmu_spi.c. A device shows only one
    window of its address space at a time; the page register that selects the window is
    itself mapped into the last bytes of every window. The driver caches the page it
    selected last and skips the page write when the cache matches.

    The bus adapter is a parameter: every device transfer comes with the error code it
    returns, 0 for success. A transfer that fails leaves the device unchanged. */
module PagedBus {
  import opened CInt

  const SCSR_BASE := 0x2010_0000

  datatype Transport = I2cClockMatrix | SpiClockMatrix | SpiSabre {
    function Window(): nat { if I2cClockMatrix? then 256 else 128 }
    function PageReg(): nat { match this case I2cClockMatrix => 0xFC case SpiClockMatrix => 0x7C case SpiSabre => 0x7F }
    function PageBytes(): nat { if SpiSabre? then 1 else 4 }
  }

  /** The hardware behind the bus: the page register and the byte memory. */
  datatype Chip = Chip(pageReg: seq<byte>, mem: map<nat, byte>)

  /** The cached page of the driver, and the chip. */
  datatype Bus = Bus(page: nat, chip: Chip)

  function Peek(mem: map<nat, byte>, a: nat): byte { if a in mem then mem[a] else 0 }

  predicate ValidChip(t: Transport, c: Chip) { |c.pageReg| == t.PageBytes() }

  /** Address of the first byte of the window that the page register selects. */
  function Base(t: Transport, c: Chip): nat
    requires ValidChip(t, c)
  {
    if t.SpiSabre? then c.pageReg[0] % 8 * 128 else LeValue(c.pageReg) / t.Window() * t.Window()
  }

  function ChipStore(t: Transport, c: Chip, offset: nat, b: byte): (r: Chip)
    requires ValidChip(t, c)
    ensures ValidChip(t, r)
  {
    if t.PageReg() <= offset < t.PageReg() + t.PageBytes()
    then c.(pageReg := c.pageReg[offset - t.PageReg() := b])
    else c.(mem := c.mem[Base(t, c) + offset := b])
  }

  function ChipLoad(t: Transport, c: Chip, offset: nat): byte
    requires ValidChip(t, c)
  {
    if t.PageReg() <= offset < t.PageReg() + t.PageBytes()
    then c.pageReg[offset - t.PageReg()]
    else Peek(c.mem, Base(t, c) + offset)
  }

  /** A burst write: the device advances its offset after every byte. */
  function ChipWrite(t: Transport, c: Chip, offset: nat, buf: seq<byte>): (r: Chip)
    requires ValidChip(t, c)
    ensures ValidChip(t, r)
    decreases |buf|
  {
    if buf == [] then c else ChipWrite(t, ChipStore(t, c, offset, buf[0]), offset + 1, buf[1..])
  }

  function PageOf(t: Transport, reg: nat): nat { reg / t.Window() * t.Window() }

  function Offset(t: Transport, reg: nat): nat { reg % t.Window() }

  /** Registers below the SCSR block, and Sabre's page register, are reached without
      touching the page. */
  predicate NeedsPage(t: Transport, reg: nat) {
    if t.SpiSabre? then reg % 128 != 127 else reg >= SCSR_BASE
  }

  function PageBuffer(t: Transport, page: nat): (b: seq<byte>)
    ensures |b| == t.PageBytes()
  {
    match t
    case I2cClockMatrix => [0, page / 0x100 % 256, page / 0x10000 % 256, page / 0x1000000 % 256]
    case SpiClockMatrix => [page % 256, page / 0x100 % 256, page / 0x10000 % 256, page / 0x1000000 % 256]
    case SpiSabre => [page / 128 % 8]
  }

  function SelectPage(t: Transport, s: Bus, reg: nat, pageErr: int): (r: (Bus, int))
    requires ValidChip(t, s.chip)
    ensures ValidChip(t, r.0.chip)
  {
    var page := PageOf(t, reg);
    if !NeedsPage(t, reg) || s.page == page then (s, 0)
    else if pageErr != 0 then (s, pageErr)
    else (Bus(page, ChipWrite(t, s.chip, t.PageReg(), PageBuffer(t, page))), 0)
  }

  // ---- One access, and what it means on a flat register map ----

  datatype Access =
    | Read(reg: nat, pageErr: int, ioErr: int)
    | Write(reg: nat, val: byte, pageErr: int, ioErr: int)

  datatype Outcome = Failed(err: int) | Got(val: byte) | Stored

  function Step(t: Transport, s: Bus, a: Access): (r: (Bus, Outcome))
    requires ValidChip(t, s.chip)
    ensures ValidChip(t, r.0.chip)
  {
    var (s1, err) := SelectPage(t, s, a.reg, a.pageErr);
    if err != 0 then (s1, Failed(err))
    else if a.ioErr != 0 then (s1, Failed(a.ioErr))
    else match a
      case Read(reg, _, _) => (s1, Got(ChipLoad(t, s1.chip, Offset(t, reg))))
      case Write(reg, val, _, _) => (s1.(chip := ChipStore(t, s1.chip, Offset(t, reg), val)), Stored)
  }

  function Run(t: Transport, s: Bus, accesses: seq<Access>): (r: (Bus, seq<Outcome>))
    requires ValidChip(t, s.chip)
    ensures ValidChip(t, r.0.chip) && |r.1| == |accesses|
    decreases |accesses|
  {
    if accesses == [] then (s, [])
    else
      var (s1, o) := Step(t, s, accesses[0]);
      var (s2, os) := Run(t, s1, accesses[1..]);
      (s2, [o] + os)
  }

  /** The registers the drivers use: inside the device, outside the page register. */
  predicate Legal(t: Transport, reg: nat) {
    && (if t.SpiSabre? then reg < 0x400 else SCSR_BASE <= reg < TWO_32)
    && Offset(t, reg) < t.PageReg()
  }

  /** The cache is right. On a ClockMatrix 0 stands for "not known"; on a Sabre 0 is a real
      page, selected at reset. */
  ghost predicate Coherent(t: Transport, s: Bus) {
    && ValidChip(t, s.chip)
    && (s.page != 0 || t.SpiSabre? ==> Base(t, s.chip) == s.page)
  }

  /** The contents of a flat register map after the accesses. */
  function FlatMem(mem: map<nat, byte>, accesses: seq<Access>, outs: seq<Outcome>): map<nat, byte>
    requires |accesses| == |outs|
    decreases |accesses|
  {
    if accesses == [] then mem
    else
      var a := accesses[0];
      FlatMem(if a.Write? && outs[0].Stored? then mem[a.reg := a.val] else mem, accesses[1..], outs[1..])
  }

  /** The outcomes are those of a flat register map: an access fails with an error that the bus
      reported for it, always if its transfer failed, and never without an error. An error of the
      page write does not show when the page is not written. */
  ghost predicate FlatTrace(mem: map<nat, byte>, accesses: seq<Access>, outs: seq<Outcome>)
    decreases |accesses|
  {
    && |accesses| == |outs|
    && (accesses != [] ==>
        var a, o := accesses[0], outs[0];
        && (o.Failed? ==> o.err != 0 && (o.err == a.pageErr || o.err == a.ioErr))
        && (a.pageErr == 0 == a.ioErr ==> !o.Failed?)
        && (a.ioErr != 0 ==> o.Failed?)
        && (a.Read? && !o.Failed? ==> o == Got(Peek(mem, a.reg)))
        && (a.Write? && !o.Failed? ==> o == Stored)
        && FlatTrace(if a.Write? && o.Stored? then mem[a.reg := a.val] else mem, accesses[1..], outs[1..]))
  }

  // ---- Refinement ----

  lemma FourByteValue(a: byte, b: byte, c: byte, d: byte)
    ensures LeValue([a, b, c, d]) == a as int + 0x100 * b as int + 0x10000 * c as int + 0x1000000 * d as int
  {
    LeBytesSplit([], d);
    LeBytesSplit([d], c);
    LeBytesSplit([c, d], b);
    LeBytesSplit([b, c, d], a);
    assert [c] + [d] == [c, d] && [b] + [c, d] == [b, c, d] && [a] + [b, c, d] == [a, b, c, d];
  }

  lemma FourBytes(v: nat)
    requires v < TWO_32
    ensures LeValue([v % 256, v / 0x100 % 256, v / 0x10000 % 256, v / 0x1000000 % 256]) == v
  {
    FourByteValue(v % 256, v / 0x100 % 256, v / 0x10000 % 256, v / 0x1000000 % 256);
    var v1, v2, v3 := v / 0x100, v / 0x10000, v / 0x1000000;
    assert v2 == v1 / 256 && v3 == v2 / 256 && v3 < 256;
  }

  lemma Aligned(reg: nat, w: nat)
    requires w > 0
    ensures (reg / w * w) / w == reg / w && (reg / w * w) % w == 0 && reg / w * w <= reg < reg / w * w + w
  {
    DivModUnique(reg / w * w, w, reg / w, 0);
    assert reg == reg / w * w + reg % w;
  }

  /** The bytes the driver writes to the page register select the register's page. */
  lemma BufferSelectsPage(t: Transport, reg: nat, mem: map<nat, byte>)
    requires Legal(t, reg)
    ensures Base(t, Chip(PageBuffer(t, PageOf(t, reg)), mem)) == PageOf(t, reg)
    ensures !t.SpiSabre? ==> PageOf(t, reg) != 0
  {
    var page := PageOf(t, reg);
    Aligned(reg, t.Window());
    if t.SpiSabre? {
      assert page / 128 < 8;
    } else {
      FourBytes(page);
      assert LeValue(PageBuffer(t, page)) == page;
    }
  }

  /** The burst that rewrites the page register selects the page and touches no memory. */
  lemma {:induction false} BurstSelects(t: Transport, c: Chip, buf: seq<byte>, k: nat)
    requires ValidChip(t, c) && |buf| == t.PageBytes() && k <= |buf| && c.pageReg[..k] == buf[..k]
    ensures ChipWrite(t, c, t.PageReg() + k, buf[k..]) == Chip(buf, c.mem)
    decreases |buf| - k
  {
    if k == |buf| {
      assert c.pageReg == c.pageReg[..k] && buf == buf[..k];
    } else {
      var c' := ChipStore(t, c, t.PageReg() + k, buf[k]);
      assert c'.pageReg == c.pageReg[k := buf[k]];
      assert c'.pageReg[..k + 1] == c.pageReg[..k] + [buf[k]];
      assert buf[..k + 1] == buf[..k] + [buf[k]];
      BurstSelects(t, c', buf, k + 1);
      assert buf[k..][1..] == buf[k + 1..];
    }
  }

  /** After a successful page selection the window shows the register's page, whatever the
      device showed before; the memory is as it was. */
  lemma SelectionIsRight(t: Transport, s: Bus, reg: nat, pageErr: int)
    requires Coherent(t, s) && Legal(t, reg)
    ensures var (s1, err) := SelectPage(t, s, reg, pageErr);
            && Coherent(t, s1) && s1.chip.mem == s.chip.mem
            && (err == 0 ==> s1.page == PageOf(t, reg) == Base(t, s1.chip))
            && (err != 0 ==> err == pageErr && s1 == s)
  {
    var page := PageOf(t, reg);
    BufferSelectsPage(t, reg, s.chip.mem);
    BurstSelects(t, s.chip, PageBuffer(t, page), 0);
    assert PageBuffer(t, page)[0..] == PageBuffer(t, page);
  }

  /** One access to a legal register through the paged bus is one access to a flat map. */
  lemma StepIsFlat(t: Transport, s: Bus, a: Access)
    requires Coherent(t, s) && Legal(t, a.reg)
    ensures Coherent(t, Step(t, s, a).0)
    ensures Step(t, s, a).0.chip.mem == FlatMem(s.chip.mem, [a], [Step(t, s, a).1])
    ensures FlatTrace(s.chip.mem, [a], [Step(t, s, a).1])
  {
    SelectionIsRight(t, s, a.reg, a.pageErr);
    assert PageOf(t, a.reg) + Offset(t, a.reg) == a.reg;
  }

  /** Main result: over every sequence of accesses to legal registers, with arbitrary bus
      errors, the paged transport behaves as one flat register map. */
  lemma {:induction false} PagedBusRefinesFlatMap(t: Transport, s: Bus, accesses: seq<Access>)
    requires Coherent(t, s)
    requires forall a | a in accesses :: Legal(t, a.reg)
    ensures var (s', outs) := Run(t, s, accesses);
            Coherent(t, s') && s'.chip.mem == FlatMem(s.chip.mem, accesses, outs)
            && FlatTrace(s.chip.mem, accesses, outs)
    decreases |accesses|
  {
    if accesses != [] {
      StepIsFlat(t, s, accesses[0]);
      PagedBusRefinesFlatMap(t, Step(t, s, accesses[0]).0, accesses[1..]);
    }
  }

  /** What a flat trace promises to a caller: a successful read returns the last value
      successfully written to that register, or the initial contents if there is none. */
  lemma {:induction false} ReadReturnsLastWrite(mem: map<nat, byte>, accesses: seq<Access>, outs: seq<Outcome>, i: nat)
    requires FlatTrace(mem, accesses, outs)
    requires i < |accesses| && accesses[i].Read? && !outs[i].Failed?
    ensures outs[i].Got?
    ensures forall j | 0 <= j < i && accesses[j].Write? && accesses[j].reg == accesses[i].reg && outs[j].Stored?
              && (forall k | j < k < i ::
                    !(accesses[k].Write? && accesses[k].reg == accesses[i].reg && outs[k].Stored?))
              :: outs[i].val == accesses[j].val
    ensures (forall k | 0 <= k < i :: !(accesses[k].Write? && accesses[k].reg == accesses[i].reg && outs[k].Stored?))
              ==> outs[i].val == Peek(mem, accesses[i].reg)
    decreases i
  {
    if i > 0 {
      var a := accesses[0];
      var mem' := if a.Write? && outs[0].Stored? then mem[a.reg := a.val] else mem;
      var rest, outs' := accesses[1..], outs[1..];
      ReadReturnsLastWrite(mem', rest, outs', i - 1);
      assert forall k | 0 <= k < |rest| :: rest[k] == accesses[k + 1] && outs'[k] == outs[k + 1];
      assert forall k | 0 < k < |accesses| :: accesses[k] == rest[k - 1] && outs[k] == outs'[k - 1];
    }
  }

  /** Flat traces over the same memory that fail at the same accesses are equal. */
  lemma {:induction false} FlatTraceUnique(mem: map<nat, byte>, xs: seq<Access>, ys: seq<Access>,
                                           os: seq<Outcome>, ps: seq<Outcome>)
    requires FlatTrace(mem, xs, os) && FlatTrace(mem, ys, ps) && |xs| == |ys|
    requires forall i | 0 <= i < |xs| :: SameOperation(xs[i], ys[i])
    requires forall i | 0 <= i < |xs| :: os[i].Failed? == ps[i].Failed?
    ensures forall i | 0 <= i < |xs| && !os[i].Failed? :: os[i] == ps[i]
    ensures FlatMem(mem, xs, os) == FlatMem(mem, ys, ps)
    decreases |xs|
  {
    if xs != [] {
      assert SameOperation(xs[0], ys[0]) && os[0].Failed? == ps[0].Failed?;
      var mem' := if xs[0].Write? && os[0].Stored? then mem[xs[0].reg := xs[0].val] else mem;
      FlatTraceUnique(mem', xs[1..], ys[1..], os[1..], ps[1..]);
      assert forall i | 0 < i < |xs| && !os[i].Failed? :: os[i] == os[1..][i - 1] && ps[i] == ps[1..][i - 1];
    }
  }

  predicate SameOperation(x: Access, y: Access) {
    match x
    case Read(reg, _, _) => y.Read? && y.reg == reg
    case Write(reg, val, _, _) => y.Write? && y.reg == reg && y.val == val
  }

  lemma LegalOnBoth(reg: nat)
    requires Legal(SpiClockMatrix, reg)
    ensures Legal(I2cClockMatrix, reg)
  {
    var m := reg % 256;
    assert reg == reg / 256 * 256 + m;
    if m < 128 {
      DivModUnique(reg, 128, reg / 256 * 2, m);
    } else {
      DivModUnique(reg, 128, reg / 256 * 2 + 1, m - 128);
    }
  }

  /** The 256-byte I2C window and the 128-byte SPI window implement the same map: the same
      operations that fail at the same places return the same values and leave the same
      memory, although the two transports select pages at different times. */
  lemma TransportsAgree(i2c: Bus, spi: Bus, xs: seq<Access>, ys: seq<Access>)
    requires Coherent(I2cClockMatrix, i2c) && Coherent(SpiClockMatrix, spi) && i2c.chip.mem == spi.chip.mem
    requires |xs| == |ys| && forall i | 0 <= i < |xs| :: SameOperation(xs[i], ys[i]) && Legal(SpiClockMatrix, xs[i].reg)
    requires forall i | 0 <= i < |xs| ::
               Run(I2cClockMatrix, i2c, xs).1[i].Failed? == Run(SpiClockMatrix, spi, ys).1[i].Failed?
    ensures forall i | 0 <= i < |xs| && !Run(I2cClockMatrix, i2c, xs).1[i].Failed? ::
              Run(I2cClockMatrix, i2c, xs).1[i] == Run(SpiClockMatrix, spi, ys).1[i]
    ensures Run(I2cClockMatrix, i2c, xs).0.chip.mem == Run(SpiClockMatrix, spi, ys).0.chip.mem
  {
    forall a | a in xs ensures Legal(I2cClockMatrix, a.reg) { LegalOnBoth(a.reg); }
    forall a | a in ys ensures Legal(SpiClockMatrix, a.reg) {
      var i :| 0 <= i < |ys| && ys[i] == a;
      assert SameOperation(xs[i], ys[i]);
    }
    PagedBusRefinesFlatMap(I2cClockMatrix, i2c, xs);
    PagedBusRefinesFlatMap(SpiClockMatrix, spi, ys);
    FlatTraceUnique(i2c.chip.mem, xs, ys, Run(I2cClockMatrix, i2c, xs).1, Run(SpiClockMatrix, spi, ys).1);
  }

  /** Why coherence is needed, and all that is needed: with the register's page in the cache,
      a successful write reaches the register exactly when the device shows that page. A page
      write that takes effect although the adapter reports an error leaves the other case. */
  lemma WriteLandsExactlyWhenPageIsRight(t: Transport, s: Bus, reg: nat, val: byte)
    requires ValidChip(t, s.chip) && Legal(t, reg) && s.page == PageOf(t, reg)
    requires Peek(s.chip.mem, reg) != val
    ensures Peek(Step(t, s, Write(reg, val, 0, 0)).0.chip.mem, reg) == val <==> Base(t, s.chip) == s.page
  {
    assert PageOf(t, reg) + Offset(t, reg) == reg;
  }

  // ---- The driver ----

  class Rsmu {
    const transport: Transport
    var page: nat
    var chip: Chip

    ghost predicate Valid() reads this { ValidChip(transport, chip) }

    ghost function State(): Bus reads this { Bus(page, chip) }

    /** Probe: the driver data is zeroed; the device may show any page. A Sabre comes out of
        reset on page 0. */
    constructor (transport: Transport, chip: Chip)
      requires ValidChip(transport, chip) && (transport.SpiSabre? ==> Base(transport, chip) == 0)
      ensures this.transport == transport && this.chip == chip
      ensures Coherent(transport, State())
    {
      this.transport, this.page, this.chip := transport, 0, chip;
    }

    method WritePageRegister(reg: nat, pageErr: int) returns (err: int)
      requires Valid()
      modifies this
      ensures Valid() && (State(), err) == SelectPage(transport, old(State()), reg, pageErr)
    {
      var buf: seq<byte>;
      var newPage := reg / transport.Window() * transport.Window();
      match transport {
        case I2cClockMatrix =>
          if reg < SCSR_BASE { return 0; }
          buf := [0, newPage / 0x100 % 256, newPage / 0x10000 % 256, newPage / 0x1000000 % 256];
        case SpiClockMatrix =>
          if reg < SCSR_BASE { return 0; }
          buf := [newPage % 256, newPage / 0x100 % 256, newPage / 0x10000 % 256, newPage / 0x1000000 % 256];
        case SpiSabre =>
          if reg % 128 == 127 { return 0; }
          buf := [newPage / 128 % 8];
      }
      if page == newPage { return 0; }
      err := pageErr;
      if err == 0 {
        chip := ChipWrite(transport, chip, transport.PageReg(), buf);
        page := newPage;
      }
    }

    method RegRead(reg: nat, pageErr: int, ioErr: int) returns (err: int, val: byte)
      requires Valid()
      modifies this
      ensures Valid()
      ensures (State(), if err != 0 then Failed(err) else Got(val))
           == Step(transport, old(State()), Read(reg, pageErr, ioErr))
    {
      val := 0;
      err := WritePageRegister(reg, pageErr);
      if err != 0 { return; }
      err := ioErr;
      if err == 0 {
        val := ChipLoad(transport, chip, reg % transport.Window());
      }
    }

    method RegWrite(reg: nat, val: byte, pageErr: int, ioErr: int) returns (err: int)
      requires Valid()
      modifies this
      ensures Valid()
      ensures (State(), if err != 0 then Failed(err) else Stored)
           == Step(transport, old(State()), Write(reg, val, pageErr, ioErr))
    {
      err := WritePageRegister(reg, pageErr);
      if err != 0 { return; }
      err := ioErr;
      if err == 0 {
        chip := ChipStore(transport, chip, reg % transport.Window(), val);
      }
    }
  }
}
