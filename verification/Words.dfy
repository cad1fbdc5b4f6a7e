/** Frequency words: the PHC drivers encode a frequency offset, the misc drivers read it
    back with constants of their own. */
module FrequencyWord {
  import opened CInt

  datatype Part = Sabre | ClockMatrix {
    function Numerator(): nat { if Sabre? then 762939453125 else 244140625 }
    function Divisor(): nat { if Sabre? then 8430756 else 1776 }
    function Bytes(): nat { if Sabre? then 5 else 6 }
    /** The PHC accepts up to 92000 ppb and 244000 ppb. */
    function MaxScaledPpm(): nat { if Sabre? then 6029312 else 15990784 }
    /** The largest offset whose word fits the documented signed field of 40 or 42 bits. */
    function LastThatFits(): nat { if Sabre? then 6074999 else 15996785 }
    function HalfRange(): int { if Sabre? then 0x80_0000_0000 else 0x200_0000_0000 }
  }

  /** The word on unbounded integers, and as the driver computes it in 64 bits. */
  function TrueWord(part: Part, scaledPpm: int): int { TDiv(scaledPpm * part.Numerator(), part.Divisor()) }

  function Word(part: Part, scaledPpm: int): int { TDiv(S64(scaledPpm * part.Numerator()), part.Divisor()) }

  function Encode(part: Part, scaledPpm: int): (b: seq<byte>)
    ensures |b| == part.Bytes()
  {
    LeBytes(Word(part, scaledPpm), part.Bytes())
  }

  /** The misc driver's sign extension: bit 39 of five bytes, bit 47 of six. */
  function Decode(part: Part, buf: seq<byte>): int
    requires |buf| == part.Bytes()
  {
    SignExtend(LeValue(buf), if part.Sabre? then 0x100_0000_0000 else 0x1_0000_0000_0000)
  }

  /** The fractional frequency offset the misc driver reports. */
  function Ffo(part: Part, buf: seq<byte>): int
    requires |buf| == part.Bytes()
  {
    if part.Sabre? then TDiv(S64(Decode(part, buf) * 2107689), 12500) else S64(Decode(part, buf) * 111)
  }

  /** The conversion both _adjfine functions start with. */
  method EncodeFrequency(part: Part, scaledPpm: int) returns (buf: array<byte>)
    ensures fresh(buf) && buf[..] == Encode(part, scaledPpm)
  {
    var n := part.Bytes();
    buf := new byte[n];
    var fcw := S64(scaledPpm * part.Numerator());
    fcw := TDiv(fcw, part.Divisor());
    StoreLe(buf, 0, fcw, n);
    assert buf[..] == buf[0..n];
  }

  /** An offset fits the register field exactly up to a bound just above what the PHC accepts;
      up to there the product does not leave 64 bits. */
  lemma WordFits(part: Part, scaledPpm: int)
    ensures -part.HalfRange() <= TrueWord(part, scaledPpm) < part.HalfRange() <==> Abs(scaledPpm) <= part.LastThatFits()
    ensures Abs(scaledPpm) <= part.LastThatFits() ==> Word(part, scaledPpm) == TrueWord(part, scaledPpm)
    ensures part.MaxScaledPpm() <= part.LastThatFits()
  {
    var q := TrueWord(part, scaledPpm);
    assert Abs(scaledPpm * part.Numerator() - q * part.Divisor()) < part.Divisor();
  }

  lemma FieldWidths()
    ensures Pow256(5) == 0x100_0000_0000 && Pow256(6) == 0x1_0000_0000_0000
  {
    assert Pow256(3) == 0x100_0000;
  }

  /** The Sabre's five bytes give the word back exactly for the offsets that fit; the
      ClockMatrix has six bytes, so every offset the PHC accepts comes back. */
  lemma FrequencyRoundTrip(part: Part, scaledPpm: int)
    ensures part.Sabre? ==>
              (Decode(part, Encode(part, scaledPpm)) == TrueWord(part, scaledPpm) <==>
                 Abs(scaledPpm) <= part.LastThatFits())
    ensures Abs(scaledPpm) <= part.LastThatFits() ==>
              Decode(part, Encode(part, scaledPpm)) == TrueWord(part, scaledPpm)
  {
    FieldWidths();
    WordFits(part, scaledPpm);
    LeSignedRoundTrip(Word(part, scaledPpm), part.Bytes());
  }

  /** Different offsets that fit have different bytes. */
  lemma EncodeInjective(part: Part, x: int, y: int)
    requires Abs(x) <= part.LastThatFits() && Abs(y) <= part.LastThatFits() && Encode(part, x) == Encode(part, y)
    ensures x == y
  {
    FrequencyRoundTrip(part, x);
    FrequencyRoundTrip(part, y);
    var w := TrueWord(part, x);
    assert w == TrueWord(part, y);
    assert Abs(x * part.Numerator() - w * part.Divisor()) < part.Divisor();
    assert Abs(y * part.Numerator() - w * part.Divisor()) < part.Divisor();
  }

  /** Main result: the two drivers' constants cancel. What the misc driver reports for the
      word the PHC wrote is the offset in parts per 10^18, that is 5^12/16 per scaled ppm, up
      to the truncations of the two drivers. On a ClockMatrix the misc driver reads the filter
      status, which is taken to hold the word in force. */
  lemma FfoMatchesFrequency(part: Part, scaledPpm: int)
    requires Abs(scaledPpm) <= part.LastThatFits()
    ensures part.Sabre? ==> Abs(50000 * Ffo(part, Encode(part, scaledPpm)) - 762939453125 * scaledPpm) < 8480756
    ensures part.ClockMatrix? ==> Abs(16 * Ffo(part, Encode(part, scaledPpm)) - 244140625 * scaledPpm) < 1776
  {
    WordFits(part, scaledPpm);
    FrequencyRoundTrip(part, scaledPpm);
    var w := TrueWord(part, scaledPpm);
    assert Abs(scaledPpm * part.Numerator() - w * part.Divisor()) < part.Divisor();
    if part.Sabre? {
      var f := TDiv(w * 2107689, 12500);
      assert Abs(w * 2107689 - f * 12500) < 12500;
    }
  }
}

/** Phase words: one register field each for the write-phase modes. */
module PhaseWord {
  import opened CInt

  const SABRE_LIMIT_FS := 20000052084
  const SABRE_RESOLUTION := 74506
  const CM_LIMIT_PS := 107374182350

  /** The Sabre register value for an offset in ns; the negation is done in 32 bits. */
  function Sabre(offsetNs: int): int {
    TDiv(Clamp(S32(-offsetNs) * 1000000, SABRE_LIMIT_FS) * 1000, SABRE_RESOLUTION)
  }

  /** Three full bytes, five bits of the fourth, and the enable bit 7. */
  function SabreBytes(offsetNs: int): seq<byte> {
    var v := Sabre(offsetNs);
    [v % 256, v / 0x100 % 256, v / 0x10000 % 256, v / 0x1000000 % 32 + 128]
  }

  method SabreEncode(offsetNs: int) returns (val: array<byte>)
    requires -TWO_31 <= offsetNs < TWO_31
    ensures fresh(val) && val[..] == SabreBytes(offsetNs)
  {
    val := new byte[4];
    var offsetFs := S32(-offsetNs) * 1000000;
    if offsetFs > SABRE_LIMIT_FS {
      offsetFs := SABRE_LIMIT_FS;
    } else if offsetFs < -SABRE_LIMIT_FS {
      offsetFs := -SABRE_LIMIT_FS;
    }
    var regval := TDiv(offsetFs * 1000, SABRE_RESOLUTION);
    val[0] := regval % 256;
    val[1] := regval / 0x100 % 256;
    val[2] := regval / 0x10000 % 256;
    val[3] := regval / 0x1000000 % 32;
    val[3] := val[3] + 128;
    assert val[..] == [val[0], val[1], val[2], val[3]];
  }

  /** The signed 29-bit field of the four bytes. */
  function SabreField(b: seq<byte>): int
    requires |b| == 4
  {
    var (b0: int, b1: int, b2: int, b3: int) := (b[0], b[1], b[2], b[3]);
    SignExtend(b0 + 0x100 * b1 + 0x10000 * b2 + 0x1000000 * (b3 % 32), 0x2000_0000)
  }

  lemma SplitAt29Bits(v: int)
    ensures v % 256 + 0x100 * (v / 0x100 % 256) + 0x10000 * (v / 0x10000 % 256) + 0x1000000 * (v / 0x1000000 % 32)
         == v % 0x2000_0000
  {
    var v1 := v / 0x100;
    var v2 := v1 / 256;
    var v3 := v2 / 256;
    assert v / 0x10000 == v2 && v / 0x1000000 == v3;
    var r := v % 256 + 0x100 * (v1 % 256) + 0x10000 * (v2 % 256) + 0x1000000 * (v3 % 32);
    assert v == (v3 / 32) * 0x2000_0000 + r;
    DivModUnique(v, 0x2000_0000, v3 / 32, r);
  }

  lemma FieldOfBytes(v: int)
    requires Abs(v) <= 0xFFF_FFFF
    ensures SabreField([v % 256, v / 0x100 % 256, v / 0x10000 % 256, v / 0x1000000 % 32 + 128]) == v
  {
    assert (v / 0x1000000 % 32 + 128) % 32 == v / 0x1000000 % 32;
    SplitAt29Bits(v);
    SignExtendRoundTrip(v, 0x2000_0000, v % 0x2000_0000);
  }

  /** Main result: the clamp lands exactly on 2^28 - 1, so for every 32-bit offset the field
      reads back as the value written and the enable bit is set, never disturbed. */
  lemma SabrePhaseNeverSpills(offsetNs: int)
    requires -TWO_31 <= offsetNs < TWO_31
    ensures Abs(Sabre(offsetNs)) <= 0xFFF_FFFF
    ensures SabreField(SabreBytes(offsetNs)) == Sabre(offsetNs)
    ensures SabreBytes(offsetNs)[3] / 128 == 1 && SabreBytes(offsetNs)[3] / 32 % 4 == 0
    ensures Abs(offsetNs) >= 20001 && offsetNs != -TWO_31 ==> Abs(Sabre(offsetNs)) == 0xFFF_FFFF
  {
    var v := Sabre(offsetNs);
    SabreBound(offsetNs);
    FieldOfBytes(v);
  }

  /** Main result: below the clamp the field denotes the phase asked for, with the sign turned, to
      less than one unit of 74.506 fs. */
  lemma SabrePhaseDenotes(offsetNs: int)
    requires Abs(offsetNs) <= 20000
    ensures Abs(1_000_000_000 * offsetNs + 74506 * SabreField(SabreBytes(offsetNs))) < 74506
  {
    SabrePhaseNeverSpills(offsetNs);
    var fs := Clamp(S32(-offsetNs) * 1000000, SABRE_LIMIT_FS);
    assert fs == -1000000 * offsetNs;
    assert Abs(fs * 1000 - Sabre(offsetNs) * SABRE_RESOLUTION) < SABRE_RESOLUTION;
  }

  lemma SabreBound(offsetNs: int)
    requires -TWO_31 <= offsetNs < TWO_31
    ensures Abs(Sabre(offsetNs)) <= 0xFFF_FFFF
    ensures Abs(offsetNs) >= 20001 && offsetNs != -TWO_31 ==> Abs(Sabre(offsetNs)) == 0xFFF_FFFF
  {
    var fs := Clamp(S32(-offsetNs) * 1000000, SABRE_LIMIT_FS);
    assert Abs(fs * 1000 - Sabre(offsetNs) * SABRE_RESOLUTION) < SABRE_RESOLUTION;
  }

  /** The register runs against the offset, monotonically, except at the most negative offset,
      whose 32-bit negation is itself. */
  lemma SabrePhaseOrder(a: int, b: int)
    requires -TWO_31 <= a <= b < TWO_31
    ensures a != -TWO_31 || b == a ==> Sabre(b) <= Sabre(a)
    ensures a < 0 ==> (Sabre(a) >= 0 <==> a != -TWO_31)
  {
    if a != -TWO_31 {
      var from, to := Clamp(-b * 1000000, SABRE_LIMIT_FS), Clamp(-a * 1000000, SABRE_LIMIT_FS);
      TDivMonotone(from * 1000, to * 1000, SABRE_RESOLUTION);
    } else {
      assert S32(-a) == -TWO_31;
    }
  }

  function ClockMatrix(deltaNs: int): int { TDiv(Clamp(deltaNs * 1000, CM_LIMIT_PS), 50) }

  method ClockMatrixEncode(deltaNs: int) returns (buf: array<byte>)
    requires -TWO_31 <= deltaNs < TWO_31
    ensures fresh(buf) && buf[..] == LeBytes(ClockMatrix(deltaNs), 4)
  {
    buf := new byte[4];
    var offsetPs := deltaNs * 1000;
    if offsetPs > CM_LIMIT_PS {
      offsetPs := CM_LIMIT_PS;
    } else if offsetPs < -CM_LIMIT_PS {
      offsetPs := -CM_LIMIT_PS;
    }
    StoreLe(buf, 0, TDiv(offsetPs, 50), 4);
    assert buf[..] == buf[0..4];
  }

  /** Main result: the clamp lands exactly on 2^31 - 1; the register holds 20 units per ns,
      clamped, with nothing lost to the division, and its four bytes read back as that. */
  lemma ClockMatrixPhaseExact(deltaNs: int)
    ensures ClockMatrix(deltaNs) == Clamp(20 * deltaNs, 0x7FFF_FFFF)
    ensures SignExtend(LeValue(LeBytes(ClockMatrix(deltaNs), 4)), TWO_32) == Clamp(20 * deltaNs, 0x7FFF_FFFF)
  {
    var c := Clamp(20 * deltaNs, 0x7FFF_FFFF);
    TDivUnique(Clamp(deltaNs * 1000, CM_LIMIT_PS), 50, c);
    LeSignedRoundTrip(c, 4);
    assert Pow256(4) == TWO_32;
  }
}

/** Time-of-day buffers: nanoseconds in four bytes and seconds in six; a ClockMatrix buffer
    starts with a byte of sub-nanoseconds. */
module TimeOfDay {
  import opened CInt

  const NSEC_PER_SEC := 1_000_000_000

  datatype Timespec = Timespec(sec: int, nsec: int)

  datatype Layout = ClockMatrix | Sabre {
    function Skip(): nat { if ClockMatrix? then 1 else 0 }
    function Bytes(): nat { Skip() + 10 }
  }

  function NsToTimespec(ns: int): Timespec { Timespec(ns / NSEC_PER_SEC, ns % NSEC_PER_SEC) }

  function ToNs(ts: Timespec): int { ts.sec * NSEC_PER_SEC + ts.nsec }

  function Encode(layout: Layout, ts: Timespec): (b: seq<byte>)
    ensures |b| == layout.Bytes()
  {
    seq(layout.Skip(), _ => 0) + LeBytes(S32(ts.nsec), 4) + LeBytes(ts.sec, 6)
  }

  /** The ClockMatrix reads unsigned nanoseconds, the Sabre a signed 32-bit number. */
  function Decode(layout: Layout, b: seq<byte>): Timespec
    requires |b| == layout.Bytes()
  {
    var k := layout.Skip();
    var nsec := LeValue(b[k..k + 4]);
    Timespec(LeValue(b[k + 4..k + 10]), if layout.ClockMatrix? then nsec else S32(nsec))
  }

  method TimespecToBytes(layout: Layout, ts: Timespec, buf: array<byte>) returns (err: int)
    modifies buf
    ensures err == (if buf.Length < layout.Bytes() then 1 else 0)
    ensures err == 0 ==> buf[..layout.Bytes()] == Encode(layout, ts)
    ensures err != 0 ==> buf[..] == old(buf[..])
  {
    if buf.Length < layout.Bytes() { return 1; }
    var k := layout.Skip();
    if layout.ClockMatrix? {
      buf[0] := 0;
    }
    StoreLe(buf, k, S32(ts.nsec), 4);
    ghost var head := buf[..k + 4];
    assert head == seq(k, _ => 0) + LeBytes(S32(ts.nsec), 4) by {
      assert head == buf[..k] + buf[k..k + 4];
      assert buf[..k] == seq(k, _ => 0);
    }
    StoreLe(buf, k + 4, ts.sec, 6);
    assert buf[..k + 10] == head + buf[k + 4..k + 10];
    err := 0;
  }

  method BytesToTimespec(layout: Layout, buf: array<byte>) returns (err: int, ts: Timespec)
    ensures err == (if buf.Length < layout.Bytes() then 1 else 0)
    ensures err == 0 ==> ts == Decode(layout, buf[..layout.Bytes()])
  {
    ts := Timespec(0, 0);
    if buf.Length < layout.Bytes() { return 1, ts; }
    var k := layout.Skip();
    var nsec := LoadLe(buf, k, 4);
    var sec := LoadLe(buf, k + 4, 6);
    ghost var b := buf[..layout.Bytes()];
    assert b[k..k + 4] == buf[k..k + 4] && b[k + 4..k + 10] == buf[k + 4..k + 10];
    ts := Timespec(sec, if layout.ClockMatrix? then nsec else S32(nsec));
    err := 0;
  }

  /** Where the fields are: nanoseconds from byte 1 of a ClockMatrix buffer, whose byte 0 is 0,
      and from byte 0 of a Sabre buffer; the seconds in the six bytes after them. */
  lemma FieldPositions(layout: Layout, ts: Timespec, i: nat)
    requires 0 <= ts.nsec < TWO_31
    ensures var b := Encode(layout, ts);
            && |b| == (if layout.ClockMatrix? then 11 else 10)
            && (layout.ClockMatrix? ==> b[0] == 0)
            && (i < 4 ==> b[if layout.ClockMatrix? then 1 + i else i] == ts.nsec / Pow256(i) % 256)
            && (i < 6 ==> b[if layout.ClockMatrix? then 5 + i else 4 + i] == ts.sec / Pow256(i) % 256)
  {
    if i < 4 {
      LeByteAt(ts.nsec, 4, i);
    }
    if i < 6 {
      LeByteAt(ts.sec, 6, i);
    }
  }

  lemma S32Residue(n: int)
    ensures S32(n) % TWO_32 == n % TWO_32
    ensures S32(n % TWO_32) == S32(n)
  {
    var m := n + TWO_31;
    assert m == (m / TWO_32) * TWO_32 + m % TWO_32;
    assert n == (n / TWO_32) * TWO_32 + n % TWO_32;
    DivModUnique(m, TWO_32, n / TWO_32 + (n % TWO_32 + TWO_31) / TWO_32, (n % TWO_32 + TWO_31) % TWO_32);
    var r := S32(n);
    assert r == n - (m / TWO_32) * TWO_32;
    DivModUnique(r, TWO_32, n / TWO_32 - m / TWO_32, n % TWO_32);
  }

  /** What the reader finds in the bytes of a timespec. */
  lemma DecodeEncode(layout: Layout, ts: Timespec)
    ensures Decode(layout, Encode(layout, ts)) ==
      Timespec(ts.sec % 0x1_0000_0000_0000, if layout.ClockMatrix? then ts.nsec % TWO_32 else S32(ts.nsec))
  {
    var k := layout.Skip();
    var b := Encode(layout, ts);
    assert b[k..k + 4] == LeBytes(S32(ts.nsec), 4) && b[k + 4..k + 10] == LeBytes(ts.sec, 6);
    LeRoundTrip(S32(ts.nsec), 4);
    LeRoundTrip(ts.sec, 6);
    assert Pow256(4) == TWO_32;
    assert Pow256(6) == 0x1_0000_0000_0000 by { assert Pow256(3) == 0x100_0000; }
    S32Residue(ts.nsec);
  }

  lemma ModFixed(x: int, m: int)
    requires m > 0
    ensures x % m == x <==> 0 <= x < m
  {
    if 0 <= x < m {
      DivModUnique(x, m, 0, x);
    }
  }

  lemma S32Fixed(x: int)
    ensures S32(x) == x <==> -TWO_31 <= x < TWO_31
  {
  }

  /** A time survives the buffer exactly when the seconds fit six bytes and the nanoseconds
      the width that the reader uses; every normalised time after 1970 is among them. */
  lemma TimeRoundTrip(layout: Layout, ts: Timespec)
    ensures Decode(layout, Encode(layout, ts)) == ts <==>
      && 0 <= ts.sec < 0x1_0000_0000_0000
      && (if layout.ClockMatrix? then 0 <= ts.nsec < TWO_32 else -TWO_31 <= ts.nsec < TWO_31)
  {
    DecodeEncode(layout, ts);
    ModFixed(ts.sec, 0x1_0000_0000_0000);
    ModFixed(ts.nsec, TWO_32);
    S32Fixed(ts.nsec);
  }

  datatype WriteType = Absolute | DeltaPlus | DeltaMinus

  /** What a step of the clock writes: the magnitude and the sign, computed in 64 bits. */
  function DeltaWrite(delta: int): (WriteType, Timespec) {
    if delta >= 0 then (DeltaPlus, NsToTimespec(delta)) else (DeltaMinus, NsToTimespec(S64(-delta)))
  }

  /** The signed number of nanoseconds that the hardware adds to its clock. */
  function Denotes(t: WriteType, ts: Timespec): int { if t.DeltaMinus? then -ToNs(ts) else ToNs(ts) }

  lemma SplitNs(d: int)
    ensures ToNs(NsToTimespec(d)) == d
    ensures 0 <= d < TWO_63 ==> 0 <= NsToTimespec(d).sec < 0x1_0000_0000_0000
    ensures 0 <= NsToTimespec(d).nsec < NSEC_PER_SEC
    ensures d < 0 ==> NsToTimespec(d).sec < 0
  {
  }

  lemma NegateMinimum(delta: int)
    requires -TWO_63 <= delta < 0
    ensures S64(-delta) == if delta == -TWO_63 then delta else -delta
  {
  }

  /** Main result: the bytes and the write type together denote the requested step, exactly
      for every 64-bit step but the most negative one. */
  lemma DeltaCarriedExactly(delta: int)
    requires -TWO_63 <= delta < TWO_63
    ensures Denotes(DeltaWrite(delta).0, Decode(ClockMatrix, Encode(ClockMatrix, DeltaWrite(delta).1))) == delta
      <==> delta != -TWO_63
  {
    if delta < 0 {
      NegateMinimum(delta);
    }
    var d := if delta >= 0 then delta else S64(-delta);
    var ts := NsToTimespec(d);
    SplitNs(d);
    DecodeEncode(ClockMatrix, ts);
    ModFixed(ts.sec, 0x1_0000_0000_0000);
    ModFixed(ts.nsec, TWO_32);
    var got := Decode(ClockMatrix, Encode(ClockMatrix, ts));
    assert got == Timespec(ts.sec % 0x1_0000_0000_0000, ts.nsec);
    assert ToNs(got) >= 0;
  }
}
