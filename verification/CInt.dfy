/** C integer arithmetic as the drivers use it: division that truncates toward zero,
    conversion to fixed-width types, and little-endian byte buffers filled with
    `buf[i] = v & 0xff; v >>= 8`. Integers here are unbounded; every conversion that
    can lose bits is written out. */
module CInt {

  type byte = x: int | 0 <= x < 256

  const TWO_31 := 0x8000_0000
  const TWO_32 := 0x1_0000_0000
  const TWO_63 := 0x8000_0000_0000_0000
  const TWO_64 := 0x1_0000_0000_0000_0000

  function Abs(x: int): nat { if x < 0 then -x else x }

  function Clamp(x: int, limit: int): int {
    if x > limit then limit else if x < -limit then -limit else x
  }

  lemma NegateProduct(q: int, d: int)
    ensures (-q) * d == -(q * d)
  {
  }

  lemma Euclid(a: int, d: int)
    requires d > 0
    ensures a / d * d <= a < a / d * d + d
    ensures a >= 0 ==> a / d >= 0
  {
    assert a == a / d * d + a % d;
  }

  /** C division by a positive divisor: the remainder has the sign of the dividend. */
  function TDiv(a: int, d: int): (q: int)
    requires d > 0
    ensures Abs(a - q * d) < d
    ensures a >= 0 ==> 0 <= q && q * d <= a
    ensures a <= 0 ==> q <= 0 && a <= q * d
  {
    Euclid(Abs(a), d);
    NegateProduct(Abs(a) / d, d);
    if a >= 0 then Abs(a) / d else -(Abs(a) / d)
  }

  lemma MultipleGap(k: int, d: int)
    requires d > 0
    ensures k >= 1 ==> k * d >= d
    ensures k <= -1 ==> k * d <= -d
  {
    if k >= 1 {
      assert k * d == d + (k - 1) * d && (k - 1) * d >= 0;
    } else if k <= -1 {
      assert k * d == -d + (k + 1) * d && (k + 1) * d <= 0;
    }
  }

  /** The contract of TDiv determines its value. */
  lemma TDivUnique(a: int, d: int, q: int)
    requires d > 0 && Abs(a - q * d) < d
    requires a >= 0 ==> q * d <= a
    requires a <= 0 ==> a <= q * d
    ensures TDiv(a, d) == q
  {
    var p := TDiv(a, d);
    assert (p - q) * d == p * d - q * d;
    MultipleGap(p - q, d);
  }

  /** Halving a truncated quotient is the same as doubling the divisor. */
  lemma TDivHalve(a: int, m: int)
    requires m > 0
    ensures TDiv(TDiv(a, m), 2) == TDiv(a, 2 * m)
  {
    var q := TDiv(a, m);
    var h := TDiv(q, 2);
    var r := q - 2 * h;
    assert h * (2 * m) + r * m == q * m;
    assert r == 0 || r == 1 || r == -1;
    TDivUnique(a, 2 * m, h);
  }

  lemma QuotientMonotone(a: int, b: int, d: int, p: int, q: int)
    requires d > 0 && a <= b && Abs(a - p * d) < d && Abs(b - q * d) < d
    requires a >= 0 ==> p * d <= a
    requires b <= 0 ==> q <= 0 && b <= q * d
    requires a <= 0 ==> p <= 0
    requires b >= 0 ==> q >= 0
    ensures p <= q
  {
    assert (p - q) * d == p * d - q * d;
    MultipleGap(p - q, d);
  }

  /** Truncated division by a fixed divisor is monotone. */
  lemma TDivMonotone(a: int, b: int, d: int)
    requires d > 0 && a <= b
    ensures TDiv(a, d) <= TDiv(b, d)
  {
    QuotientMonotone(a, b, d, TDiv(a, d), TDiv(b, d));
  }

  /** Conversion to a signed 32-bit integer. */
  function S32(x: int): (r: int)
    ensures -TWO_31 <= r < TWO_31
    ensures (x - r) % TWO_32 == 0
    ensures -TWO_31 <= x < TWO_31 ==> r == x
  {
    (x + TWO_31) % TWO_32 - TWO_31
  }

  /** Conversion to a signed 64-bit integer. */
  function S64(x: int): (r: int)
    ensures -TWO_63 <= r < TWO_63
    ensures -TWO_63 <= x < TWO_63 ==> r == x
  {
    (x + TWO_63) % TWO_64 - TWO_63
  }

  /** The kernel's abs() of a signed 64-bit value: the minimum is its own absolute value. */
  function Abs64(x: int): int { S64(Abs(x)) }

  function Pow2(k: nat): (p: nat)
    ensures p >= 1
  {
    if k == 0 then 1 else 2 * Pow2(k - 1)
  }

  function Pow256(n: nat): (p: nat)
    ensures p >= 1
  {
    if n == 0 then 1 else 256 * Pow256(n - 1)
  }

  /** A register field of `span` values that starts at the bit of weight `low`:
      (reg >> shift) & mask, and (reg & ~(mask << shift)) | (v << shift). */
  function GetField(reg: int, low: nat, span: nat): int
    requires low > 0 && span > 0
  {
    reg / low % span
  }

  function SetField(reg: int, low: nat, span: nat, v: nat): int
    requires low > 0 && span > 0
  {
    reg - GetField(reg, low, span) * low + v * low
  }

  /** The n low bytes of the two's complement form of v, lowest first. */
  function LeBytes(v: int, n: nat): (b: seq<byte>)
    ensures |b| == n
    decreases n
  {
    if n == 0 then [] else [v % 256] + LeBytes(v / 256, n - 1)
  }

  function LeValue(b: seq<byte>): (v: nat)
    ensures v < Pow256(|b|)
  {
    if b == [] then 0 else b[0] + 256 * LeValue(b[1..])
  }

  /** Sign extension of a field of `width` values: the upper half counts down from zero. */
  function SignExtend(u: int, width: int): (r: int)
    requires width >= 2 && width % 2 == 0
    ensures -(width / 2) <= r < width / 2
    ensures r == u % width || r == u % width - width
  {
    if u % width < width / 2 then u % width else u % width - width
  }

  lemma DivModUnique(x: int, d: int, q: int, r: int)
    requires d > 0 && 0 <= r < d && x == q * d + r
    ensures x / d == q && x % d == r
  {
    assert x == (x / d) * d + x % d;
    assert (x / d - q) * d == (x / d) * d - q * d;
    MultipleGap(x / d - q, d);
  }

  /** Setting a field sets it, and keeps what is below it and what is above it. */
  lemma SetFieldSplits(reg: int, low: nat, span: nat, v: nat)
    requires low > 0 && v < span
    ensures GetField(SetField(reg, low, span, v), low, span) == v
    ensures SetField(reg, low, span, v) % low == reg % low
    ensures SetField(reg, low, span, v) / low / span == reg / low / span
  {
    var rest, below := reg / low, reg % low;
    var above, field := rest / span, rest % span;
    var base := above * span;
    assert reg == rest * low + below && rest == base + field;
    assert rest * low == base * low + field * low && (base + v) * low == base * low + v * low;
    DivModUnique(SetField(reg, low, span, v), low, base + v, below);
    DivModUnique(base + v, span, above, v);
  }

  /** A value and its residue agree after sign extension exactly when the value is in the
      signed range. */
  lemma SignExtendRoundTrip(v: int, width: int, u: int)
    requires width >= 2 && width % 2 == 0 && u == v % width
    ensures SignExtend(u, width) == v <==> -(width / 2) <= v < width / 2
  {
    DivModUnique(u, width, 0, u);
    if 0 <= v < width / 2 {
      DivModUnique(v, width, 0, v);
    } else if -(width / 2) <= v < 0 {
      DivModUnique(v, width, -1, v + width);
    }
  }

  lemma ModStep(v: int, m: int)
    requires m > 0
    ensures v % (256 * m) == v % 256 + 256 * ((v / 256) % m)
  {
    var w := v / 256;
    var q, r := w / m, w % m;
    assert w == q * m + r;
    assert v == q * (256 * m) + (256 * r + v % 256);
    DivModUnique(v, 256 * m, q, 256 * r + v % 256);
  }

  /** Byte i of the stored form has the weight 256^i. */
  lemma {:induction false} LeByteAt(v: int, n: nat, i: nat)
    requires i < n
    ensures LeBytes(v, n)[i] == v / Pow256(i) % 256
    decreases n
  {
    if i > 0 {
      LeByteAt(v / 256, n - 1, i - 1);
      DivideTwice(v, Pow256(i - 1));
    }
  }

  lemma DivideTwice(v: int, m: int)
    requires m > 0
    ensures v / 256 / m == v / (256 * m)
  {
    var w := v / 256;
    var q, r := w / m, w % m;
    assert w == q * m + r;
    assert v == q * (256 * m) + (256 * r + v % 256);
    DivModUnique(v, 256 * m, q, 256 * r + v % 256);
  }

  /** Storing v in n little-endian bytes keeps exactly v modulo 256^n. */
  lemma {:induction false} LeRoundTrip(v: int, n: nat)
    ensures LeValue(LeBytes(v, n)) == v % Pow256(n)
    decreases n
  {
    if n > 0 {
      LeRoundTrip(v / 256, n - 1);
      ModStep(v, Pow256(n - 1));
      LeBytesSplit(LeBytes(v / 256, n - 1), v % 256);
    }
  }

  lemma Pow256Even(n: nat)
    requires n > 0
    ensures Pow256(n) >= 256 && Pow256(n) % 2 == 0
  {
    var h := 128 * Pow256(n - 1);
    assert Pow256(n) == 2 * h;
  }

  /** What a reader gets back by sign-extending the n stored bytes is v itself exactly when
      v fits n bytes. */
  lemma LeSignedRoundTrip(v: int, n: nat)
    requires n > 0
    ensures Pow256(n) >= 256 && Pow256(n) % 2 == 0
    ensures SignExtend(LeValue(LeBytes(v, n)), Pow256(n)) == v
      <==> -(Pow256(n) / 2) <= v < Pow256(n) / 2
  {
    Pow256Even(n);
    LeRoundTrip(v, n);
    SignExtendRoundTrip(v, Pow256(n), LeValue(LeBytes(v, n)));
  }

  lemma LeBytesSplit(b: seq<byte>, c: byte)
    ensures LeValue([c] + b) == c + 256 * LeValue(b)
  {
    assert ([c] + b)[1..] == b;
  }

  /** The drivers' store loop: mask off a byte, shift right by eight, n times. */
  method StoreLe(buf: array<byte>, from: nat, v: int, n: nat)
    requires from + n <= buf.Length
    modifies buf
    ensures buf[from..from + n] == LeBytes(v, n)
    ensures buf[..from] == old(buf[..from]) && buf[from + n..] == old(buf[from + n..])
  {
    var w, i := v, 0;
    while i < n
      invariant i <= n
      invariant buf[from..from + i] + LeBytes(w, n - i) == LeBytes(v, n)
      invariant buf[..from] == old(buf[..from]) && buf[from + n..] == old(buf[from + n..])
    {
      ghost var done := buf[from..from + i];
      buf[from + i] := w % 256;
      assert buf[from..from + (i + 1)] == done + [w % 256];
      w, i := w / 256, i + 1;
    }
  }

  /** The drivers' load loop: from the highest byte down, shift left by eight and merge. */
  method LoadLe(buf: array<byte>, from: nat, n: nat) returns (v: nat)
    requires 0 < n && from + n <= buf.Length
    ensures v == LeValue(buf[from..from + n])
  {
    v := buf[from + n - 1];
    var i := n - 1;
    assert buf[from + i..from + n] == [buf[from + i]];
    while i > 0
      invariant 0 <= i < n
      invariant v == LeValue(buf[from + i..from + n])
    {
      i := i - 1;
      LeBytesSplit(buf[from + i + 1..from + n], buf[from + i]);
      assert buf[from + i..from + n] == [buf[from + i]] + buf[from + i + 1..from + n];
      v := 256 * v + buf[from + i];
    }
  }
}
