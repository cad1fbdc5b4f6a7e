/** Correcting a phase by a temporary frequency offset, as both PHC drivers do it: halve the
    offset and double the duration until the offset fits the limit, convert it to the scaled
    parts per million of the PTP stack, add it to the current frequency and clamp. */
module PullIn {
  import opened CInt

  const MSEC_PER_SEC := 1000

  /** How often the loop halves an offset of `ppb` before it fits the limit. */
  function Halvings(ppb: int, limit: nat): (k: nat)
    requires limit >= 1
    decreases Abs(ppb)
  {
    if Abs(ppb) <= limit then 0 else 1 + Halvings(TDiv(ppb, 2), limit)
  }

  /** The offset the loop ends with. */
  function Offset(delta: int, limit: nat): int
    requires limit >= 1
  {
    TDiv(delta, Pow2(Halvings(delta, limit)))
  }

  /** scaled_ppm = ppb * 2^13 / 125 */
  function Scaled(ppb: int): int { TDiv(ppb * 8192, 125) }

  /** The frequency programmed during a pull-in. The Sabre adds in a long of 64 bits, which is
      wide enough for any two 32-bit terms; a ClockMatrix adds in a signed 32-bit integer. */
  function Shifted(current: int, ppb: int, maxPpb: nat): int {
    Clamp(current + Scaled(ppb), Scaled(maxPpb))
  }

  function Shifted32(current: int, ppb: int, maxPpb: nat): int {
    Clamp(S32(current + Scaled(ppb)), Scaled(maxPpb))
  }

  lemma DoubleWrapped(x: nat)
    ensures (2 * (x % TWO_32)) % TWO_32 == (2 * x) % TWO_32
  {
    DivModUnique(2 * x, TWO_32, 2 * (x / TWO_32) + 2 * (x % TWO_32) / TWO_32, (2 * (x % TWO_32)) % TWO_32);
  }

  lemma {:induction false} TDivPow2Step(a: int, k: nat)
    ensures TDiv(TDiv(a, 2), Pow2(k)) == TDiv(a, Pow2(k + 1))
    decreases k
  {
    if k == 0 {
      TDivUnique(TDiv(a, 2), 1, TDiv(a, 2));
    } else {
      TDivPow2Step(a, k - 1);
      TDivHalve(TDiv(a, 2), Pow2(k - 1));
      TDivHalve(a, Pow2(k));
    }
  }

  /** The number of halvings is the least that brings the truncated offset within the limit. */
  lemma {:induction false} HalvingsLeast(delta: int, limit: nat)
    requires limit >= 1
    ensures Abs(Offset(delta, limit)) <= limit
    ensures forall j | 0 <= j < Halvings(delta, limit) :: Abs(TDiv(delta, Pow2(j))) > limit
    decreases Abs(delta)
  {
    if Abs(delta) <= limit {
      TDivUnique(delta, 1, delta);
    } else {
      var h := TDiv(delta, 2);
      HalvingsLeast(h, limit);
      TDivPow2Step(delta, Halvings(h, limit));
      forall j | 0 <= j < Halvings(delta, limit) ensures Abs(TDiv(delta, Pow2(j))) > limit {
        if j == 0 {
          TDivUnique(delta, 1, delta);
        } else {
          TDivPow2Step(delta, j - 1);
        }
      }
    }
  }

  /** One turn of the halving loop. */
  lemma HalveStep(delta: int, limit: nat, k: nat, ppb: int)
    requires limit >= 1 && ppb == TDiv(delta, Pow2(k)) && Abs(ppb) > limit
    ensures TDiv(ppb, 2) == TDiv(delta, Pow2(k + 1)) && Abs(TDiv(ppb, 2)) < Abs(ppb)
    ensures MSEC_PER_SEC * Pow2(k) % TWO_32 * 2 % TWO_32 == MSEC_PER_SEC * Pow2(k + 1) % TWO_32
    ensures Halvings(ppb, limit) == 1 + Halvings(TDiv(ppb, 2), limit)
  {
    TDivHalve(delta, Pow2(k));
    DoubleWrapped(MSEC_PER_SEC * Pow2(k));
  }

  /** The halving loop, with the duration kept in 32 unsigned bits. */
  method Halve(delta: int, limit: nat) returns (ppb: int, durationMs: nat)
    requires limit >= 1
    ensures ppb == Offset(delta, limit)
    ensures durationMs == MSEC_PER_SEC * Pow2(Halvings(delta, limit)) % TWO_32
  {
    ppb, durationMs := delta, MSEC_PER_SEC;
    ghost var k := 0;
    TDivUnique(delta, 1, delta);
    while Abs(ppb) > limit
      invariant ppb == TDiv(delta, Pow2(k))
      invariant durationMs == MSEC_PER_SEC * Pow2(k) % TWO_32
      invariant Halvings(delta, limit) == k + Halvings(ppb, limit)
      decreases Abs(ppb)
    {
      HalveStep(delta, limit, k, ppb);
      durationMs := durationMs * 2 % TWO_32;
      ppb := TDiv(ppb, 2);
      k := k + 1;
    }
  }

  // ---- The duration ----

  lemma {:induction false} Pow2Monotone(j: nat, k: nat)
    requires j <= k
    ensures Pow2(j) <= Pow2(k)
  {
    if j < k {
      Pow2Monotone(j, k - 1);
    }
  }

  lemma AbsProduct(q: int, m: nat)
    ensures Abs(q) * m == Abs(q * m)
  {
    assert (-q) * m == -(q * m);
    if q >= 0 {
      assert q * m >= 0;
    } else {
      assert (-q) * m >= 0;
    }
  }

  lemma BelowMultiple(n: nat, m: nat, a: nat, limit: nat)
    requires m > 0 && n * m <= a < n * m + m
    ensures n <= limit <==> a < (limit + 1) * m
  {
    assert (limit + 1 - n) * m == (limit + 1) * m - n * m;
    MultipleGap(limit + 1 - n, m);
  }

  /** |trunc(a / m)| <= limit says that a lies below the next multiple of m. */
  lemma QuotientWithin(a: int, m: int, limit: nat)
    requires m > 0
    ensures Abs(TDiv(a, m)) <= limit <==> Abs(a) < (limit + 1) * m
  {
    var q := TDiv(a, m);
    AbsProduct(q, m);
    BelowMultiple(Abs(q), m, Abs(a), limit);
  }

  /** The same without the quotients: 2^k is the least power with |delta| < (limit+1) * 2^k. */
  lemma HalvingsBound(delta: int, limit: nat)
    requires limit >= 1
    ensures Abs(delta) < (limit + 1) * Pow2(Halvings(delta, limit))
    ensures forall j | 0 <= j < Halvings(delta, limit) :: (limit + 1) * Pow2(j) <= Abs(delta)
  {
    HalvingsLeast(delta, limit);
    QuotientWithin(delta, Pow2(Halvings(delta, limit)), limit);
    forall j | 0 <= j < Halvings(delta, limit) ensures (limit + 1) * Pow2(j) <= Abs(delta) {
      QuotientWithin(delta, Pow2(j), limit);
    }
  }

  lemma ScaleMonotone(n: nat, x: nat, y: nat)
    requires x <= y
    ensures n * x <= n * y
  {
    assert n * y - n * x == n * (y - x) && n * (y - x) >= 0;
  }

  lemma {:induction false} Pow2At22()
    ensures Pow2(22) == 0x40_0000 && Pow2(23) == 0x80_0000
  {
    assert Pow2(4) == 0x10;
    assert Pow2(8) == 0x100;
    assert Pow2(12) == 0x1000;
    assert Pow2(16) == 0x1_0000;
    assert Pow2(20) == 0x10_0000;
  }

  /** The duration fits 32 bits exactly up to the 22nd halving. */
  lemma DurationFits(k: nat)
    ensures MSEC_PER_SEC * Pow2(k) < TWO_32 <==> k <= 22
  {
    Pow2At22();
    if k <= 22 {
      Pow2Monotone(k, 22);
    } else {
      Pow2Monotone(23, k);
    }
  }

  /** The 32-bit duration is the true one exactly when the offset is below (limit+1) * 2^22;
      for a limit of 512 ppb or more that is every 32-bit offset. */
  lemma DurationExact(delta: int, limit: nat)
    requires limit >= 1
    ensures MSEC_PER_SEC * Pow2(Halvings(delta, limit)) < TWO_32 <==> Abs(delta) < (limit + 1) * 0x40_0000
    ensures limit >= 512 && Abs(delta) <= TWO_31 ==> Abs(delta) < (limit + 1) * 0x40_0000
  {
    var k := Halvings(delta, limit);
    Pow2At22();
    DurationFits(k);
    HalvingsBound(delta, limit);
    if k <= 22 {
      Pow2Monotone(k, 22);
      ScaleMonotone(limit + 1, Pow2(k), Pow2(22));
    }
  }

  // ---- The phase delivered ----

  /** A pull-in that is longer than one second is not longer than its offset demands. */
  lemma PullInNotLong(delta: int, limit: nat)
    requires limit >= 1 && Halvings(delta, limit) > 0
    ensures (limit + 1) * Pow2(Halvings(delta, limit)) <= 2 * Abs(delta)
  {
    var k := Halvings(delta, limit);
    HalvingsBound(delta, limit);
    DoubleProduct(limit + 1, Pow2(k - 1), Pow2(k));
  }

  lemma DoubleProduct(n: nat, p: nat, q: nat)
    requires q == 2 * p
    ensures n * q == 2 * (n * p)
  {
  }

  /** Main result. An offset of `step` scaled ppm moves the clock by step * 125 / 8192 ns per
      second, for 2^k seconds: the phase delivered misses the one requested by less than
      8317/8192 ns per second of pull-in, and a pull-in of more than one second lasts at most
      2|delta|/(limit+1) seconds, so the relative error is about 2/limit. */
  lemma PullInDeliversPhase(delta: int, limit: nat)
    requires limit >= 1
    ensures var k := Halvings(delta, limit);
            && Abs(8192 * delta - 125 * Scaled(Offset(delta, limit)) * Pow2(k)) < 8317 * Pow2(k)
            && (k > 0 ==> (limit + 1) * Pow2(k) <= 2 * Abs(delta))
  {
    var k := Halvings(delta, limit);
    var ppb := Offset(delta, limit);
    ErrorsAdd(delta, ppb, Scaled(ppb), Pow2(k));
    if k > 0 {
      PullInNotLong(delta, limit);
    }
  }

  lemma ErrorScales(e: int, bound: nat, p: int)
    requires p > 0 && Abs(e) < bound
    ensures Abs(e * p) < bound * p
  {
    MultipleGap(bound - e, p);
    MultipleGap(bound + e, p);
    assert (bound - e) * p == bound * p - e * p;
    assert (bound + e) * p == bound * p + e * p;
  }

  lemma ErrorsAdd(delta: int, ppb: int, step: int, p: int)
    requires p > 0 && Abs(delta - ppb * p) < p && Abs(8192 * ppb - 125 * step) < 125
    ensures Abs(8192 * delta - 125 * step * p) < 8317 * p
  {
    var e := 8192 * ppb - 125 * step;
    ErrorScales(e, 125, p);
    var x, y := ppb * p, step * p;
    assert e * p == 8192 * x - 125 * y by {
      assert (8192 * ppb - 125 * step) * p == 8192 * (ppb * p) - 125 * (step * p);
    }
    assert 125 * step * p == 125 * y;
  }

  /** The same bound with the duration in milliseconds. */
  lemma InMilliseconds(delta: int, step: int, p: nat)
    requires Abs(8192 * delta - 125 * step * p) < 8317 * p
    ensures Abs(8192 * delta * 1000 - 125 * step * (1000 * p)) < 8317 * (1000 * p)
  {
    var x := 125 * step * p;
    assert 125 * step * (1000 * p) == 1000 * x;
  }

  /** The shift applied is the one asked for exactly when the sum stays within the clamp; the
      32-bit sum makes no difference to that, nor to any sum of frequencies that the drivers
      accept with their pull-in limits. */
  lemma ShiftExact(current: int, ppb: int, maxPpb: nat)
    requires maxPpb <= 244000
    ensures Shifted(current, ppb, maxPpb) == current + Scaled(ppb) <==> Abs(current + Scaled(ppb)) <= Scaled(maxPpb)
    ensures Shifted32(current, ppb, maxPpb) == current + Scaled(ppb) <==> Abs(current + Scaled(ppb)) <= Scaled(maxPpb)
    ensures -TWO_31 <= current + Scaled(ppb) < TWO_31 ==>
              Shifted32(current, ppb, maxPpb) == Shifted(current, ppb, maxPpb)
  {
    TDivMonotone(maxPpb * 8192, 244000 * 8192, 125);
    assert Scaled(244000) < TWO_31;
  }

  /** The frequency moves the way asked for exactly when the current frequency is short of the
      clamp on that side, and moves the wrong way exactly when it is past it; at the clamp nothing
      moves. The Sabre accepts frequencies up to its clamp of 92000 ppb; a ClockMatrix accepts
      244000 ppb but clamps pull-ins to 144000 ppb. */
  lemma ShiftDirection(current: int, ppb: int, maxPpb: nat)
    ensures ppb > 0 ==> (Shifted(current, ppb, maxPpb) > current <==> current < Scaled(maxPpb))
    ensures ppb < 0 ==> (Shifted(current, ppb, maxPpb) < current <==> current > -Scaled(maxPpb))
    ensures ppb > 0 ==> (Shifted(current, ppb, maxPpb) < current <==> current > Scaled(maxPpb))
    ensures ppb < 0 ==> (Shifted(current, ppb, maxPpb) > current <==> current < -Scaled(maxPpb))
  {
  }

  /** Halving does not lose the sign of the correction. */
  lemma {:induction false} OffsetSign(delta: int, limit: nat)
    requires limit >= 1
    ensures delta > 0 ==> Offset(delta, limit) > 0
    ensures delta < 0 ==> Offset(delta, limit) < 0
    decreases Abs(delta)
  {
    if Abs(delta) <= limit {
      TDivUnique(delta, 1, delta);
    } else {
      OffsetSign(TDiv(delta, 2), limit);
      TDivPow2Step(delta, Halvings(TDiv(delta, 2), limit));
    }
  }
}
