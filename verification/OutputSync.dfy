/** idtcm_sync_pps_output: the bits of a channel's output mask are dealt out, lowest first, to
    the eight PLLs. PLLs 0 to 3 have two outputs each; OUT8 belongs to PLL 4 or, by a fan-out
    multiplexer, to PLL 5, and OUT11 to PLL 7 or to PLL 6. */
module OutputSync {
  import opened CInt
  import opened Options

  const PLLS := 8
  const OUTPUTS := 12

  datatype Mux = Mux(out8: bool, out11: bool)

  /** The fan-out is on when bits 0 and 2 of the spare register are set. */
  predicate FannedOut(spare: bv8) { spare & 5 == 5 }

  /** One call of _sync_pll_output. */
  datatype Call = Call(pll: nat, qn: nat, qnPlus1: nat)

  function Bit(mask: nat, q: nat): nat { mask / Pow2(q) % 2 }

  /** What is left of the mask after k shifts. */
  ghost predicate Shifted(mask: nat, k: nat, rest: nat) { rest == mask / Pow2(k) }

  /** The output behind the first or second argument of a call. */
  function Wired(m: Mux, pll: nat, second: bool): Option<nat> {
    if pll < 4 then Some(if second then 2 * pll + 1 else 2 * pll)
    else if pll == 4 && !second && !m.out8 then Some(8)
    else if pll == 5 && second && m.out8 then Some(8)
    else if pll == 5 && !second then Some(9)
    else if pll == 6 && !second then Some(10)
    else if pll == 6 && second && m.out11 then Some(11)
    else if pll == 7 && !second && !m.out11 then Some(11)
    else None
  }

  function BitFor(mask: nat, o: Option<nat>): nat { match o case Some(q) => Bit(mask, q) case None => 0 }

  /** What each PLL should be asked for: the mask bits of the outputs it is wired to. */
  function Wanted(mask: nat, m: Mux, pll: nat): Call {
    Call(pll, BitFor(mask, Wired(m, pll, false)), BitFor(mask, Wired(m, pll, true)))
  }

  predicate Idle(c: Call) { c.qn == 0 && c.qnPlus1 == 0 }

  function Calls(mask: nat, m: Mux, n: nat): seq<Call> {
    if n == 0 then [] else
      var c := Wanted(mask, m, n - 1);
      Calls(mask, m, n - 1) + (if Idle(c) then [] else [c])
  }

  /** How many mask bits the first n PLLs use up. */
  function Dealt(m: Mux, n: nat): nat {
    if n <= 4 then 2 * n
    else if n == 5 then if m.out8 then 8 else 9
    else if n == 6 then 10
    else if n == 7 then if m.out11 then 12 else 11
    else 12
  }

  lemma HalveAgain(mask: nat, k: nat, rest: nat)
    requires Shifted(mask, k, rest)
    ensures rest % 2 == Bit(mask, k) && Shifted(mask, k + 1, rest / 2)
  {
    var p, h := Pow2(k), rest / 2;
    Euclid(mask, p);
    assert h * (2 * p) + (rest - 2 * h) * p == rest * p;
    assert rest - 2 * h == 0 || rest - 2 * h == 1;
    DivModUnique(mask, 2 * p, h, mask - h * (2 * p));
  }

  /** One turn of the loop: take the bits of one PLL off the mask. */
  method Deal(ghost outputMask: nat, mask: nat, m: Mux, pll: nat) returns (qn: nat, qnPlus1: nat, rest: nat)
    requires pll < PLLS && Shifted(outputMask, Dealt(m, pll), mask)
    ensures Call(pll, qn, qnPlus1) == Wanted(outputMask, m, pll)
    ensures Shifted(outputMask, Dealt(m, pll + 1), rest)
  {
    qn, qnPlus1, rest := 0, 0, mask;
    ghost var k := Dealt(m, pll);
    HalveAgain(outputMask, k, mask);
    HalveAgain(outputMask, k + 1, mask / 2);
    if pll < 4 {
      qn, rest := rest % 2, rest / 2;
      qnPlus1, rest := rest % 2, rest / 2;
    } else if pll == 4 {
      if !m.out8 { qn, rest := rest % 2, rest / 2; }
    } else if pll == 5 {
      if m.out8 { qnPlus1, rest := rest % 2, rest / 2; }
      qn, rest := rest % 2, rest / 2;
    } else if pll == 6 {
      qn, rest := rest % 2, rest / 2;
      if m.out11 { qnPlus1, rest := rest % 2, rest / 2; }
    } else {
      if !m.out11 { qn, rest := rest % 2, rest / 2; }
    }
  }

  ghost predicate Succeeded(calls: seq<Call>, syncErrs: seq<int>) {
    forall c | c in calls :: c.pll < |syncErrs| && syncErrs[c.pll] == 0
  }

  lemma CallsNext(mask: nat, m: Mux, n: nat, c: Call)
    requires c == Wanted(mask, m, n)
    ensures Calls(mask, m, n + 1) == Calls(mask, m, n) + (if c.qn == 0 && c.qnPlus1 == 0 then [] else [c])
  {
  }

  lemma StillSucceeded(calls: seq<Call>, c: Call, syncErrs: seq<int>)
    requires Succeeded(calls, syncErrs) && c.pll < |syncErrs|
    ensures (calls + [c])[..|calls|] == calls
    ensures syncErrs[c.pll] == 0 ==> Succeeded(calls + [c], syncErrs)
  {
  }

  /** The loop over the PLLs. `syncErrs[p]` is the error of the call for PLL p; `done` PLLs have
      been dealt with. */
  method SyncPlls(outputMask: nat, m: Mux, syncErrs: seq<int>) returns (err: int, calls: seq<Call>, ghost done: nat)
    requires |syncErrs| == PLLS
    ensures done <= PLLS && calls == Calls(outputMask, m, done)
    ensures err == 0 ==> done == PLLS && Succeeded(calls, syncErrs)
    ensures err != 0 ==>
      && calls != [] && calls[|calls| - 1].pll == done - 1 && err == syncErrs[done - 1]
      && Succeeded(calls[..|calls| - 1], syncErrs)
  {
    err, calls, done := 0, [], 0;
    var mask := outputMask;
    for pll := 0 to PLLS
      invariant err == 0 && done == pll
      invariant Shifted(outputMask, Dealt(m, pll), mask)
      invariant calls == Calls(outputMask, m, pll)
      invariant Succeeded(calls, syncErrs)
    {
      var qn, qnPlus1;
      qn, qnPlus1, mask := Deal(outputMask, mask, m, pll);
      CallsNext(outputMask, m, pll, Call(pll, qn, qnPlus1));
      StillSucceeded(calls, Call(pll, qn, qnPlus1), syncErrs);
      done := pll + 1;
      if qn != 0 || qnPlus1 != 0 {
        calls := calls + [Call(pll, qn, qnPlus1)];
        err := syncErrs[pll];
      }
      if err != 0 { return; }
    }
  }

  /** The multiplexers are read first; without them no output is touched. */
  method SyncPpsOutput(outputMask: nat, spare8: bv8, read8: int, spare11: bv8, read11: int, syncErrs: seq<int>)
    returns (err: int, calls: seq<Call>, ghost done: nat)
    requires |syncErrs| == PLLS
    ensures read8 != 0 ==> err == read8 && calls == []
    ensures read8 == 0 != read11 ==> err == read11 && calls == []
    ensures read8 == 0 == read11 ==>
      && done <= PLLS && calls == Calls(outputMask, Mux(FannedOut(spare8), FannedOut(spare11)), done)
      && (err == 0 ==> done == PLLS && Succeeded(calls, syncErrs))
      && (err != 0 ==> calls != [] && calls[|calls| - 1].pll == done - 1 && err == syncErrs[done - 1]
                       && Succeeded(calls[..|calls| - 1], syncErrs))
  {
    if read8 != 0 { return read8, [], 0; }
    var out8 := FannedOut(spare8);
    if read11 != 0 { return read11, [], 0; }
    err, calls, done := SyncPlls(outputMask, Mux(out8, FannedOut(spare11)), syncErrs);
  }

  lemma FannedOutExactly(spare: bv8)
    ensures FannedOut(spare) <==> spare & 1 == 1 && spare & 4 == 4
  {
  }

  /** Which argument of which call carries which mask bit, for each setting of the multiplexers. */
  lemma ArgumentsOf(mask: nat, m: Mux, p: nat)
    requires p < PLLS
    ensures var c := Wanted(mask, m, p);
            && c.pll == p
            && c.qn == (match p
                        case 0 => Bit(mask, 0) case 1 => Bit(mask, 2) case 2 => Bit(mask, 4) case 3 => Bit(mask, 6)
                        case 4 => if m.out8 then 0 else Bit(mask, 8)
                        case 5 => Bit(mask, 9) case 6 => Bit(mask, 10)
                        case _ => if m.out11 then 0 else Bit(mask, 11))
            && c.qnPlus1 == (match p
                             case 0 => Bit(mask, 1) case 1 => Bit(mask, 3)
                             case 2 => Bit(mask, 5) case 3 => Bit(mask, 7)
                             case 5 => if m.out8 then Bit(mask, 8) else 0
                             case 6 => if m.out11 then Bit(mask, 11) else 0
                             case _ => 0)
  {
  }

  // ---- Every output once ----

  /** The call asks for the synchronisation of output q. */
  predicate Drives(m: Mux, c: Call, q: nat) {
    (c.qn != 0 && Wired(m, c.pll, false) == Some(q)) || (c.qnPlus1 != 0 && Wired(m, c.pll, true) == Some(q))
  }

  lemma {:induction false} CallsAreWanted(mask: nat, m: Mux, n: nat, c: Call)
    ensures c in Calls(mask, m, n) <==> c.pll < n && c == Wanted(mask, m, c.pll) && !Idle(c)
  {
    if n > 0 {
      CallsAreWanted(mask, m, n - 1, c);
      assert c in Calls(mask, m, n) <==> c in Calls(mask, m, n - 1) || (c == Wanted(mask, m, n - 1) && !Idle(c));
    }
  }

  lemma {:induction false} CallsAreOrdered(mask: nat, m: Mux, n: nat)
    ensures forall i, j | 0 <= i < j < |Calls(mask, m, n)| :: Calls(mask, m, n)[i].pll < Calls(mask, m, n)[j].pll
  {
    if n > 0 {
      var cs := Calls(mask, m, n - 1);
      CallsAreOrdered(mask, m, n - 1);
      forall i | 0 <= i < |cs| ensures cs[i].pll < n - 1 {
        CallsAreWanted(mask, m, n - 1, cs[i]);
      }
    }
  }

  /** The PLL that an output hangs on. */
  function Home(m: Mux, q: nat): nat
    requires q < OUTPUTS
  {
    if q < 8 then q / 2 else if q == 8 then (if m.out8 then 5 else 4)
    else if q == 9 then 5 else if q == 10 then 6 else if m.out11 then 6 else 7
  }

  lemma WantedDrivesItsOwn(mask: nat, m: Mux, p: nat, q: nat)
    requires p < PLLS && q < OUTPUTS
    ensures Drives(m, Wanted(mask, m, p), q) <==> p == Home(m, q) && Bit(mask, q) == 1
  {
  }

  /** Main result: for every mask and every setting of the two multiplexers, a complete run
      synchronises output q exactly when bit q of the mask is set, and then with one call. */
  lemma EveryOutputOnce(mask: nat, m: Mux, q: nat)
    requires q < OUTPUTS
    ensures (exists i :: 0 <= i < |Calls(mask, m, PLLS)| && Drives(m, Calls(mask, m, PLLS)[i], q))
      <==> Bit(mask, q) == 1
    ensures forall i, j | 0 <= i < j < |Calls(mask, m, PLLS)| ::
              !(Drives(m, Calls(mask, m, PLLS)[i], q) && Drives(m, Calls(mask, m, PLLS)[j], q))
  {
    var cs, c := Calls(mask, m, PLLS), Wanted(mask, m, Home(m, q));
    WantedDrivesItsOwn(mask, m, Home(m, q), q);
    CallsAreWanted(mask, m, PLLS, c);
    CallsAreOrdered(mask, m, PLLS);
    forall i | 0 <= i < |cs| ensures Drives(m, cs[i], q) ==> cs[i].pll == Home(m, q) && Bit(mask, q) == 1 {
      CallsAreWanted(mask, m, PLLS, cs[i]);
      WantedDrivesItsOwn(mask, m, cs[i].pll, q);
    }
    if Bit(mask, q) == 1 {
      var i :| 0 <= i < |cs| && cs[i] == c;
      assert Drives(m, cs[i], q);
    }
  }
}
