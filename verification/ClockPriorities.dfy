/** rsmu_cm_set_clock_priorities: 19 priority slots of a ClockMatrix DPLL. Neighbours with
    equal priorities are put into a common group, as far as the three groups reach. */
module ClockPriorities {
  import opened CInt

  const EINVAL := -22
  const SLOTS := 19
  const MAX_GROUP := 3
  const MAX_REFERENCES := 16

  datatype Entry = Entry(clock: nat, priority: nat) {
    predicate Valid() { clock < MAX_REFERENCES && priority < SLOTS }
  }

  // ---- Groups, said without the loop ----

  /** Entry i starts a run of neighbours with equal priorities, of length two or more. */
  predicate StartsTie(es: seq<Entry>, i: nat)
    requires i < |es|
  {
    && (i == 0 || es[i].priority != es[i - 1].priority)
    && i + 1 < |es| && es[i].priority == es[i + 1].priority
  }

  predicate ContinuesTie(es: seq<Entry>, i: nat)
    requires i < |es|
  {
    i > 0 && es[i].priority == es[i - 1].priority
  }

  /** The number of such runs that start before k. */
  function TieCount(es: seq<Entry>, k: nat): nat
    requires k <= |es|
  {
    if k == 0 then 0 else TieCount(es, k - 1) + (if StartsTie(es, k - 1) then 1 else 0)
  }

  function AtMost(n: nat, limit: nat): nat { if n > limit then limit else n }

  /** Members of the j-th run get group j, single entries group 0. From the fourth run on the
      first member gets group 0 and the others join group 3. */
  function GroupOf(es: seq<Entry>, i: nat): (g: nat)
    requires i < |es|
    ensures g <= MAX_GROUP
  {
    var j := TieCount(es, i + 1);
    if ContinuesTie(es, i) then AtMost(j, MAX_GROUP)
    else if StartsTie(es, i) && j <= MAX_GROUP then j
    else 0
  }

  /** A slot register: enable bit 0, reference in bits 1-5, group in bits 6-7. */
  function SlotByte(clock: nat, group: nat): nat { 1 + clock * 2 + group * 64 }

  lemma SlotDecodes(clock: nat, group: nat)
    requires clock < MAX_REFERENCES && group <= MAX_GROUP
    ensures var b := SlotByte(clock, group);
            b < 256 && GetField(b, 1, 2) == 1 && GetField(b, 2, 32) == clock && GetField(b, 64, 4) == group
  {
    var b := SlotByte(clock, group);
    DivModUnique(b, 2, clock + group * 32, 1);
    DivModUnique(b / 2, 32, group, clock);
    DivModUnique(b, 64, group, 1 + clock * 2);
  }

  /** The contents of slot i after a complete call. */
  function Slot(es: seq<Entry>, i: nat): nat {
    if i < |es| then SlotByte(es[i].clock, GroupOf(es, i)) else 0
  }

  class Dpll {
    var slots: seq<nat>
    var mode: nat
    /** How often the mode register has been written; writing it makes the slots take effect. */
    var modeWrites: nat

    constructor (slots: seq<nat>, mode: nat)
      requires |slots| == SLOTS
      ensures this.slots == slots && this.mode == mode && modeWrites == 0
    {
      this.slots, this.mode, modeWrites := slots, mode, 0;
    }

    /** `slotErrs[i]` is the bus error of the write to slot i. `done` slots get written; the
        call stops at the first invalid entry or failed write, before the mode register. */
    method SetClockPriorities(es: seq<Entry>, slotErrs: seq<int>, modeRead: int, modeWrite: int)
      returns (err: int, ghost done: nat)
      requires |slots| == SLOTS == |slotErrs|
      modifies this
      ensures |slots| == SLOTS && done <= SLOTS && mode == old(mode)
      ensures forall i | 0 <= i < SLOTS :: slots[i] == if i < done then Slot(es, i) else old(slots[i])
      ensures forall i | 0 <= i < done :: (i < |es| ==> es[i].Valid()) && slotErrs[i] == 0
      ensures err == 0 <==> modeWrites == old(modeWrites) + 1
      ensures err != 0 <==> modeWrites == old(modeWrites)
      ensures err == 0 ==> done == SLOTS && |es| <= SLOTS
      ensures |es| > SLOTS ==> done == 0 && err == EINVAL
      ensures |es| <= SLOTS && done < SLOTS ==>
        if done < |es| && !es[done].Valid() then err == EINVAL else err == slotErrs[done] != 0
      ensures |es| <= SLOTS && done == SLOTS ==> err == if modeRead != 0 then modeRead else modeWrite
    {
      done := 0;
      if |es| > SLOTS { return EINVAL, done; }
      var prevGroup: nat, prevPriority: int := 0, -1;
      var i := 0;
      while i < |es|
        invariant i <= |es| && done == i && |slots| == SLOTS
        invariant mode == old(mode) && modeWrites == old(modeWrites)
        invariant prevGroup == AtMost(TieCount(es, i), MAX_GROUP)
        invariant prevPriority == if i == 0 then -1 else es[i - 1].priority
        invariant forall k | 0 <= k < SLOTS :: slots[k] == if k < i then Slot(es, k) else old(slots[k])
        invariant forall k | 0 <= k < i :: es[k].Valid() && slotErrs[k] == 0
      {
        if es[i].clock >= MAX_REFERENCES || es[i].priority >= SLOTS { return EINVAL, done; }
        var group := 0;
        if es[i].priority == prevPriority {
          group := prevGroup;
        } else if i < |es| - 1 && es[i].priority == es[i + 1].priority {
          if prevGroup < MAX_GROUP {
            prevGroup := prevGroup + 1;
            group := prevGroup;
          }
        }
        prevPriority := es[i].priority;
        assert group == GroupOf(es, i);
        if slotErrs[i] != 0 { return slotErrs[i], done; }
        slots := slots[i := 1 + es[i].clock * 2 + group * 64];
        i := i + 1;
        done := i;
      }
      while i < SLOTS
        invariant |es| <= i <= SLOTS && done == i && |slots| == SLOTS
        invariant mode == old(mode) && modeWrites == old(modeWrites)
        invariant forall k | 0 <= k < SLOTS :: slots[k] == if k < i then Slot(es, k) else old(slots[k])
        invariant forall k | 0 <= k < i :: (k < |es| ==> es[k].Valid()) && slotErrs[k] == 0
      {
        if slotErrs[i] != 0 { return slotErrs[i], done; }
        slots := slots[i := 0];
        i := i + 1;
        done := i;
      }
      if modeRead != 0 { return modeRead, done; }
      var reg := mode;
      if modeWrite != 0 { return modeWrite, done; }
      mode := reg;
      modeWrites := modeWrites + 1;
      err := 0;
    }
  }

  // ---- When groups mean ties ----

  lemma {:induction false} TieCountMonotone(es: seq<Entry>, j: nat, k: nat)
    requires j <= k <= |es|
    ensures TieCount(es, j) <= TieCount(es, k)
  {
    if j < k {
      TieCountMonotone(es, j, k - 1);
    }
  }

  /** If there are more than three runs, some entry starts the fourth. */
  lemma {:induction false} FourthTie(es: seq<Entry>, k: nat) returns (i: nat)
    requires k <= |es| && TieCount(es, k) > MAX_GROUP
    ensures i < k && StartsTie(es, i) && TieCount(es, i + 1) == MAX_GROUP + 1
  {
    if TieCount(es, k - 1) > MAX_GROUP {
      i := FourthTie(es, k - 1);
    } else {
      i := k - 1;
    }
  }

  /** Main result: neighbours with equal priorities always share a group exactly when the list
      has at most three runs of ties. */
  lemma TiesShareGroup(es: seq<Entry>)
    ensures (forall i | 0 <= i < |es| - 1 && es[i].priority == es[i + 1].priority ::
               GroupOf(es, i) == GroupOf(es, i + 1))
      <==> TieCount(es, |es|) <= MAX_GROUP
  {
    if TieCount(es, |es|) > MAX_GROUP {
      var i := FourthTie(es, |es|);
      assert es[i].priority == es[i + 1].priority;
      assert GroupOf(es, i) == 0 && GroupOf(es, i + 1) == MAX_GROUP;
    } else {
      forall i | 0 <= i < |es| - 1 && es[i].priority == es[i + 1].priority
        ensures GroupOf(es, i) == GroupOf(es, i + 1)
      {
        TieCountMonotone(es, i + 1, |es|);
        SecondHasStart(es, i);
      }
    }
  }

  /** The run count does not move inside a run, and a run that is under way has been counted. */
  lemma SecondHasStart(es: seq<Entry>, i: nat)
    requires i + 1 < |es| && es[i].priority == es[i + 1].priority
    ensures TieCount(es, i + 2) == TieCount(es, i + 1)
    ensures StartsTie(es, i) || ContinuesTie(es, i)
  {
  }

  /** ... and then different runs have different groups, and single entries have none. */
  lemma GroupsSeparateRuns(es: seq<Entry>, i: nat, j: nat)
    requires i < j < |es| && TieCount(es, |es|) <= MAX_GROUP
    requires GroupOf(es, i) == GroupOf(es, j) != 0
    ensures forall k | i <= k <= j :: es[k].priority == es[i].priority
  {
    TieCountMonotone(es, i + 1, |es|);
    TieCountMonotone(es, j + 1, |es|);
    assert TieCount(es, i + 1) == TieCount(es, j + 1);
    SameCountSameRun(es, i, j);
  }

  lemma {:induction false} SameCountSameRun(es: seq<Entry>, i: nat, j: nat)
    requires i <= j < |es| && TieCount(es, i + 1) == TieCount(es, j + 1)
    requires StartsTie(es, i) || ContinuesTie(es, i)
    requires StartsTie(es, j) || ContinuesTie(es, j)
    ensures forall k | i <= k <= j :: es[k].priority == es[i].priority
  {
    if i < j {
      TieCountMonotone(es, i + 1, j);
      TieCountMonotone(es, j, j + 1);
      assert ContinuesTie(es, j);
      if j - 1 > i {
        assert es[j - 1].priority == es[j].priority;
        SecondHasStart(es, j - 1);
      }
      SameCountSameRun(es, i, j - 1);
    }
  }

  // ---- What the slots say ----

  /** The entries before k that start a run of ties. */
  function Starters(es: seq<Entry>, k: nat): set<nat>
    requires k <= |es|
  {
    set i | 0 <= i < k && StartsTie(es, i)
  }

  lemma {:induction false} TieCountCounts(es: seq<Entry>, k: nat)
    requires k <= |es|
    ensures TieCount(es, k) == |Starters(es, k)|
  {
    if k == 0 {
      assert Starters(es, k) == {};
    } else {
      TieCountCounts(es, k - 1);
      var last := if StartsTie(es, k - 1) then {k - 1} else {};
      assert Starters(es, k) == Starters(es, k - 1) + last;
    }
  }

  /** Main result: a slot reads back as enabled exactly if the list has an entry for it, then with
      the reference of the entry. Its group is 0 for a single entry and j for the members of the
      j-th run of ties, up to the third run; from the fourth on it is 0 for the first member and 3
      for the others. Slots after the list are all zero. */
  lemma SlotMeans(es: seq<Entry>, i: nat)
    requires i < SLOTS && forall e | e in es :: e.Valid()
    ensures var b := Slot(es, i);
            && (GetField(b, 1, 2) == 1 <==> i < |es|) && (i >= |es| ==> b == 0)
            && (i < |es| ==>
                  var j := |Starters(es, i + 1)|;
                  && GetField(b, 2, 32) == es[i].clock
                  && GetField(b, 64, 4) ==
                       if StartsTie(es, i) then (if j <= 3 then j else 0)
                       else if ContinuesTie(es, i) then (if j <= 3 then j else 3)
                       else 0)
  {
    if i < |es| {
      assert es[i] in es;
      SlotDecodes(es[i].clock, GroupOf(es, i));
      TieCountCounts(es, i + 1);
    }
  }
}
