/** External timestamps of the ClockMatrix PHC: requests switch ToD channels on and off, and a
    polling worker reports captured times. Requests and the poll hold the lock; the worker's
    first test, whether any channel is on, does not. */
module Extts {
  import opened Options

  const MAX_TOD := 4
  const EBUSY := -16
  const EINVAL := -22
  const EOPNOTSUPP := -95

  function Bit(i: nat): bv8
    requires i < MAX_TOD
  {
    match i case 0 => 1 case 1 => 2 case 2 => 4 case 3 => 8
  }

  predicate Has(mask: bv8, i: nat)
    requires i < MAX_TOD
  {
    mask & Bit(i) != 0
  }

  predicate IsSingleShot(mask: bv8) { !(mask <= 8 && mask != 0 && mask & (mask - 1) == 0) }

  /** What an observer counts for each channel: how often its trigger was armed, how often a
      timestamp was reported, and how often re-arming after a report failed. */
  datatype Counts = Counts(arms: nat, events: nat, rearmFails: nat)

  /** The driver's fields, and for each channel the trigger of the hardware: armed until an
      edge captures the time. */
  datatype State = State(mask: bv8, singleShot: bool, eventChannel: seq<Option<nat>>, refn: seq<int>,
                         queued: bool, armed: seq<bool>, counts: seq<Counts>)
  {
    ghost predicate Valid() {
      |eventChannel| == |refn| == |armed| == |counts| == MAX_TOD && mask & 0xF0 == 0
    }
  }

  /** Error codes of polling one channel: reading the trigger, reading the time, re-arming. */
  datatype Poll = Poll(triggerErr: int, timeErr: int, armErr: int)

  // ---- The locked bodies ----

  function Enable(x: State, index: nat, channel: nat, badFlags: bool, pin: int, armErr: int): (r: (State, int))
    requires x.Valid()
  {
    if badFlags then (x, EOPNOTSUPP)
    else if index >= MAX_TOD then (x, EINVAL)
    else if pin < 0 then (x, EBUSY)
    else if armErr != 0 then (x, armErr)
    else
      var mask := x.mask | Bit(index);
      (x.(mask := mask, singleShot := IsSingleShot(mask), eventChannel := x.eventChannel[index := Some(channel)],
          refn := x.refn[index := pin], queued := x.queued || x.mask == 0, armed := x.armed[index := true],
          counts := x.counts[index := x.counts[index].(arms := x.counts[index].arms + 1)]), 0)
  }

  function Disable(x: State, index: nat, badFlags: bool): (State, int)
    requires x.Valid()
  {
    if badFlags then (x, EOPNOTSUPP)
    else if index >= MAX_TOD then (x, EINVAL)
    else
      var mask := x.mask & !Bit(index);
      (x.(mask := mask, singleShot := IsSingleShot(mask), queued := x.queued && mask != 0), 0)
  }

  /** Whether the poll of a channel that is on finds a time to report. */
  predicate Reports(x: State, i: nat, p: Poll)
    requires x.Valid() && i < MAX_TOD
  {
    Has(x.mask, i) && p.triggerErr == 0 && !x.armed[i] && p.timeErr == 0
  }

  function CheckOne(x: State, i: nat, p: Poll): (r: State)
    requires x.Valid() && i < MAX_TOD
    ensures r.Valid()
  {
    BitClear(x.mask, i, i);
    if !Reports(x, i, p) then x else
      var c := x.counts[i].(events := x.counts[i].events + 1);
      if x.singleShot then x.(mask := x.mask & !Bit(i), counts := x.counts[i := c])
      else if p.armErr != 0 then x.(counts := x.counts[i := c.(rearmFails := c.rearmFails + 1)])
      else x.(armed := x.armed[i := true], counts := x.counts[i := c.(arms := c.arms + 1)])
  }

  function CheckFirst(x: State, ps: seq<Poll>, k: nat): (r: State)
    requires x.Valid() && |ps| == MAX_TOD && k <= MAX_TOD
    ensures r.Valid()
  {
    if k == 0 then x else CheckOne(CheckFirst(x, ps, k - 1), k - 1, ps[k - 1])
  }

  function CheckBody(x: State, ps: seq<Poll>): State
    requires x.Valid() && |ps| == MAX_TOD
  {
    var y := CheckFirst(x, ps, MAX_TOD);
    y.(queued := y.queued || y.mask != 0)
  }

  class Idtcm {
    var mask: bv8
    var singleShot: bool
    var eventChannel: seq<Option<nat>>
    var refn: seq<int>
    var queued: bool
    var armed: seq<bool>
    var counts: seq<Counts>

    ghost function Snapshot(): State reads this { State(mask, singleShot, eventChannel, refn, queued, armed, counts) }

    constructor (armed: seq<bool>)
      requires |armed| == MAX_TOD
      ensures Snapshot().Valid() && mask == 0 && !queued
      ensures forall i | 0 <= i < MAX_TOD :: counts[i] == Counts(0, 0, 0)
    {
      mask, singleShot, queued := 0, false, false;
      eventChannel, refn, this.armed := [None, None, None, None], [0, 0, 0, 0], armed;
      counts := [Counts(0, 0, 0), Counts(0, 0, 0), Counts(0, 0, 0), Counts(0, 0, 0)];
    }

    method ExttsEnable(index: nat, channel: nat, badFlags: bool, pin: int, armErr: int) returns (err: int)
      requires Snapshot().Valid()
      modifies this
      ensures (Snapshot(), err) == Enable(old(Snapshot()), index, channel, badFlags, pin, armErr)
    {
      var oldMask := mask;
      if badFlags { return EOPNOTSUPP; }
      if index >= MAX_TOD { return EINVAL; }
      if pin < 0 { return EBUSY; }
      if armErr != 0 { return armErr; }
      armed := armed[index := true];
      counts := counts[index := counts[index].(arms := counts[index].arms + 1)];
      mask := mask | Bit(index);
      eventChannel := eventChannel[index := Some(channel)];
      refn := refn[index := pin];
      singleShot := IsSingleShot(mask);
      if oldMask != 0 { return 0; }
      queued := true;
      err := 0;
    }

    method ExttsDisable(index: nat, badFlags: bool) returns (err: int)
      requires Snapshot().Valid()
      modifies this
      ensures (Snapshot(), err) == Disable(old(Snapshot()), index, badFlags)
    {
      if badFlags { return EOPNOTSUPP; }
      if index >= MAX_TOD { return EINVAL; }
      mask := mask & !Bit(index);
      singleShot := IsSingleShot(mask);
      if mask == 0 {
        queued := false;
      }
      err := 0;
    }

    method CheckChannel(i: nat, p: Poll)
      requires Snapshot().Valid() && i < MAX_TOD
      modifies this
      ensures Snapshot() == CheckOne(old(Snapshot()), i, p)
    {
      if mask & Bit(i) == 0 { return; }
      var err := p.triggerErr;
      if err == 0 {
        err := if armed[i] then EBUSY else p.timeErr;
      }
      if err != 0 { return; }
      var c := counts[i].(events := counts[i].events + 1);
      if singleShot {
        mask := mask & !Bit(i);
      } else if p.armErr == 0 {
        armed := armed[i := true];
        c := c.(arms := c.arms + 1);
      } else {
        c := c.(rearmFails := c.rearmFails + 1);
      }
      counts := counts[i := c];
    }

    method ExttsCheck(ps: seq<Poll>)
      requires Snapshot().Valid() && |ps| == MAX_TOD
      modifies this
      ensures Snapshot() == CheckBody(old(Snapshot()), ps)
    {
      for i := 0 to MAX_TOD
        invariant Snapshot().Valid() && Snapshot() == CheckFirst(old(Snapshot()), ps, i)
      {
        CheckChannel(i, ps[i]);
      }
      if mask != 0 {
        queued := true;
      }
    }
  }

  // ---- Interleavings ----

  /** The worker: idle, taken off the queue, or past its unlocked test. */
  datatype Worker = Idle | Fired | Passed

  datatype Sys = Sys(x: State, worker: Worker)

  datatype Event =
    | CallEnable(index: nat, channel: nat, badFlags: bool, pin: int, armErr: int)
    | CallDisable(index: nat, badFlags: bool)
    | WorkFires
    | WorkTests
    | WorkPolls(ps: seq<Poll>)
    | Edge(i: nat)

  /** One event; an event that is not enabled does nothing. */
  function Step(s: Sys, e: Event): Sys
    requires s.x.Valid()
  {
    match e
    case CallEnable(index, channel, badFlags, pin, armErr) =>
      s.(x := Enable(s.x, index, channel, badFlags, pin, armErr).0)
    case CallDisable(index, badFlags) => s.(x := Disable(s.x, index, badFlags).0)
    case WorkFires => if s.x.queued && s.worker.Idle? then Sys(s.x.(queued := false), Fired) else s
    case WorkTests => if s.worker.Fired? then s.(worker := if s.x.mask == 0 then Idle else Passed) else s
    case WorkPolls(ps) => if s.worker.Passed? && |ps| == MAX_TOD then Sys(CheckBody(s.x, ps), Idle) else s
    case Edge(i) => if i < MAX_TOD then s.(x := s.x.(armed := s.x.armed[i := false])) else s
  }

  /** One arming is worth one report; only a re-arm that fails adds another. */
  ghost predicate Accounted(x: State, i: nat)
    requires x.Valid() && i < MAX_TOD
  {
    x.counts[i].events + (if Has(x.mask, i) then 1 else 0) <= x.counts[i].arms + x.counts[i].rearmFails
  }

  ghost predicate ChannelSafe(x: State, i: nat)
    requires x.Valid() && i < MAX_TOD
  {
    && (Has(x.mask, i) ==> x.eventChannel[i].Some?)
    && Accounted(x, i)
    && (forall j | 0 <= j < MAX_TOD && j != i && Has(x.mask, i) && Has(x.mask, j) :: x.singleShot)
  }

  ghost predicate Safe(s: Sys) {
    && s.x.Valid()
    && (s.x.mask != 0 ==> s.x.queued || !s.worker.Idle?)
    && (forall i | 0 <= i < MAX_TOD :: ChannelSafe(s.x, i))
  }

  lemma BitSet(mask: bv8, i: nat, j: nat)
    requires i < MAX_TOD && j < MAX_TOD && mask & 0xF0 == 0
    ensures (mask | Bit(i)) & 0xF0 == 0 && mask | Bit(i) != 0
    ensures Has(mask | Bit(i), j) <==> j == i || Has(mask, j)
  {
  }

  lemma BitClear(mask: bv8, i: nat, j: nat)
    requires i < MAX_TOD && j < MAX_TOD && mask & 0xF0 == 0
    ensures (mask & !Bit(i)) & 0xF0 == 0
    ensures Has(mask & !Bit(i), j) <==> j != i && Has(mask, j)
  {
  }

  /** A mask is not single-shot exactly when one channel is on. */
  lemma SingleShotMeaning(mask: bv8)
    requires mask & 0xF0 == 0
    ensures !IsSingleShot(mask) <==>
      (Has(mask, 0) || Has(mask, 1) || Has(mask, 2) || Has(mask, 3))
      && (forall i, j | 0 <= i < j < MAX_TOD :: !(Has(mask, i) && Has(mask, j)))
  {
    assert (forall i, j | 0 <= i < j < MAX_TOD :: !(Has(mask, i) && Has(mask, j))) <==>
      !(Has(mask, 0) && Has(mask, 1)) && !(Has(mask, 0) && Has(mask, 2)) && !(Has(mask, 0) && Has(mask, 3))
      && !(Has(mask, 1) && Has(mask, 2)) && !(Has(mask, 1) && Has(mask, 3)) && !(Has(mask, 2) && Has(mask, 3));
  }

  lemma MaskEmpty(mask: bv8)
    requires mask & 0xF0 == 0
    ensures mask == 0 <==> !Has(mask, 0) && !Has(mask, 1) && !Has(mask, 2) && !Has(mask, 3)
  {
  }

  /** What switching a channel on does: it succeeds exactly for a known channel with a pin, without
      unsupported flags, whose trigger can be armed. Then exactly that channel is on in addition,
      armed, with the channel and pin of the request, and the poll is queued if it was not going;
      else nothing changes. */
  lemma EnableMeans(x: State, index: nat, channel: nat, badFlags: bool, pin: int, armErr: int, j: nat)
    requires x.Valid() && j < MAX_TOD
    ensures var (y, err) := Enable(x, index, channel, badFlags, pin, armErr);
            && (err == 0 <==> !badFlags && index < 4 && pin >= 0 && armErr == 0)
            && (err != 0 ==> y == x)
            && (err == 0 ==>
                  && y.Valid() && (Has(y.mask, j) <==> j == index || Has(x.mask, j))
                  && y.armed == x.armed[index := true] && y.refn == x.refn[index := pin]
                  && y.eventChannel == x.eventChannel[index := Some(channel)]
                  && (y.queued <==> x.queued || x.mask == 0))
  {
    if index < MAX_TOD {
      BitSet(x.mask, index, j);
    }
  }

  /** What switching a channel off does: exactly that channel is off in addition, and the poll is
      taken off the queue exactly when no channel is left; nothing else but the polling style
      changes. */
  lemma DisableMeans(x: State, index: nat, badFlags: bool, j: nat)
    requires x.Valid() && j < MAX_TOD
    ensures var (y, err) := Disable(x, index, badFlags);
            && (err == 0 <==> !badFlags && index < 4)
            && (err != 0 ==> y == x)
            && (err == 0 ==>
                  && y == x.(mask := y.mask, singleShot := y.singleShot, queued := y.queued)
                  && y.Valid() && (Has(y.mask, j) <==> j != index && Has(x.mask, j))
                  && (y.queued <==>
                        x.queued && (Has(y.mask, 0) || Has(y.mask, 1) || Has(y.mask, 2) || Has(y.mask, 3))))
  {
    if index < MAX_TOD {
      BitClear(x.mask, index, j);
      BitClear(x.mask, index, index);
      MaskEmpty(x.mask & !Bit(index));
    }
  }

  lemma EnableSafe(s: Sys, index: nat, channel: nat, badFlags: bool, pin: int, armErr: int)
    requires Safe(s)
    ensures Safe(Step(s, CallEnable(index, channel, badFlags, pin, armErr)))
  {
    if !badFlags && index < MAX_TOD && pin >= 0 && armErr == 0 {
      var x := Enable(s.x, index, channel, badFlags, pin, armErr).0;
      BitSet(s.x.mask, index, index);
      SingleShotMeaning(x.mask);
      forall i | 0 <= i < MAX_TOD ensures ChannelSafe(x, i) {
        BitSet(s.x.mask, index, i);
        assert ChannelSafe(s.x, i);
      }
    }
  }

  lemma DisableSafe(s: Sys, index: nat, badFlags: bool)
    requires Safe(s)
    ensures Safe(Step(s, CallDisable(index, badFlags)))
  {
    if !badFlags && index < MAX_TOD {
      var x := Disable(s.x, index, badFlags).0;
      BitClear(s.x.mask, index, index);
      SingleShotMeaning(x.mask);
      forall i | 0 <= i < MAX_TOD ensures ChannelSafe(x, i) {
        BitClear(s.x.mask, index, i);
        assert ChannelSafe(s.x, i);
      }
    }
  }

  lemma CheckOneSafe(x: State, k: nat, p: Poll)
    requires x.Valid() && k < MAX_TOD && forall i | 0 <= i < MAX_TOD :: ChannelSafe(x, i)
    ensures var y := CheckOne(x, k, p);
            && y.Valid() && y.queued == x.queued && y.singleShot == x.singleShot
            && (forall i | 0 <= i < MAX_TOD :: ChannelSafe(y, i))
  {
    var y := CheckOne(x, k, p);
    BitClear(x.mask, k, k);
    forall i | 0 <= i < MAX_TOD ensures ChannelSafe(y, i) {
      assert ChannelSafe(x, i);
      BitClear(x.mask, k, i);
      forall j | 0 <= j < MAX_TOD && j != i && Has(y.mask, i) && Has(y.mask, j) ensures y.singleShot {
        BitClear(x.mask, k, j);
      }
    }
  }

  lemma {:induction false} CheckFirstSafe(x: State, ps: seq<Poll>, k: nat)
    requires x.Valid() && |ps| == MAX_TOD && k <= MAX_TOD && forall i | 0 <= i < MAX_TOD :: ChannelSafe(x, i)
    ensures var y := CheckFirst(x, ps, k);
            && y.queued == x.queued && y.singleShot == x.singleShot
            && (forall i | 0 <= i < MAX_TOD :: ChannelSafe(y, i))
  {
    if k > 0 {
      CheckFirstSafe(x, ps, k - 1);
      CheckOneSafe(CheckFirst(x, ps, k - 1), k - 1, ps[k - 1]);
    }
  }

  lemma StepSafe(s: Sys, e: Event)
    requires Safe(s)
    ensures Safe(Step(s, e))
  {
    match e
    case CallEnable(index, channel, badFlags, pin, armErr) => EnableSafe(s, index, channel, badFlags, pin, armErr);
    case CallDisable(index, badFlags) => DisableSafe(s, index, badFlags);
    case WorkPolls(ps) =>
      if s.worker.Passed? && |ps| == MAX_TOD {
        CheckFirstSafe(s.x, ps, MAX_TOD);
        var y := CheckFirst(s.x, ps, MAX_TOD);
        forall i | 0 <= i < MAX_TOD ensures ChannelSafe(CheckBody(s.x, ps), i) { assert ChannelSafe(y, i); }
      }
    case _ =>
      var r := Step(s, e);
      forall i | 0 <= i < MAX_TOD ensures ChannelSafe(r.x, i) { assert ChannelSafe(s.x, i); }
  }

  /** The states of a run, the initial one first. */
  ghost predicate IsRun(states: seq<Sys>, events: seq<Event>) {
    && |states| == |events| + 1
    && forall n | 0 <= n < |events| :: states[n].x.Valid() && states[n + 1] == Step(states[n], events[n])
  }

  ghost predicate Initial(s: Sys) {
    s.x.Valid() && s.x.mask == 0 && s.worker == Idle && forall i | 0 <= i < MAX_TOD :: s.x.counts[i] == Counts(0, 0, 0)
  }

  lemma InitialSafe(s: Sys)
    requires Initial(s)
    ensures Safe(s)
  {
    forall i | 0 <= i < MAX_TOD ensures ChannelSafe(s.x, i) {
      assert !Has(0, i);
    }
  }

  /** Main result: at every point of every interleaving, a channel that is on has a worker that
      is queued or under way, knows where to report, and shares only single-shot polling; and
      no arming is reported twice unless a re-arm failed. */
  lemma {:induction false} PollingNeverLosesItsWorker(states: seq<Sys>, events: seq<Event>, n: nat)
    requires IsRun(states, events) && n < |states| && Initial(states[0])
    ensures Safe(states[n])
    ensures states[n].x.mask != 0 ==> states[n].x.queued || !states[n].worker.Idle?
    ensures forall i | 0 <= i < MAX_TOD && Has(states[n].x.mask, i) :: states[n].x.eventChannel[i].Some?
    ensures forall i | 0 <= i < MAX_TOD && states[n].x.counts[i].rearmFails == 0 ::
              states[n].x.counts[i].events + (if Has(states[n].x.mask, i) then 1 else 0) <= states[n].x.counts[i].arms
  {
    if n == 0 {
      InitialSafe(states[0]);
    } else {
      PollingNeverLosesItsWorker(states, events, n - 1);
      StepSafe(states[n - 1], events[n - 1]);
    }
    forall i | 0 <= i < MAX_TOD
      ensures Has(states[n].x.mask, i) ==> states[n].x.eventChannel[i].Some?
      ensures Accounted(states[n].x, i)
    {
      assert ChannelSafe(states[n].x, i);
    }
  }

  lemma CheckOneElsewhere(x: State, k: nat, p: Poll, i: nat)
    requires x.Valid() && k < MAX_TOD && i < MAX_TOD && i != k
    ensures var y := CheckOne(x, k, p);
            && y.counts[i] == x.counts[i] && y.armed[i] == x.armed[i] && (Has(y.mask, i) <==> Has(x.mask, i))
  {
    BitClear(x.mask, k, i);
  }

  lemma CheckOneCounts(x: State, i: nat, p: Poll)
    requires x.Valid() && i < MAX_TOD
    ensures CheckOne(x, i, p).counts[i].events == x.counts[i].events + (if Reports(x, i, p) then 1 else 0)
  {
  }

  /** A poll reports a channel exactly when it is on, its trigger has captured a time and both
      reads succeed; it reports it once. */
  lemma {:induction false} PollReportsOnce(x: State, ps: seq<Poll>, k: nat, i: nat)
    requires x.Valid() && |ps| == MAX_TOD && k <= MAX_TOD && i < MAX_TOD
    ensures var y := CheckFirst(x, ps, k);
            && y.counts[i].events == x.counts[i].events + (if i < k && Reports(x, i, ps[i]) then 1 else 0)
            && (k <= i ==> (Has(y.mask, i) <==> Has(x.mask, i)) && y.armed[i] == x.armed[i])
  {
    if k > 0 {
      var y := CheckFirst(x, ps, k - 1);
      PollReportsOnce(x, ps, k - 1, i);
      if i != k - 1 {
        CheckOneElsewhere(y, k - 1, ps[k - 1], i);
      } else {
        CheckOneCounts(y, i, ps[i]);
        assert Reports(y, i, ps[i]) <==> Reports(x, i, ps[i]);
      }
    }
  }

  const ALL_WELL := [Poll(0, 0, 0), Poll(0, 0, 0), Poll(0, 0, 0), Poll(0, 0, 0)]

  /** The way of a timestamp: an edge on a channel that is on is reported once by the next poll on a
      working bus, for which the worker leaves the queue and to which it returns if a channel is
      still on. */
  lemma EdgeIsReported(s: Sys, i: nat)
    requires s.x.Valid() && i < MAX_TOD && Has(s.x.mask, i) && s.x.queued && s.worker == Idle
    ensures var s1 := Step(s, Edge(i));
            var s2 := Step(s1, WorkFires);
            var s3 := Step(s2, WorkTests);
            var s4 := Step(s3, WorkPolls(ALL_WELL));
            && !s2.x.queued && s2.worker == Fired && s4.worker == Idle
            && s4.x.counts[i].events == s.x.counts[i].events + 1
            && (s4.x.queued <==> s4.x.mask != 0)
  {
    var s1 := Step(s, Edge(i));
    var s2 := Step(s1, WorkFires);
    assert s2.x.mask != 0 && Reports(s2.x, i, ALL_WELL[i]);
    PollReportsOnce(s2.x, ALL_WELL, MAX_TOD, i);
    KeepsQueue(s2.x, ALL_WELL, MAX_TOD);
  }

  lemma {:induction false} KeepsQueue(x: State, ps: seq<Poll>, k: nat)
    requires x.Valid() && |ps| == MAX_TOD && k <= MAX_TOD
    ensures CheckFirst(x, ps, k).queued == x.queued
  {
    if k > 0 {
      KeepsQueue(x, ps, k - 1);
    }
  }

  lemma {:induction false} SilentPoll(x: State, ps: seq<Poll>, k: nat, i: nat)
    requires x.Valid() && |ps| == MAX_TOD && k <= MAX_TOD && i < MAX_TOD && !Has(x.mask, i)
    ensures var y := CheckFirst(x, ps, k);
            !Has(y.mask, i) && y.counts[i].events == x.counts[i].events
  {
    if k > 0 {
      var y := CheckFirst(x, ps, k - 1);
      SilentPoll(x, ps, k - 1, i);
      if i != k - 1 {
        CheckOneElsewhere(y, k - 1, ps[k - 1], i);
      }
    }
  }

  predicate SwitchesOn(e: Event, i: nat) { e.CallEnable? && e.index == i }

  lemma SilentStep(s: Sys, e: Event, i: nat)
    requires s.x.Valid() && i < MAX_TOD && !Has(s.x.mask, i) && !SwitchesOn(e, i)
    ensures var x := Step(s, e).x;
            x.Valid() && !Has(x.mask, i) && x.counts[i].events == s.x.counts[i].events
  {
    match e
    case CallEnable(index, channel, badFlags, pin, armErr) =>
      EnableMeans(s.x, index, channel, badFlags, pin, armErr, i);
    case CallDisable(index, badFlags) => DisableMeans(s.x, index, badFlags, i);
    case WorkPolls(ps) =>
      if |ps| == MAX_TOD {
        SilentPoll(s.x, ps, MAX_TOD, i);
      }
    case _ =>
  }

  /** Main result: a channel that is off reports nothing, over every run, until a request switches
      it on. */
  lemma {:induction false} OffStaysSilent(states: seq<Sys>, events: seq<Event>, i: nat, m: nat, n: nat)
    requires IsRun(states, events) && m <= n < |states| && i < MAX_TOD
    requires states[m].x.Valid() && !Has(states[m].x.mask, i)
    requires forall k | m <= k < n :: !SwitchesOn(events[k], i)
    ensures states[n].x.Valid() && !Has(states[n].x.mask, i)
    ensures states[n].x.counts[i].events == states[m].x.counts[i].events
  {
    if m < n {
      OffStaysSilent(states, events, i, m, n - 1);
      SilentStep(states[n - 1], events[n - 1], i);
      assert states[n - 1 + 1] == Step(states[n - 1], events[n - 1]);
    }
  }

  /** A failed re-arm is the one way to a duplicate: the channel stays on with its old time
      captured, and the next poll reports that time again. */
  lemma FailedRearmReportsTwice(x: State, i: nat)
    requires x.Valid() && i < MAX_TOD && Has(x.mask, i) && !x.armed[i] && !x.singleShot
    ensures forall p: Poll | p.triggerErr == 0 == p.timeErr ::
              (Reports(CheckOne(x, i, p), i, Poll(0, 0, 0)) <==> p.armErr != 0)
  {
  }
}
