/** The poll loop that feeds the engine, and how soon it notices a stall. */
module DiagRun {
  import opened Base
  import opened DiagTypes
  import opened DiagDevice
  import opened DiagSlots
  import opened DiagEngine
  import opened DiagTrace

  const TICK_INTERVAL_NS: u64 := 500_000_000

  datatype Delivery = Delivery(e: Event, clock: Clock)

  /** How one poll ends, and the events it handed to the engine first: normally at clock reading `now`,
      interrupted, or with an error that ends the loop. */
  datatype Poll =
    | Polled(events: seq<Delivery>, now: u64)
    | Interrupted(events: seq<Delivery>)
    | Failed(events: seq<Delivery>)

  datatype Loop = Loop(ins: seq<Input>, lastTick: u64, live: bool)

  function Inputs(evs: seq<Delivery>): seq<Input> {
    seq(|evs|, i requires 0 <= i < |evs| => Ev(evs[i].e, evs[i].clock))
  }

  function StepLoop(l: Loop, p: Poll): Loop {
    if !l.live then l
    else
      match p
      case Polled(evs, now) =>
        if Sub64(now, l.lastTick) >= TICK_INTERVAL_NS
        then Loop(l.ins + Inputs(evs) + [Tk(now)], now, true)
        else l.(ins := l.ins + Inputs(evs))
      case Interrupted(evs) => l.(ins := l.ins + Inputs(evs))
      case Failed(evs) => Loop(l.ins + Inputs(evs), l.lastTick, false)
  }

  /** What the engine has been fed after `n` polls. */
  function LoopAt(polls: seq<Poll>, start: u64, n: nat): Loop
    requires n <= |polls|
  {
    if n == 0 then Loop([], start, true) else StepLoop(LoopAt(polls, start, n - 1), polls[n - 1])
  }

  /** Engine `e` has gone from table `s0` and findings `l0` through inputs `ins`. */
  ghost predicate Fed(e: Engine, s0: Slots, l0: seq<Finding>, ins: seq<Input>)
    requires e.Valid()
    reads e.Repr
  {
    var q := RunSlots(s0, e.rules, ins);
    e.Table() == q.slots && e.log == l0 + q.out
  }

  lemma RunStep(s: Slots, rules: Rules, ins: seq<Input>, x: Input)
    ensures var p, q := RunSlots(s, rules, ins), RunSlots(s, rules, ins + [x]);
      var r := StepSlots(p.slots, rules, x);
      q == Outcome(r.slots, p.out + r.out)
  {
    assert (ins + [x])[..|ins|] == ins;
  }

  method DeliverOne(e: Engine, d: Delivery, ghost s0: Slots, ghost l0: seq<Finding>, ghost ins: seq<Input>)
    requires e.Valid() && Fed(e, s0, l0, ins)
    modifies e.Repr
    ensures e.Valid() && Fed(e, s0, l0, ins + [Ev(d.e, d.clock)])
  {
    hide StepSlots, RunSlots;
    ghost var p := RunSlots(s0, e.rules, ins);
    ghost var r := StepSlots(p.slots, e.rules, Ev(d.e, d.clock));
    RunStep(s0, e.rules, ins, Ev(d.e, d.clock));
    e.Ingest(d.e, d.clock);
    assert e.Table() == r.slots && e.log == l0 + (p.out + r.out);
  }

  method TickOnce(e: Engine, now: u64, ghost s0: Slots, ghost l0: seq<Finding>, ghost ins: seq<Input>)
    requires e.Valid() && Fed(e, s0, l0, ins)
    modifies e.Repr
    ensures e.Valid() && Fed(e, s0, l0, ins + [Tk(now)])
  {
    RunStep(s0, e.rules, ins, Tk(now));
    e.Tick(now);
  }

  lemma InputsStep(ins: seq<Input>, evs: seq<Delivery>, i: nat)
    requires i < |evs|
    ensures ins + Inputs(evs[..i + 1]) == ins + Inputs(evs[..i]) + [Ev(evs[i].e, evs[i].clock)]
  {
  }

  method Deliver(e: Engine, evs: seq<Delivery>, ghost s0: Slots, ghost l0: seq<Finding>, ghost ins: seq<Input>)
    requires e.Valid() && Fed(e, s0, l0, ins)
    modifies e.Repr
    ensures e.Valid() && Fed(e, s0, l0, ins + Inputs(evs))
  {
    assert ins + Inputs(evs[..0]) == ins;
    for i := 0 to |evs|
      invariant e.Valid() && Fed(e, s0, l0, ins + Inputs(evs[..i]))
    {
      InputsStep(ins, evs, i);
      DeliverOne(e, evs[i], s0, l0, ins + Inputs(evs[..i]));
    }
    assert evs[..|evs|] == evs;
  }

  /** The loop: every poll delivers its events, and a tick follows when half a second has passed since the
      last one. An interrupted poll skips the tick; a failed one ends the loop. */
  method Run(e: Engine, polls: seq<Poll>, start: u64)
    requires e.Valid()
    modifies e.Repr
    ensures e.Valid()
    ensures Fed(e, old(e.Table()), old(e.log), LoopAt(polls, start, |polls|).ins)
  {
    hide StepSlots, Inputs, StepLoop;
    ghost var s0, l0, l := e.Table(), e.log, LoopAt(polls, start, 0);
    var lastTick, live := start, true;
    var n := 0;
    while n < |polls| && live
      invariant n <= |polls| && e.Valid()
      invariant l == LoopAt(polls, start, n) && l.live == live && l.lastTick == lastTick
      invariant Fed(e, s0, l0, l.ins)
    {
      lastTick, live := OnePoll(e, polls[n], lastTick, s0, l0, l);
      l, n := LoopAt(polls, start, n + 1), n + 1;
    }
    if !live {
      StoppedForGood(polls, start, n, |polls|);
    }
  }

  method OnePoll(e: Engine, p: Poll, lastTick: u64, ghost s0: Slots, ghost l0: seq<Finding>, ghost l: Loop)
    returns (tick: u64, live: bool)
    requires e.Valid() && l.live && l.lastTick == lastTick && Fed(e, s0, l0, l.ins)
    modifies e.Repr
    ensures e.Valid() && Fed(e, s0, l0, StepLoop(l, p).ins)
    ensures live == StepLoop(l, p).live && tick == StepLoop(l, p).lastTick
  {
    Deliver(e, p.events, s0, l0, l.ins);
    tick := lastTick;
    live := !p.Failed?;
    if p.Polled? && Sub64(p.now, lastTick) >= TICK_INTERVAL_NS {
      TickOnce(e, p.now, s0, l0, l.ins + Inputs(p.events));
      tick := p.now;
    }
  }

  lemma {:induction false} StoppedForGood(polls: seq<Poll>, start: u64, m: nat, n: nat)
    requires m <= n <= |polls| && !LoopAt(polls, start, m).live
    ensures LoopAt(polls, start, n) == LoopAt(polls, start, m)
  {
    if m < n {
      StoppedForGood(polls, start, m, n - 1);
    }
  }

  // ---- what the loop feeds the engine ----

  /** Some poll among the first `n` failed. */
  ghost predicate Stopped(polls: seq<Poll>, n: nat)
    requires n <= |polls|
  {
    exists i :: 0 <= i < n && polls[i].Failed?
  }

  /** The events of the polls up to `n`, or up to and including the first that failed, in order. */
  ghost function Delivered(polls: seq<Poll>, n: nat): seq<Input>
    requires n <= |polls|
  {
    if n == 0 then []
    else Delivered(polls, n - 1) + if Stopped(polls, n - 1) then [] else Inputs(polls[n - 1].events)
  }

  function WithoutTicks(ins: seq<Input>): seq<Input> {
    if ins == [] then []
    else
      var p, x := WithoutTicks(ins[..|ins| - 1]), ins[|ins| - 1];
      if x.Tk? then p else p + [x]
  }

  lemma {:induction false} WithoutTicksConcat(a: seq<Input>, b: seq<Input>)
    ensures WithoutTicks(a + b) == WithoutTicks(a) + WithoutTicks(b)
    decreases |b|
  {
    if b == [] {
      assert a + b == a;
    } else {
      WithoutTicksConcat(a, b[..|b| - 1]);
      assert (a + b)[..|a + b| - 1] == a + b[..|b| - 1];
    }
  }

  lemma {:induction false} EventsAreNotTicks(evs: seq<Delivery>)
    ensures WithoutTicks(Inputs(evs)) == Inputs(evs)
  {
    if evs != [] {
      EventsAreNotTicks(evs[..|evs| - 1]);
      assert Inputs(evs)[..|evs| - 1] == Inputs(evs[..|evs| - 1]);
    }
  }

  /** One poll: while the loop is live its events come next, every one of them and in order, whatever ends the
      poll; behind them comes at most one tick, and one comes exactly when the poll ended normally half a second
      or more after the last. */
  lemma PollFeeds(polls: seq<Poll>, start: u64, n: nat)
    requires n < |polls|
    ensures var l, m := LoopAt(polls, start, n), LoopAt(polls, start, n + 1);
      && (!l.live ==> m == l)
      && (l.live ==>
            && (m.live <==> !polls[n].Failed?)
            && if polls[n].Polled? && Sub64(polls[n].now, l.lastTick) >= 500_000_000
               then m.ins == l.ins + Inputs(polls[n].events) + [Tk(polls[n].now)] && m.lastTick == polls[n].now
               else m.ins == l.ins + Inputs(polls[n].events) && m.lastTick == l.lastTick)
  {
  }

  /** No event is lost, added or reordered: without its ticks, what the loop feeds the engine is what the polls
      delivered, up to and including the first that failed; and the loop lives until one fails. */
  lemma {:induction false} EveryEventIsFed(polls: seq<Poll>, start: u64, n: nat)
    requires n <= |polls|
    ensures WithoutTicks(LoopAt(polls, start, n).ins) == Delivered(polls, n)
    ensures LoopAt(polls, start, n).live <==> !Stopped(polls, n)
  {
    hide *;
    if n == 0 {
      NothingFed(polls, start);
    } else {
      EveryEventIsFed(polls, start, n - 1);
      FedNext(LoopAt(polls, start, n - 1), polls[n - 1]);
      StoppedNext(polls, n - 1);
      LoopNext(polls, start, n);
      DeliveredNext(polls, n - 1);
      assert WithoutTicks(LoopAt(polls, start, n - 1).ins) + [] == WithoutTicks(LoopAt(polls, start, n - 1).ins);
    }
  }

  lemma DeliveredNext(polls: seq<Poll>, n: nat)
    requires n < |polls|
    ensures Delivered(polls, n + 1)
         == if Stopped(polls, n) then Delivered(polls, n) else Delivered(polls, n) + Inputs(polls[n].events)
  {
  }

  lemma LoopNext(polls: seq<Poll>, start: u64, n: nat)
    requires 0 < n <= |polls|
    ensures LoopAt(polls, start, n) == StepLoop(LoopAt(polls, start, n - 1), polls[n - 1])
  {
  }

  lemma NothingFed(polls: seq<Poll>, start: u64)
    ensures WithoutTicks(LoopAt(polls, start, 0).ins) == Delivered(polls, 0)
    ensures LoopAt(polls, start, 0).live && !Stopped(polls, 0)
  {
  }

  lemma FedNext(l: Loop, p: Poll)
    ensures var m := StepLoop(l, p);
      && WithoutTicks(m.ins) == WithoutTicks(l.ins) + (if l.live then Inputs(p.events) else [])
      && (m.live <==> l.live && !p.Failed?)
  {
    hide WithoutTicks, Inputs;
    if l.live {
      EventsAreNotTicks(p.events);
      WithoutTicksConcat(l.ins, Inputs(p.events));
      if p.Polled? {
        WithoutTick(l.ins + Inputs(p.events), p.now);
      }
    }
  }

  lemma StoppedNext(polls: seq<Poll>, n: nat)
    requires n < |polls|
    ensures Stopped(polls, n + 1) <==> Stopped(polls, n) || polls[n].Failed?
  {
  }

  lemma WithoutTick(ins: seq<Input>, now: u64)
    ensures WithoutTicks(ins + [Tk(now)]) == WithoutTicks(ins)
  {
    assert (ins + [Tk(now)])[..|ins|] == ins;
  }

  // ---- detection latency ----

  /** No poll is interrupted, the clock does not go back, and iterations are at most `p` apart. */
  ghost predicate Steady(polls: seq<Poll>, start: u64, p: nat) {
    && (forall i :: 0 <= i < |polls| ==> polls[i].Polled?)
    && (|polls| > 0 ==> start <= polls[0].now <= start + p)
    && (forall i :: 0 < i < |polls| ==> polls[i - 1].now <= polls[i].now <= polls[i - 1].now + p)
  }

  function ClockAt(polls: seq<Poll>, start: u64, n: nat): u64
    requires n <= |polls| && (n > 0 ==> polls[n - 1].Polled?)
  {
    if n == 0 then start else polls[n - 1].now
  }

  lemma {:induction false} TickNeverLags(polls: seq<Poll>, start: u64, p: nat, n: nat)
    requires Steady(polls, start, p) && n <= |polls|
    ensures var l := LoopAt(polls, start, n);
      l.live && l.lastTick <= ClockAt(polls, start, n) < l.lastTick + 500_000_000
  {
    if n > 0 {
      TickNeverLags(polls, start, p, n - 1);
    }
  }

  /** Input `j` of the loop is a tick at a time in `[lo, hi)`. */
  ghost predicate TickIn(ins: seq<Input>, j: nat, lo: int, hi: int) {
    j < |ins| && ins[j].Tk? && lo <= ins[j].now < hi
  }

  /** Whatever moment `due` after the start one picks, the loop ticks less than 500 ms plus one iteration
      later, if it lives that long. */
  lemma {:induction false} TickSoonAfter(polls: seq<Poll>, start: u64, p: nat, n: nat, due: int) returns (j: nat)
    requires Steady(polls, start, p) && n <= |polls| && start <= due
    requires ClockAt(polls, start, n) >= due + 500_000_000
    ensures TickIn(LoopAt(polls, start, n).ins, j, due, due + 500_000_000 + p)
  {
    TickNeverLags(polls, start, p, n);
    TickNeverLags(polls, start, p, n - 1);
    var l, was := LoopAt(polls, start, n), LoopAt(polls, start, n - 1);
    if ClockAt(polls, start, n - 1) >= due + TICK_INTERVAL_NS {
      j := TickSoonAfter(polls, start, p, n - 1, due);
      assert was.ins <= l.ins;
    } else if was.lastTick >= due && was.lastTick != start {
      j := LastTickIsInput(polls, start, n - 1);
      assert was.ins <= l.ins;
    } else {
      j := |l.ins| - 1;
    }
  }

  lemma {:induction false} LastTickIsInput(polls: seq<Poll>, start: u64, n: nat) returns (j: nat)
    requires n <= |polls| && LoopAt(polls, start, n).lastTick != start
    ensures var l := LoopAt(polls, start, n); j < |l.ins| && l.ins[j] == Tk(l.lastTick)
  {
    var was := LoopAt(polls, start, n - 1);
    if LoopAt(polls, start, n).lastTick == was.lastTick {
      if was.lastTick != start {
        j := LastTickIsInput(polls, start, n - 1);
      }
    } else {
      j := |LoopAt(polls, start, n).ins| - 1;
    }
  }

  lemma {:induction false} LoopTicksInOrder(polls: seq<Poll>, start: u64, p: nat, n: nat)
    requires Steady(polls, start, p) && n <= |polls|
    ensures var ins := LoopAt(polls, start, n).ins;
      && (forall i :: 0 <= i < |ins| && ins[i].Tk? ==> ins[i].now <= ClockAt(polls, start, n))
      && (forall i, j :: 0 <= i < j < |ins| && ins[i].Tk? && ins[j].Tk? ==> ins[i].now <= ins[j].now)
  {
    if n > 0 {
      LoopTicksInOrder(polls, start, p, n - 1);
      var ins, was := LoopAt(polls, start, n).ins, LoopAt(polls, start, n - 1).ins;
      TickNeverLags(polls, start, p, n - 1);
      forall i | 0 <= i < |ins| && ins[i].Tk?
        ensures ins[i].now <= ClockAt(polls, start, n)
        ensures (i < |was| && ins[i] == was[i]) || (i == |ins| - 1 && ins[i].now == ClockAt(polls, start, n))
      {
      }
    }
  }

  /** From input `i` up to input `j` the device's episode neither ends nor sees state `w`. */
  ghost predicate Undisturbed(t: Trace, i: nat, j: nat, w: int) {
    forall h :: i < h < j ==>
      && !(t.Mine(h) && (t.ins[h].e.IsAttach() || t.ins[h].e.IsDisconnect()))
      && !(0 <= w <= 8 && t.StateEvent(h, w))
  }

  lemma {:induction false} StillStalled(t: Trace, i: nat, j: nat, ri: nat)
    requires i < j <= |t.ins| && ri < |t.rules| && t.rules[ri].DeadlineRule?
    requires t.Stalled(i + 1, ri) && Undisturbed(t, i, j, t.rules[ri].without)
    requires forall h :: i < h < j ==> !t.IdleTick(h)
    requires t.ReachedTs(i + 1, t.rules[ri].reached) != 0
    ensures t.EpStart(j) == t.EpStart(i + 1) && t.Stalled(j, ri)
    ensures t.ReachedTs(j, t.rules[ri].reached) == t.ReachedTs(i + 1, t.rules[ri].reached)
    decreases j
  {
    if i + 1 < j {
      StillStalled(t, i, j - 1, ri);
      var r := t.rules[ri];
      ReachedStep(t, j, r.reached);
      if 0 <= r.without <= 8 {
        ReachedStep(t, j, r.without);
      }
    }
  }

  /** When rule `ri` falls due for a device that is stalled once input `i` has been delivered. */
  ghost function DueTime(t: Trace, i: nat, ri: nat): int
    requires i < |t.ins| && ri < |t.rules| && t.rules[ri].DeadlineRule? && t.Stalled(i + 1, ri)
  {
    t.ReachedTs(i + 1, t.rules[ri].reached) + MsToNs(t.rules[ri].timeoutMs)
  }

  /** Tick `m` reports the very stall seen after input `i`: it belongs to the same episode, and the deadline
      has come. */
  ghost predicate ReportsStall(t: Trace, i: nat, m: nat, ri: nat)
    requires i < |t.ins| && ri < |t.rules| && t.rules[ri].DeadlineRule? && t.Stalled(i + 1, ri)
  {
    t.FiresAt(m, ri) && t.EpStart(m) == t.EpStart(i + 1) && DueTime(t, i, ri) <= t.ins[m].now
  }

  /** A report of the episode that is still running at `j`, with the stall of input `i` in it, is of that stall. */
  lemma SameStall(t: Trace, i: nat, j: nat, m: nat, ri: nat)
    requires i < j < |t.ins| && Ordered(t, j + 1) && ri < |t.rules| && t.rules[ri].DeadlineRule?
    requires t.EpStart(j) == t.EpStart(i + 1) && t.Stalled(j, ri) && t.Stalled(i + 1, ri)
    requires t.ReachedTs(j, t.rules[ri].reached) == t.ReachedTs(i + 1, t.rules[ri].reached)
    requires t.EpStart(j) <= m <= j && t.FiresAt(m, ri)
    ensures ReportsStall(t, i, m, ri)
  {
    SameEpisode(t, m, j);
    StalledPersists(t, m, j, ri);
    DueInOrder(t, m, ri);
  }

  /** A stalled device is reported at or before any later tick that comes at or after its deadline, even if
      it goes idle in between, as long as the timeout is at most the retention time. The report is of this
      stall, not of an earlier episode, and not early. */
  lemma ReportedByTick(t: Trace, i: nat, j: nat, ri: nat) returns (m: nat)
    requires Ordered(t, j + 1) && i < j && t.Ticks(j) && ri < |t.rules| && t.rules[ri].DeadlineRule?
    requires t.Stalled(i + 1, ri) && Undisturbed(t, i, j, t.rules[ri].without)
    requires MsToNs(t.rules[ri].timeoutMs) <= 10_000_000_000
    requires t.ins[j].now >= DueTime(t, i, ri)
    ensures m <= j && ReportsStall(t, i, m, ri)
  {
    var f := FirstTsIsFirst(t, t.EpStart(i + 1), i + 1, t.rules[ri].reached);
    if h :| i < h < j && t.IdleTick(h) {
      var g := FirstIdle(t, i, h);
      StillStalled(t, i, g, ri);
      m := IdleNeverSwallows(t, g, ri);
      SameStall(t, i, g, m, ri);
    } else {
      StillStalled(t, i, j, ri);
      DueInOrder(t, j, ri);
      if WasDue(t, j, ri) {
        m := FirstDueFires(t, j, ri);
      } else {
        m := j;
      }
      SameStall(t, i, j, m, ri);
    }
  }

  lemma {:induction false} FirstIdle(t: Trace, i: nat, h: nat) returns (g: nat)
    requires i < h && t.IdleTick(h)
    ensures i < g <= h && t.IdleTick(g) && forall x :: i < x < g ==> !t.IdleTick(x)
    decreases h
  {
    if x :| i < x < h && t.IdleTick(x) {
      g := FirstIdle(t, i, x);
    } else {
      g := h;
    }
  }

  /** Input `j` is the first tick at or after `due`. */
  ghost predicate FirstTickAfter(ins: seq<Input>, j: nat, due: int) {
    && j < |ins| && ins[j].Tk? && ins[j].now >= due
    && forall h :: 0 <= h < j && ins[h].Tk? ==> ins[h].now < due
  }

  lemma {:induction false} FindFirstTick(ins: seq<Input>, j: nat, due: int) returns (f: nat)
    requires j < |ins| && ins[j].Tk? && ins[j].now >= due
    ensures f <= j && FirstTickAfter(ins, f, due)
    decreases j
  {
    if h: nat :| h < j && ins[h].Tk? && ins[h].now >= due {
      f := FindFirstTick(ins, h, due);
    } else {
      f := j;
    }
  }

  /** Once input `i` has been delivered the device is stalled under a deadline of at most the retention time
      that no tick has passed yet, and up to the first tick that does, the device's inputs are in order and
      leave the stall alone. */
  ghost predicate StallsFrom(t: Trace, i: nat, ri: nat) {
    && i < |t.ins| && ri < |t.rules| && t.rules[ri].DeadlineRule? && t.Stalled(i + 1, ri)
    && MsToNs(t.rules[ri].timeoutMs) <= 10_000_000_000
    && (forall j: nat :: j <= i && t.Ticks(j) ==> t.ins[j].now < DueTime(t, i, ri))
    && forall j :: i < j && FirstTickAfter(t.ins, j, DueTime(t, i, ri)) ==>
         Ordered(t, j + 1) && Undisturbed(t, i, j, t.rules[ri].without)
  }

  /** Detection latency: with iterations at most `p` apart, such a stall is reported after input `i`, in the
      same episode, at a tick no earlier than first-seen + timeout and earlier than that + 500 ms + `p`. */
  lemma DetectionLatency(rules: Rules, k: DevKey, polls: seq<Poll>, start: u64, p: nat, i: nat, ri: nat)
    returns (m: nat)
    requires Steady(polls, start, p)
    requires var t := Trace(rules, k, LoopAt(polls, start, |polls|).ins);
      && StallsFrom(t, i, ri)
      && start <= DueTime(t, i, ri) && ClockAt(polls, start, |polls|) >= DueTime(t, i, ri) + 500_000_000
    ensures var t := Trace(rules, k, LoopAt(polls, start, |polls|).ins);
      && i < m < |t.ins| && ReportsStall(t, i, m, ri)
      && t.ins[m].now < DueTime(t, i, ri) + 500_000_000 + p
  {
    var t := Trace(rules, k, LoopAt(polls, start, |polls|).ins);
    var due := DueTime(t, i, ri);
    var late := TickSoonAfter(polls, start, p, |polls|, due);
    var j := FindFirstTick(t.ins, late, due);
    assert t.Ticks(j);
    LoopTicksInOrder(polls, start, p, |polls|);
    m := ReportedByTick(t, i, j, ri);
    assert t.Ticks(m);
  }

  /** The same seen from the engine: as long as the device keeps its slot, its one finding appears in the
      output of that tick. */
  lemma StallIsReported(rules: Rules, k: DevKey, ins: seq<Input>, m: nat, ri: nat)
    requires NeverRecycled(NoSlots(), rules, ins, k) && Trace(rules, k, ins).FiresAt(m, ri)
    ensures var out := StepSlots(RunSlots(NoSlots(), rules, ins[..m]).slots, rules, ins[m]).out;
      var mine := OfRule(OfKey(out, k), ri);
      |mine| == 1 && mine[0].rule == ri && mine[0].key == k && mine[0].refNs == ins[m].now
  {
    EngineShowsTrace(rules, ins, k, m);
    DeadlineReports(Trace(rules, k, ins), m, ri);
  }

  /** The findings after `n` inputs stay at the front of the log. */
  lemma {:induction false} LogGrows(rules: Rules, ins: seq<Input>, n: nat)
    requires n <= |ins|
    ensures RunSlots(NoSlots(), rules, ins[..n]).out <= RunSlots(NoSlots(), rules, ins).out
    decreases |ins|
  {
    if n < |ins| {
      var p := ins[..|ins| - 1];
      LogGrows(rules, p, n);
      assert p[..n] == ins[..n];
    } else {
      assert ins[..n] == ins;
    }
  }

  /** From the stall to the log: in an engine that `Run` has taken through the polls from an empty start, and in
      which the device kept its slot, the log holds at position `at` a finding about this device under this
      rule, with a reference time within the latency bound. */
  lemma StallIsLogged(e: Engine, k: DevKey, polls: seq<Poll>, start: u64, p: nat, i: nat, ri: nat)
    returns (at: nat)
    requires e.Valid() && Fed(e, NoSlots(), [], LoopAt(polls, start, |polls|).ins)
    requires Steady(polls, start, p) && NeverRecycled(NoSlots(), e.rules, LoopAt(polls, start, |polls|).ins, k)
    requires var t := Trace(e.rules, k, LoopAt(polls, start, |polls|).ins);
      && StallsFrom(t, i, ri)
      && start <= DueTime(t, i, ri) && ClockAt(polls, start, |polls|) >= DueTime(t, i, ri) + 500_000_000
    ensures var due := DueTime(Trace(e.rules, k, LoopAt(polls, start, |polls|).ins), i, ri);
      && at < |e.log| && e.log[at].rule == ri && e.log[at].key == k
      && due <= e.log[at].refNs < due + 500_000_000 + p
  {
    var ins := LoopAt(polls, start, |polls|).ins;
    var m := DetectionLatency(e.rules, k, polls, start, p, i, ri);
    StallIsReported(e.rules, k, ins, m, ri);
    hide StepSlots, RunSlots, OfRule, OfKey, StallsFrom, Fed;
    var out := StepSlots(RunSlots(NoSlots(), e.rules, ins[..m]).slots, e.rules, ins[m]).out;
    var a := OfRuleAt(OfKey(out, k), ri);
    var b := OfKeyAt(out, k, a);
    at := LogAt(e.rules, ins, m, b);
    assert e.log == RunSlots(NoSlots(), e.rules, ins).out by { LogIs(e, ins); }
  }

  lemma LogIs(e: Engine, ins: seq<Input>)
    requires e.Valid() && Fed(e, NoSlots(), [], ins)
    ensures e.log == RunSlots(NoSlots(), e.rules, ins).out
  {
  }

  lemma LogAt(rules: Rules, ins: seq<Input>, m: nat, b: nat) returns (at: nat)
    requires m < |ins|
    requires b < |StepSlots(RunSlots(NoSlots(), rules, ins[..m]).slots, rules, ins[m]).out|
    ensures at < |RunSlots(NoSlots(), rules, ins).out|
    ensures RunSlots(NoSlots(), rules, ins).out[at]
         == StepSlots(RunSlots(NoSlots(), rules, ins[..m]).slots, rules, ins[m]).out[b]
  {
    hide *;
    var before := RunSlots(NoSlots(), rules, ins[..m]);
    RunStep(NoSlots(), rules, ins[..m], ins[m]);
    assert ins[..m] + [ins[m]] == ins[..m + 1];
    LogGrows(rules, ins, m + 1);
    at := InLog(before.out, StepSlots(before.slots, rules, ins[m]).out, RunSlots(NoSlots(), rules, ins).out, b);
  }

  lemma InLog(before: seq<Finding>, out: seq<Finding>, log: seq<Finding>, b: nat) returns (at: nat)
    requires before + out <= log && b < |out|
    ensures at < |log| && log[at] == out[b]
  {
    at := |before| + b;
    assert (before + out)[at] == out[b];
  }

  /** Where the first finding of a rule stands. */
  lemma {:induction false} OfRuleAt(out: seq<Finding>, ri: nat) returns (a: nat)
    requires OfRule(out, ri) != []
    ensures a < |out| && out[a] == OfRule(out, ri)[0]
  {
    var p := out[..|out| - 1];
    if OfRule(p, ri) != [] {
      a := OfRuleAt(p, ri);
    } else {
      a := |out| - 1;
    }
  }

  /** Where finding `a` of a device stands among all. */
  lemma {:induction false} OfKeyAt(out: seq<Finding>, k: DevKey, a: nat) returns (b: nat)
    requires a < |OfKey(out, k)|
    ensures b < |out| && out[b] == OfKey(out, k)[a]
  {
    var p := out[..|out| - 1];
    if a < |OfKey(p, k)| {
      b := OfKeyAt(p, k, a);
    } else {
      b := |out| - 1;
    }
  }
}
