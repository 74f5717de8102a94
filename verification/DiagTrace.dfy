/** What one device's reports are, stated on the raw input trace: no ring, no bit mask, no latch.

    `Life` is the full history since the device was last forgotten, `EpStart` the input at which its
    current enumeration episode began. The theorems say that the window is a summary of these, and that
    deadline reports and cooldowns are what the trace says they should be. */
module DiagTrace {
  import opened Base
  import opened DiagTypes
  import opened DiagQuery
  import opened DiagDevice
  import opened DiagConditions
  import opened DiagSlots

  datatype Trace = Trace(rules: Rules, k: DevKey, ins: seq<Input>)
  {
    /** Input `n` is an event of this device. */
    predicate Mine(n: nat) {
      n < |ins| && ins[n].Ev? && ins[n].e.Key() == k
    }

    predicate Ticks(n: nat) {
      n < |ins| && ins[n].Tk?
    }

    // ---- the engine's view ----

    function StateAt(n: nat): Option<Device>
      requires n <= |ins|
    {
      if n == 0 then None else StepDevice(StateAt(n - 1), rules, k, ins[n - 1]).state
    }

    function OutAt(n: nat): seq<Finding>
      requires n < |ins|
    {
      StepDevice(StateAt(n), rules, k, ins[n]).out
    }

    // ---- the trace's own view ----

    /** Every event since the device was last forgotten, newest first. */
    function Life(n: nat): seq<Event>
      requires n <= |ins|
    {
      if n == 0 then []
      else if Mine(n - 1) then [ins[n - 1].e] + Life(n - 1)
      else if Ticks(n - 1) && LongIdle(Life(n - 1), ins[n - 1].now) then []
      else Life(n - 1)
    }

    predicate LongIdle(life: seq<Event>, now: u64) {
      life != [] && Sub64(now, life[0].ts) > RETENTION_NS
    }

    /** The device is forgotten at tick `n`. */
    predicate IdleTick(n: nat) {
      Ticks(n) && LongIdle(Life(n), ins[n].now)
    }

    /** Where the episode running just before input `n` began: at the NOTATTACHED event itself, or right
        after a disconnect or an idle tick. */
    function EpStart(n: nat): (r: nat)
      requires n <= |ins|
      ensures r <= n
    {
      if n == 0 then 0
      else if Mine(n - 1) && ins[n - 1].e.IsAttach() then n - 1
      else if Mine(n - 1) && ins[n - 1].e.IsDisconnect() then n
      else if IdleTick(n - 1) then n
      else EpStart(n - 1)
    }

    predicate StateEvent(n: nat, s: nat) {
      Mine(n) && ins[n].e.IsState() && ins[n].e.newState == s && s < 9
    }

    ghost predicate Reached(n: nat, s: nat)
      requires n <= |ins|
    {
      exists i :: EpStart(n) <= i < n && StateEvent(i, s)
    }

    /** The first non-zero time of state `s` among inputs `a..n`, zero if there is none. */
    function FirstTs(a: nat, n: nat, s: nat): u64
      requires a <= n <= |ins|
    {
      if a == n then 0
      else if FirstTs(a, n - 1, s) != 0 then FirstTs(a, n - 1, s)
      else if StateEvent(n - 1, s) then ins[n - 1].e.ts
      else 0
    }

    function ReachedTs(n: nat, s: nat): u64
      requires n <= |ins|
    {
      FirstTs(EpStart(n), n, s)
    }

    /** Tick `n` finds the device stalled under deadline rule `ri`. */
    ghost predicate Due(n: nat, ri: nat) {
      && ri < |rules| && rules[ri].DeadlineRule? && Ticks(n)
      && Stalled(n, ri)
      && Sub64(ins[n].now, ReachedTs(n, rules[ri].reached)) >= MsToNs(rules[ri].timeoutMs)
    }

    /** The episode reached the rule's state and has not seen the one that cancels the alarm. */
    ghost predicate Stalled(n: nat, ri: nat)
      requires n <= |ins| && ri < |rules| && rules[ri].DeadlineRule?
    {
      && 0 <= rules[ri].reached <= 8 && Reached(n, rules[ri].reached)
      && !(0 <= rules[ri].without <= 8 && Reached(n, rules[ri].without))
    }

    /** The one tick of an episode at which a deadline rule should report: the first at which it is due. */
    ghost predicate FiresAt(n: nat, ri: nat) {
      Due(n, ri) && forall m :: EpStart(n) <= m < n ==> !Due(m, ri)
    }

    /** Input `n` is an event that event rule `ri` is about: its trigger matches, and its conditions hold over
        the newest 1024 events of the device's history, this one included. */
    predicate Triggers(n: nat, ri: nat) {
      && Mine(n) && ri < |rules| && rules[ri].EventRule?
      && TriggerMatch(rules[ri].trigger, ins[n].e)
      && EvalWhens(rules[ri].whens, Take(Life(n + 1), RING_SIZE), ins[n].e.ts).ok
    }

    /** Clock reading of the rule's last report before input `n` since the device was last forgotten, zero
        if there is none. */
    function LastReport(n: nat, ri: nat): u64
      requires n <= |ins| && ri < MAX_RULES
      decreases n, 0
    {
      if n == 0 || IdleTick(n - 1) then 0
      else if Reports(n - 1, ri) then ins[n - 1].clock[ri]
      else LastReport(n - 1, ri)
    }

    /** The rule should report at input `n`: it triggers, and its last report, if any, is at least 2 s back. */
    predicate Reports(n: nat, ri: nat)
      decreases n, 1
    {
      && Triggers(n, ri)
      && (LastReport(n, ri) == 0 || Sub64(ins[n].clock[ri], LastReport(n, ri)) >= COOLDOWN_NS)
    }
  }

  // ---- the window summarises the life ----

  function LastVid(life: seq<Event>): nat {
    if life == [] then 0 else if life[0].vid != 0 then life[0].vid else LastVid(life[1..])
  }

  function LastPid(life: seq<Event>): nat {
    if life == [] then 0 else if life[0].pid != 0 then life[0].pid else LastPid(life[1..])
  }

  /** The ids of a device are those of its newest event that carries them, zero when none does. */
  lemma {:induction false} IdsAreNewest(life: seq<Event>, i: nat)
    requires i < |life|
    ensures life[i].vid != 0 && (forall j :: 0 <= j < i ==> life[j].vid == 0) ==> LastVid(life) == life[i].vid
    ensures life[i].pid != 0 && (forall j :: 0 <= j < i ==> life[j].pid == 0) ==> LastPid(life) == life[i].pid
    ensures (forall j :: 0 <= j < |life| ==> life[j].vid == 0) ==> LastVid(life) == 0
    ensures (forall j :: 0 <= j < |life| ==> life[j].pid == 0) ==> LastPid(life) == 0
  {
    var rest := life[1..];
    if rest == [] {
      assert LastVid(rest) == 0 && LastPid(rest) == 0;
    } else {
      IdsAreNewest(rest, if i > 0 then i - 1 else 0);
      assert forall j :: 0 <= j < |rest| ==> rest[j] == life[j + 1];
    }
  }

  ghost predicate Summarises(od: Option<Device>, k: DevKey, life: seq<Event>) {
    && (od.None? <==> life == [])
    && (od.Some? ==>
          && od.value.key == k && od.value.recent == Take(life, RING_SIZE) && od.value.lastSeen == life[0].ts
          && od.value.vid == LastVid(life) && od.value.pid == LastPid(life))
  }

  lemma LearnSummarises(d: Device, e: Event, life: seq<Event>)
    requires if life == [] then d == Fresh(d.key) else Summarises(Some(d), d.key, life)
    ensures Summarises(Some(Learn(d, e)), d.key, [e] + life)
  {
    assert ([e] + life)[1..] == life;
    assert Take([e] + Take(life, RING_SIZE), RING_SIZE) == Take([e] + life, RING_SIZE);
  }

  lemma NoteEnumKeeps(d: Device, e: Event)
    ensures NoteEnum(d, e) == d.(seen := NoteEnum(d, e).seen, stateTs := NoteEnum(d, e).stateTs,
                                 dlFired := NoteEnum(d, e).dlFired)
  {
  }

  /** Ring, time and identity of a window come from the device's full history since it was last forgotten:
      the ring is its newest 1024 events, and a device is held exactly while it has a history. */
  lemma {:induction false} WindowIsLife(t: Trace, n: nat)
    requires n <= |t.ins|
    ensures Summarises(t.StateAt(n), t.k, t.Life(n))
  {
    if n > 0 {
      WindowIsLife(t, n - 1);
      var od, x := t.StateAt(n - 1), t.ins[n - 1];
      match x {
        case Ev(e, clock) =>
          if e.Key() == t.k {
            var d := if od.Some? then od.value else Fresh(t.k);
            LearnSummarises(d, e, t.Life(n - 1));
            NoteEnumKeeps(Learn(d, e), e);
            EventRulesFrame(Observe(d, e), t.rules, e, clock, |t.rules|);
          }
        case Tk(now) =>
          if od.Some? {
            DeadlinesFrame(od.value, t.rules, now, |t.rules|);
          }
      }
    }
  }

  // ---- the episode summary outlives the ring ----

  lemma {:induction false} DormantEpisode(t: Trace, n: nat)
    requires n <= |t.ins| && t.Life(n) == []
    ensures forall i :: t.EpStart(n) <= i < n ==> !t.Mine(i)
  {
    if n > 0 && !t.Mine(n - 1) && !t.IdleTick(n - 1) {
      DormantEpisode(t, n - 1);
    }
  }

  /** What `Tracks` says of one state: the bit is set exactly when the episode saw the state, and its time
      is the first one seen. */
  ghost predicate TracksState(t: Trace, n: nat, d: Device, s: nat)
    requires n <= |t.ins| && s < 9
  {
    (s in d.seen <==> t.Reached(n, s)) && d.stateTs[s] == t.ReachedTs(n, s)
  }

  lemma ReachedStep(t: Trace, n: nat, s: nat)
    requires 0 < n <= |t.ins| && t.EpStart(n) == t.EpStart(n - 1)
    ensures t.Reached(n, s) <==> t.Reached(n - 1, s) || t.StateEvent(n - 1, s)
    ensures t.ReachedTs(n, s) == if t.ReachedTs(n - 1, s) != 0 then t.ReachedTs(n - 1, s)
                                 else if t.StateEvent(n - 1, s) then t.ins[n - 1].e.ts else 0
  {
  }

  lemma EmptyEpisode(t: Trace, n: nat, s: nat)
    requires n <= |t.ins| && t.EpStart(n) == n
    ensures !t.Reached(n, s) && t.ReachedTs(n, s) == 0
  {
  }

  lemma FreshEpisode(t: Trace, n: nat, s: nat)
    requires 0 < n <= |t.ins| && t.EpStart(n) == n - 1
    ensures t.Reached(n, s) <==> t.StateEvent(n - 1, s)
    ensures t.ReachedTs(n, s) == if t.StateEvent(n - 1, s) then t.ins[n - 1].e.ts else 0
  {
    assert t.FirstTs(n - 1, n - 1, s) == 0;
  }

  lemma ObserveState(t: Trace, n: nat, d: Device, s: nat)
    requires n < |t.ins| && t.Mine(n) && s < 9
    requires TracksState(t, n, d, s)
    ensures TracksState(t, n + 1, Observe(d, t.ins[n].e), s)
  {
    var e := t.ins[n].e;
    if e.IsAttach() {
      FreshEpisode(t, n + 1, s);
    } else if e.IsDisconnect() {
      EmptyEpisode(t, n + 1, s);
    } else {
      ReachedStep(t, n + 1, s);
    }
  }

  lemma {:induction false} DormantFirstTs(t: Trace, a: nat, n: nat, s: nat)
    requires a <= n <= |t.ins| && forall i :: a <= i < n ==> !t.Mine(i)
    ensures t.FirstTs(a, n, s) == 0
  {
    if a < n {
      DormantFirstTs(t, a, n - 1, s);
    }
  }

  /** `seen_states` and `state_ts` are the set and the first times of the states reached since the last
      NOTATTACHED, disconnect or idle eviction, over the full history, whatever the ring has dropped. */
  lemma {:induction false} EpisodeOutlivesRing(t: Trace, n: nat, s: nat)
    requires n <= |t.ins| && s < 9
    ensures t.StateAt(n).Some? ==> TracksState(t, n, t.StateAt(n).value, s)
    ensures t.StateAt(n).None? ==> !t.Reached(n, s) && t.ReachedTs(n, s) == 0
  {
    WindowIsLife(t, n);
    if t.StateAt(n).None? {
      DormantEpisode(t, n);
      DormantFirstTs(t, t.EpStart(n), n, s);
    } else {
      EpisodeOutlivesRing(t, n - 1, s);
      WindowIsLife(t, n - 1);
      var od, x := t.StateAt(n - 1), t.ins[n - 1];
      match x {
        case Ev(e, clock) =>
          if e.Key() == t.k {
            var d := if od.Some? then od.value else Fresh(t.k);
            ObserveState(t, n - 1, d, s);
            EventRulesFrame(Observe(d, e), t.rules, e, clock, |t.rules|);
          } else {
            ReachedStep(t, n, s);
          }
        case Tk(now) =>
          DeadlinesFrame(od.value, t.rules, now, |t.rules|);
          ReachedStep(t, n, s);
      }
    }
  }

  // ---- deadline reports ----

  lemma DueIsOverdue(t: Trace, n: nat, ri: nat)
    requires t.Ticks(n) && ri < |t.rules|
    ensures t.StateAt(n).Some? ==> (Overdue(t.rules[ri], t.StateAt(n).value, t.ins[n].now) <==> t.Due(n, ri))
    ensures t.StateAt(n).None? ==> !t.Due(n, ri)
  {
    var r := t.rules[ri];
    if r.DeadlineRule? {
      if 0 <= r.reached <= 8 {
        EpisodeOutlivesRing(t, n, r.reached);
      }
      if 0 <= r.without <= 8 {
        EpisodeOutlivesRing(t, n, r.without);
      }
    }
  }

  /** A latch is set exactly when its rule has been due in this episode. */
  ghost predicate WasDue(t: Trace, n: nat, ri: nat)
    requires n <= |t.ins|
  {
    exists m :: t.EpStart(n) <= m < n && t.Due(m, ri)
  }

  lemma WasDueStep(t: Trace, n: nat, ri: nat)
    requires 0 < n <= |t.ins|
    ensures t.EpStart(n) == n ==> !WasDue(t, n, ri)
    ensures t.EpStart(n) == t.EpStart(n - 1) ==> (WasDue(t, n, ri) <==> WasDue(t, n - 1, ri) || t.Due(n - 1, ri))
    ensures t.EpStart(n) >= n - 1 && !t.Ticks(n - 1) ==> !WasDue(t, n, ri)
  {
  }

  ghost predicate LatchTracks(t: Trace, n: nat, ri: nat)
    requires n <= |t.ins| && ri < MAX_RULES
  {
    if t.StateAt(n).Some? then t.StateAt(n).value.dlFired[ri] <==> WasDue(t, n, ri) else !WasDue(t, n, ri)
  }

  lemma LatchAfterEvent(t: Trace, n: nat, ri: nat)
    requires t.Mine(n) && ri < |t.rules| && LatchTracks(t, n, ri)
    ensures LatchTracks(t, n + 1, ri)
  {
    var d := if t.StateAt(n).Some? then t.StateAt(n).value else Fresh(t.k);
    var e, clock := t.ins[n].e, t.ins[n].clock;
    WasDueStep(t, n + 1, ri);
    EventRulesFrame(Observe(d, e), t.rules, e, clock, |t.rules|);
    assert Observe(d, e).dlFired[ri] <==> !e.IsAttach() && !e.IsDisconnect() && d.dlFired[ri];
  }

  lemma LatchAfterTick(t: Trace, n: nat, ri: nat)
    requires t.Ticks(n) && ri < |t.rules| && LatchTracks(t, n, ri)
    ensures LatchTracks(t, n + 1, ri)
  {
    TickEpisode(t, n);
    WasDueStep(t, n + 1, ri);
    DueIsOverdue(t, n, ri);
    hide WasDue, Trace.Due, Trace.IdleTick, Trace.EpStart, Trace.StateAt, Overdue, RunDeadlines, Idle;
    if t.StateAt(n).Some? {
      DeadlineEffect(t.StateAt(n).value, t.rules, t.ins[n].now, |t.rules|, ri);
    }
  }

  /** What a tick does to the episode and to the window. */
  lemma TickEpisode(t: Trace, n: nat)
    requires t.Ticks(n)
    ensures t.EpStart(n + 1) == if t.IdleTick(n) then n + 1 else t.EpStart(n)
    ensures t.StateAt(n).Some? ==> (t.IdleTick(n) <==> Idle(t.StateAt(n).value, t.ins[n].now))
    ensures t.StateAt(n).None? ==> !t.IdleTick(n)
    ensures t.StateAt(n + 1) == AfterTick(t.StateAt(n), t.rules, t.ins[n].now)
  {
    WindowIsLife(t, n);
  }

  lemma {:induction false} LatchIsWasDue(t: Trace, n: nat, ri: nat)
    requires n <= |t.ins| && ri < |t.rules|
    ensures LatchTracks(t, n, ri)
  {
    if n > 0 {
      LatchIsWasDue(t, n - 1, ri);
      if t.Mine(n - 1) {
        LatchAfterEvent(t, n - 1, ri);
      } else if t.Ticks(n - 1) {
        LatchAfterTick(t, n - 1, ri);
      } else {
        WasDueStep(t, n, ri);
      }
    }
  }

  /** Deadline reports are exactly what the trace calls for: one finding of a deadline rule at the first
      tick of the episode that finds it due, and none at any other input. */
  lemma DeadlineReports(t: Trace, n: nat, ri: nat)
    requires n < |t.ins| && ri < |t.rules| && t.rules[ri].DeadlineRule?
    ensures OfRule(t.OutAt(n), ri)
         == if t.FiresAt(n, ri)
            then [Finding(ri, t.k, LastVid(t.Life(n)), LastPid(t.Life(n)), t.ins[n].now, 0,
                          t.rules[ri].timeoutMs, None, [])]
            else []
  {
    var od, x := t.StateAt(n), t.ins[n];
    WindowIsLife(t, n);
    match x {
      case Ev(e, clock) =>
        if e.Key() == t.k {
          var d := if od.Some? then od.value else Fresh(t.k);
          EventRuleEffect(Observe(d, e), t.rules, e, clock, |t.rules|, ri);
        }
      case Tk(now) =>
        LatchIsWasDue(t, n, ri);
        DueIsOverdue(t, n, ri);
        if od.Some? {
          DeadlineEffect(od.value, t.rules, now, |t.rules|, ri);
        }
    }
  }

  /** Inputs of one episode agree on where it began; only the NOTATTACHED event that opens it still
      belongs to the one before. */
  lemma {:induction false} SameEpisode(t: Trace, m: nat, n: nat)
    requires n <= |t.ins| && t.EpStart(n) <= m <= n
    ensures t.EpStart(m) == t.EpStart(n) || (m == t.EpStart(n) && t.Mine(m))
    decreases n
  {
    if m < n && t.EpStart(n) == t.EpStart(n - 1) {
      SameEpisode(t, m, n - 1);
    }
  }

  ghost function FiringTicks(t: Trace, n: nat, ri: nat): set<nat>
    requires n <= |t.ins|
  {
    set m: nat | t.EpStart(n) <= m < n && t.FiresAt(m, ri)
  }

  lemma FirstDueFires(t: Trace, n: nat, ri: nat) returns (m: nat)
    requires n <= |t.ins| && WasDue(t, n, ri)
    ensures t.EpStart(n) <= m < n && t.FiresAt(m, ri)
  {
    m :| t.EpStart(n) <= m < n && t.Due(m, ri);
    while exists i :: t.EpStart(n) <= i < m && t.Due(i, ri)
      invariant t.EpStart(n) <= m < n && t.Due(m, ri)
      decreases m
    {
      var i: nat :| t.EpStart(n) <= i < m && t.Due(i, ri);
      m := i;
    }
    SameEpisode(t, m, n);
  }

  /** Exactly once: within one episode a deadline rule reports at most once, and does report as soon as it
      has been due at all. */
  lemma ExactlyOnePerEpisode(t: Trace, n: nat, ri: nat)
    requires n <= |t.ins|
    ensures |FiringTicks(t, n, ri)| == if WasDue(t, n, ri) then 1 else 0
  {
    forall a, b | a in FiringTicks(t, n, ri) && b in FiringTicks(t, n, ri) ensures a == b {
      SameEpisode(t, a, n);
      SameEpisode(t, b, n);
    }
    if WasDue(t, n, ri) {
      var m := FirstDueFires(t, n, ri);
      forall a | a in FiringTicks(t, n, ri) ensures a == m {
        assert m in FiringTicks(t, n, ri);
      }
      assert FiringTicks(t, n, ri) == {m};
    } else {
      assert FiringTicks(t, n, ri) == {};
    }
  }

  /** Among the first `n` inputs, per-device timestamps are positive, do not decrease, and are not later than
      a tick that follows. */
  ghost predicate Ordered(t: Trace, n: nat) {
    && (forall i: nat :: i < n && t.Mine(i) ==> 0 < t.ins[i].e.ts)
    && (forall i: nat, j: nat :: i < j < n && t.Mine(i) && t.Mine(j) ==> t.ins[i].e.ts <= t.ins[j].e.ts)
    && (forall i: nat, j: nat :: i < j < n && t.Mine(i) && t.Ticks(j) ==> t.ins[i].e.ts <= t.ins[j].now)
  }

  /** With positive timestamps, `FirstTs` is the time of the first event of that state. */
  lemma {:induction false} FirstTsIsFirst(t: Trace, a: nat, n: nat, s: nat) returns (i: nat)
    requires Ordered(t, n) && a <= n <= |t.ins|
    ensures t.FirstTs(a, n, s) == 0 ==> forall j :: a <= j < n ==> !t.StateEvent(j, s)
    ensures t.FirstTs(a, n, s) != 0 ==>
      && a <= i < n && t.StateEvent(i, s) && t.FirstTs(a, n, s) == t.ins[i].e.ts
      && forall j :: a <= j < i ==> !t.StateEvent(j, s)
  {
    i := a;
    if a < n {
      i := FirstTsIsFirst(t, a, n - 1, s);
      if t.FirstTs(a, n - 1, s) == 0 && t.StateEvent(n - 1, s) {
        i := n - 1;
      }
    }
  }

  /** In time order, being due is a comparison of plain numbers: the tick is at or after the first time the
      state was reached plus the timeout. */
  lemma DueInOrder(t: Trace, n: nat, ri: nat)
    requires Ordered(t, n + 1) && t.Ticks(n) && ri < |t.rules| && t.rules[ri].DeadlineRule?
    ensures t.Due(n, ri) <==>
      t.Stalled(n, ri) && t.ins[n].now >= t.ReachedTs(n, t.rules[ri].reached) + MsToNs(t.rules[ri].timeoutMs)
  {
    if t.Stalled(n, ri) {
      var i := FirstTsIsFirst(t, t.EpStart(n), n, t.rules[ri].reached);
    }
  }

  lemma {:induction false} LifeNewest(t: Trace, n: nat) returns (i: nat)
    requires n <= |t.ins| && t.Life(n) != []
    ensures i < n && t.Mine(i) && t.ins[i].e == t.Life(n)[0]
    ensures forall j :: i < j < n ==> !t.Mine(j) && !t.IdleTick(j)
  {
    if t.Mine(n - 1) {
      i := n - 1;
    } else {
      i := LifeNewest(t, n - 1);
    }
  }

  /** Idleness in seconds: in time order, a tick forgets the device exactly when its newest event is more than ten
      seconds back; until then its window holds its newest 1024 events. */
  lemma IdleInSeconds(t: Trace, n: nat)
    requires Ordered(t, n + 1) && t.Ticks(n)
    ensures t.IdleTick(n) <==> t.Life(n) != [] && t.ins[n].now - t.Life(n)[0].ts > 10_000_000_000
    ensures t.StateAt(n).Some? <==> t.Life(n) != []
    ensures t.StateAt(n).Some? ==> |t.StateAt(n).value.recent| == Min(|t.Life(n)|, 1024)
  {
    WindowIsLife(t, n);
    if t.Life(n) != [] {
      var i := LifeNewest(t, n);
    }
  }

  /** Nothing overdue is ever swallowed: when an idle device is forgotten while stalled under a deadline of
      at most the retention time, the rule has reported in that episode, at this very tick at the latest.
      The deadline check runs before the eviction, and an idle device is always overdue. */
  lemma IdleNeverSwallows(t: Trace, n: nat, ri: nat) returns (m: nat)
    requires Ordered(t, n + 1) && t.IdleTick(n) && ri < |t.rules| && t.rules[ri].DeadlineRule?
    requires t.Stalled(n, ri) && MsToNs(t.rules[ri].timeoutMs) <= 10_000_000_000
    ensures t.EpStart(n) <= m <= n && t.FiresAt(m, ri)
  {
    var i := FirstTsIsFirst(t, t.EpStart(n), n, t.rules[ri].reached);
    var l := LifeNewest(t, n);
    assert t.ins[i].e.ts <= t.ins[l].e.ts by {
      assert i <= l || t.Mine(i);
    }
    DueInOrder(t, n, ri);
    if WasDue(t, n, ri) {
      m := FirstDueFires(t, n, ri);
    } else {
      m := n;
    }
  }

  lemma StalledPersists(t: Trace, m: nat, n: nat, ri: nat)
    requires Ordered(t, n) && n <= |t.ins| && t.EpStart(n) <= m <= n
    requires ri < |t.rules| && t.rules[ri].DeadlineRule? && t.Stalled(n, ri) && t.Due(m, ri)
    ensures t.ReachedTs(m, t.rules[ri].reached) == t.ReachedTs(n, t.rules[ri].reached)
  {
    SameEpisode(t, m, n);
    var s := t.rules[ri].reached;
    var i := FirstTsIsFirst(t, t.EpStart(m), m, s);
    var j := FirstTsIsFirst(t, t.EpStart(n), n, s);
  }

  ghost predicate TicksInOrder(t: Trace, n: nat) {
    forall i: nat, j: nat :: i < j < n && t.Ticks(i) && t.Ticks(j) ==> t.ins[i].now <= t.ins[j].now
  }

  /** For deadlines longer than the retention time the alarm can be lost, and exactly then: the stalled
      device is forgotten before its deadline has come. */
  lemma SwallowedIffForgottenEarly(t: Trace, n: nat, ri: nat)
    requires Ordered(t, n + 1) && TicksInOrder(t, n + 1) && t.IdleTick(n)
    requires ri < |t.rules| && t.rules[ri].DeadlineRule? && t.Stalled(n, ri)
    ensures (forall m :: t.EpStart(n) <= m <= n ==> !t.FiresAt(m, ri))
       <==> t.ins[n].now < t.ReachedTs(n, t.rules[ri].reached) + MsToNs(t.rules[ri].timeoutMs)
  {
    DueInOrder(t, n, ri);
    if t.Due(n, ri) {
      var m := DueFires(t, n, ri);
    } else {
      forall m | t.EpStart(n) <= m <= n ensures !t.FiresAt(m, ri) {
        EarlierNotDue(t, m, n, ri);
      }
    }
  }

  lemma DueFires(t: Trace, n: nat, ri: nat) returns (m: nat)
    requires t.Due(n, ri)
    ensures t.EpStart(n) <= m <= n && t.FiresAt(m, ri)
  {
    if WasDue(t, n, ri) {
      m := FirstDueFires(t, n, ri);
    } else {
      m := n;
    }
  }

  lemma EarlierNotDue(t: Trace, m: nat, n: nat, ri: nat)
    requires Ordered(t, n + 1) && TicksInOrder(t, n + 1) && t.Ticks(n) && t.EpStart(n) <= m <= n
    requires ri < |t.rules| && t.rules[ri].DeadlineRule? && t.Stalled(n, ri) && !t.Due(n, ri)
    ensures !t.Due(m, ri)
  {
    hide *;
    if t.Due(m, ri) {
      DueTicks(t, m, ri);
      OrderedLess(t, m, n);
      StalledPersists(t, m, n, ri);
      DueInOrder(t, m, ri);
      DueInOrder(t, n, ri);
    }
  }

  lemma DueTicks(t: Trace, m: nat, ri: nat)
    requires t.Due(m, ri)
    ensures t.Ticks(m) && m < |t.ins| && t.ins[m].Tk?
  {
  }

  lemma OrderedLess(t: Trace, m: nat, n: nat)
    requires Ordered(t, n + 1) && TicksInOrder(t, n + 1) && m <= n && t.Ticks(n)
    ensures Ordered(t, m + 1) && Ordered(t, n) && n < |t.ins| && t.ins[n].Tk?
    ensures t.Ticks(m) ==> t.ins[m].now <= t.ins[n].now
  {
  }

  /** Such a loss exists: ADDRESS is reached at 1 ns, the deadline is 20 s, and a tick just past 10 s
      forgets the device without a report. */
  lemma LongDeadlineSwallowed(clock: Clock)
    ensures var e := Event(EVT_ENUM, 1, 0, 0, 1, 2, 0, 0, 6, 0, false, 0, 0, map[], "");
      var t := Trace([DeadlineRule(6, 7, 20_000)], DevKey(1, 2),
                     [Ev(e, clock), Tk(10_000_000_002), Tk(30_000_000_000)]);
      t.IdleTick(1) && t.Stalled(1, 0) && t.OutAt(1) == [] && t.StateAt(2) == None && t.OutAt(2) == []
  {
    var e := Event(EVT_ENUM, 1, 0, 0, 1, 2, 0, 0, 6, 0, false, 0, 0, map[], "");
    var t := Trace([DeadlineRule(6, 7, 20_000)], DevKey(1, 2), [Ev(e, clock), Tk(10_000_000_002), Tk(30_000_000_000)]);
    assert t.EpStart(0) == 0 && t.EpStart(1) == 0 && t.StateEvent(0, 6);
    assert t.Life(0) == [] && t.Life(1) == [e];
    assert t.FirstTs(0, 0, 6) == 0 && t.FirstTs(0, 1, 6) == 1;
    assert forall i :: 0 <= i < 1 ==> !t.StateEvent(i, 7);
    MsToNsExact(20_000);
    WindowIsLife(t, 1);
    LatchIsWasDue(t, 1, 0);
    DueIsOverdue(t, 1, 0);
    assert RunDeadlines(t.StateAt(1).value, t.rules, 10_000_000_002, 0).out == [];
    assert t.Life(2) == [];
    WindowIsLife(t, 2);
  }

  /** An episode that sees the cancelling state before its rule is due never reports. */
  lemma CancelledNeverReports(t: Trace, i: nat, n: nat, ri: nat)
    requires n <= |t.ins| && t.EpStart(n) <= i < n && ri < |t.rules| && t.rules[ri].DeadlineRule?
    requires 0 <= t.rules[ri].without <= 8 && t.StateEvent(i, t.rules[ri].without)
    requires forall m :: t.EpStart(n) <= m < i ==> !t.Due(m, ri)
    ensures FiringTicks(t, n, ri) == {}
  {
    forall m | t.EpStart(n) <= m < n ensures !t.Due(m, ri) {
      if i < m {
        SameEpisode(t, m, n);
        assert t.Reached(m, t.rules[ri].without);
      }
    }
  }

  // ---- cooldown ----

  lemma {:induction false} DeadlineOnlyFindings(d: Device, rules: Rules, now: u64, ri: nat)
    requires ri < |rules| && rules[ri].EventRule?
    ensures OfRule(TickDevice(d, rules, now).out, ri) == []
  {
    DeadlineEffect(d, rules, now, |rules|, ri);
  }

  function Cooldown(od: Option<Device>, ri: nat): u64
    requires ri < MAX_RULES
  {
    if od.Some? then od.value.lastFire[ri] else 0
  }

  lemma EventStep(t: Trace, n: nat, ri: nat)
    requires t.Mine(n) && ri < |t.rules| && t.rules[ri].EventRule?
    ensures var e := t.ins[n].e; var l := EvalWhens(t.rules[ri].whens, Take(t.Life(n + 1), RING_SIZE), e.ts);
      var last := Cooldown(t.StateAt(n), ri);
      var fires := t.Triggers(n, ri) && (last == 0 || Sub64(t.ins[n].clock[ri], last) >= COOLDOWN_NS);
      && Cooldown(t.StateAt(n + 1), ri) == (if fires then t.ins[n].clock[ri] else last)
      && OfRule(t.OutAt(n), ri) == if fires then [Finding(ri, t.k, LastVid(t.Life(n + 1)), LastPid(t.Life(n + 1)), e.ts,
                                                          l.count, l.windowMs, Some(e.comm), l.evidence)] else []
  {
    var d := if t.StateAt(n).Some? then t.StateAt(n).value else Fresh(t.k);
    var e, clock := t.ins[n].e, t.ins[n].clock;
    WindowIsLife(t, n);
    WindowIsLife(t, n + 1);
    LearnSummarises(d, e, t.Life(n));
    NoteEnumKeeps(Learn(d, e), e);
    EventRuleEffect(Observe(d, e), t.rules, e, clock, |t.rules|, ri);
  }

  /** The window's cooldown register is the clock reading of the rule's last report in the trace. */
  lemma {:induction false} CooldownIsLastReport(t: Trace, n: nat, ri: nat)
    requires n <= |t.ins| && ri < |t.rules| && t.rules[ri].EventRule?
    ensures Cooldown(t.StateAt(n), ri) == t.LastReport(n, ri)
  {
    if n > 0 {
      CooldownIsLastReport(t, n - 1, ri);
      CooldownStep(t, n - 1, ri);
    }
  }

  lemma CooldownStep(t: Trace, n: nat, ri: nat)
    requires n < |t.ins| && ri < |t.rules| && t.rules[ri].EventRule?
    requires Cooldown(t.StateAt(n), ri) == t.LastReport(n, ri)
    ensures Cooldown(t.StateAt(n + 1), ri) == t.LastReport(n + 1, ri)
  {
    if t.Mine(n) {
      EventStep(t, n, ri);
    } else if t.Ticks(n) {
      WindowIsLife(t, n);
      if t.StateAt(n).Some? {
        DeadlinesFrame(t.StateAt(n).value, t.rules, t.ins[n].now, |t.rules|);
      }
    }
  }

  /** Event reports are exactly what the trace calls for: one finding of an event rule at each event of the
      device at which the rule triggers and its last report is at least 2 s back, and none at any other. */
  lemma EventReports(t: Trace, n: nat, ri: nat)
    requires n < |t.ins| && ri < |t.rules| && t.rules[ri].EventRule?
    ensures OfRule(t.OutAt(n), ri)
         == if t.Reports(n, ri)
            then var e := t.ins[n].e; var l := EvalWhens(t.rules[ri].whens, Take(t.Life(n + 1), RING_SIZE), e.ts);
              [Finding(ri, t.k, LastVid(t.Life(n + 1)), LastPid(t.Life(n + 1)), e.ts, l.count, l.windowMs,
                       Some(e.comm), l.evidence)]
            else []
  {
    if t.Mine(n) {
      EventStep(t, n, ri);
      CooldownIsLastReport(t, n, ri);
    } else if t.Ticks(n) && t.StateAt(n).Some? {
      DeadlineOnlyFindings(t.StateAt(n).value, t.rules, t.ins[n].now, ri);
    }
  }

  /** The report is honest about its window: when every condition looks back, each event of the evidence is one
      of the device's own, lies in the stated window before the event reported, and passed one of the rule's
      conditions. */
  lemma ReportedEvidence(t: Trace, n: nat, ri: nat)
    requires n < |t.ins| && t.Reports(n, ri) && AllLookBack(t.rules[ri].whens)
    ensures |OfRule(t.OutAt(n), ri)| == 1
    ensures var f := OfRule(t.OutAt(n), ri)[0];
      && f.refNs == t.ins[n].e.ts && f.key == t.k
      && forall e :: e in f.evidence ==>
           && f.refNs - f.windowMs * 1_000_000 <= e.ts <= f.refNs && e in t.Life(n + 1)
           && Selected(t.rules[ri].whens, t.Life(n + 1), f.refNs, e)
  {
    var whens, recent, ref := t.rules[ri].whens, Take(t.Life(n + 1), RING_SIZE), t.ins[n].e.ts;
    EventReports(t, n, ri);
    EvidenceInWindow(whens, recent, ref);
    forall e | Selected(whens, recent, ref, e) ensures e in t.Life(n + 1) && Selected(whens, t.Life(n + 1), ref, e) {
      var j :| 0 <= j < |whens| && whens[j].withinMs.Some?
        && e in recent && ref - whens[j].withinMs.value * 1_000_000 <= e.ts <= ref && CondPred(whens[j], e);
      assert e in t.Life(n + 1);
    }
  }

  /** An event rule reports only when an event of the device arrives. */
  lemma OnlyEventsFire(t: Trace, n: nat, ri: nat)
    requires n < |t.ins| && ri < |t.rules| && t.rules[ri].EventRule?
    ensures OfRule(t.OutAt(n), ri) != [] <==> t.Reports(n, ri)
    ensures OfRule(t.OutAt(n), ri) != [] ==> t.Mine(n)
  {
    EventReports(t, n, ri);
  }

  /** Among the first `n` inputs, clock readings are positive and do not go back. */
  ghost predicate SteadyClock(t: Trace, n: nat) {
    && (forall i: nat, ri: nat :: i < n && t.Mine(i) && ri < MAX_RULES ==> 0 < t.ins[i].clock[ri])
    && (forall i: nat, j: nat, ri: nat :: i < j < n && t.Mine(i) && t.Mine(j) && ri < MAX_RULES ==>
          t.ins[i].clock[ri] <= t.ins[j].clock[ri])
    && (forall i: nat, j: nat, ri: nat :: i < j < n && t.Mine(i) && t.Ticks(j) && ri < MAX_RULES ==>
          t.ins[i].clock[ri] <= t.ins[j].now)
    && (forall i: nat, j: nat, ri: nat :: i < j < n && t.Ticks(i) && t.Mine(j) && ri < MAX_RULES ==>
          t.ins[i].now <= t.ins[j].clock[ri])
  }

  lemma ClockGoesOn(t: Trace, n: nat, i: nat, j: nat, ri: nat)
    requires SteadyClock(t, n) && i <= j < n && t.Mine(i) && t.Mine(j) && ri < MAX_RULES
    ensures 0 < t.ins[i].clock[ri] <= t.ins[j].clock[ri]
  {
  }

  /** Among the first `n` inputs, events are delivered at most `lag` after they happened. */
  ghost predicate DeliveredWithin(t: Trace, n: nat, lag: nat) {
    forall i: nat, ri: nat :: i < n && t.Mine(i) && ri < MAX_RULES ==> t.ins[i].clock[ri] <= t.ins[i].e.ts + lag
  }

  /** While the window lives, a report is remembered until the next one. */
  lemma {:induction false} LastReportRemembered(t: Trace, m: nat, n: nat, ri: nat) returns (f: nat)
    requires t.Reports(m, ri) && m < n <= |t.ins|
    requires forall j :: m < j < n ==> !t.IdleTick(j)
    ensures m <= f < n && t.Reports(f, ri) && t.LastReport(n, ri) == t.ins[f].clock[ri]
    decreases n
  {
    LastReportNext(t, n - 1, ri);
    hide Trace.Reports, Trace.IdleTick, Trace.LastReport;
    if t.Reports(n - 1, ri) {
      f := n - 1;
    } else {
      f := LastReportRemembered(t, m, n - 1, ri);
    }
  }

  lemma LastReportNext(t: Trace, n: nat, ri: nat)
    requires n < |t.ins| && ri < MAX_RULES
    ensures t.Reports(n, ri) ==> t.ins[n].Ev? && !t.IdleTick(n) && t.LastReport(n + 1, ri) == t.ins[n].clock[ri]
    ensures !t.Reports(n, ri) && !t.IdleTick(n) ==> t.LastReport(n + 1, ri) == t.LastReport(n, ri)
  {
  }

  lemma ReportMeans(t: Trace, n: nat, ri: nat)
    requires t.Reports(n, ri)
    ensures n < |t.ins| && t.ins[n].Ev? && t.Mine(n) && ri < MAX_RULES == |t.ins[n].clock|
    ensures t.LastReport(n, ri) == 0 || Sub64(t.ins[n].clock[ri], t.LastReport(n, ri)) >= 2_000_000_000
  {
  }

  lemma CooledDownMeans(now: u64, last: u64)
    requires last <= now
    ensures Sub64(now, last) == now - last
  {
  }

  /** Two reports of one event rule on one device within the life of its window are at least 2 s apart. */
  lemma CooldownWithinLife(t: Trace, m: nat, n: nat, ri: nat)
    requires SteadyClock(t, n + 1) && m < n && t.Reports(m, ri) && t.Reports(n, ri)
    requires forall j :: m < j < n ==> !t.IdleTick(j)
    ensures t.ins[n].clock[ri] >= t.ins[m].clock[ri] as int + 2_000_000_000
  {
    hide *;
    ReportMeans(t, n, ri);
    var f := LastReportRemembered(t, m, n, ri);
    ReportMeans(t, m, ri);
    ReportMeans(t, f, ri);
    ClockGoesOn(t, n + 1, m, f, ri);
    ClockGoesOn(t, n + 1, f, n, ri);
    CooledDownMeans(t.ins[n].clock[ri], t.LastReport(n, ri));
  }

  /** The device is forgotten as idle between inputs `m` and `n`. */
  ghost predicate ForgottenBetween(t: Trace, m: nat, n: nat) {
    exists j :: m < j < n && t.IdleTick(j)
  }

  lemma ForgottenNext(t: Trace, m: nat, n: nat)
    ensures m < n ==> (ForgottenBetween(t, m, n + 1) <==> ForgottenBetween(t, m, n) || t.IdleTick(n))
    ensures !ForgottenBetween(t, m, m + 1)
  {
  }

  lemma {:induction false} LastReportIs(t: Trace, n: nat, ri: nat)
    requires n <= |t.ins| && ri < MAX_RULES
    ensures t.LastReport(n, ri) != 0 ==>
      exists f: nat :: f < n && t.Mine(f) && t.ins[f].Ev? && t.LastReport(n, ri) == t.ins[f].clock[ri]
  {
    if n > 0 {
      LastReportIs(t, n - 1, ri);
      LastReportNext(t, n - 1, ri);
      IdleForgets(t, n - 1, ri);
      ReportIsMine(t, n - 1, ri);
      hide Trace.Reports, Trace.LastReport, Trace.IdleTick;
    }
  }

  lemma ReportIsMine(t: Trace, n: nat, ri: nat)
    ensures t.Reports(n, ri) ==> t.Mine(n)
  {
  }

  /** The cooldown in seconds: on a clock that does not go back, a rule that triggers reports exactly when it has
      not reported since the device was last forgotten, or did so at least two seconds ago. */
  lemma CooldownInSeconds(t: Trace, n: nat, ri: nat)
    requires SteadyClock(t, n + 1) && t.Triggers(n, ri)
    ensures t.Reports(n, ri) <==>
      t.LastReport(n, ri) == 0 || t.ins[n].clock[ri] - t.LastReport(n, ri) >= 2_000_000_000
  {
    hide *;
    TriggerReports(t, n, ri);
    LastReportIs(t, n, ri);
    if t.LastReport(n, ri) != 0 {
      var f: nat :| f < n && t.Mine(f) && t.ins[f].Ev? && t.LastReport(n, ri) == t.ins[f].clock[ri];
      ClockGoesOn(t, n + 1, f, n, ri);
      CooledDownMeans(t.ins[n].clock[ri], t.LastReport(n, ri));
    }
  }

  lemma TriggerReports(t: Trace, n: nat, ri: nat)
    requires t.Triggers(n, ri)
    ensures n < |t.ins| && t.ins[n].Ev? && t.Mine(n) && ri < MAX_RULES == |t.ins[n].clock|
    ensures t.Reports(n, ri) <==>
      t.LastReport(n, ri) == 0 || Sub64(t.ins[n].clock[ri], t.LastReport(n, ri)) >= 2_000_000_000
  {
  }

  /** After a report nothing but an idle eviction clears the cooldown, and a cleared one stays clear until the
      next report. */
  lemma {:induction false} LastReportSince(t: Trace, m: nat, n: nat, ri: nat)
    requires t.Reports(m, ri) && m < n <= |t.ins|
    requires forall j :: m < j < n ==> !t.Reports(j, ri)
    ensures t.LastReport(n, ri) == if ForgottenBetween(t, m, n) then 0 else t.ins[m].clock[ri]
    decreases n
  {
    hide *;
    ReportMeans(t, m, ri);
    ForgottenNext(t, m, n - 1);
    LastReportNext(t, n - 1, ri);
    IdleForgets(t, n - 1, ri);
    if n > m + 1 {
      LastReportSince(t, m, n - 1, ri);
      assert !t.Reports(n - 1, ri);
    }
  }

  lemma IdleForgets(t: Trace, n: nat, ri: nat)
    requires n < |t.ins| && ri < MAX_RULES
    ensures t.IdleTick(n) ==> t.LastReport(n + 1, ri) == 0
  {
  }

  /** Exactly when the cooldown is lost: a rule that triggers again less than 2 s after its last report
      reports again if and only if the device was forgotten as idle in between. */
  lemma CooldownLostIffForgotten(t: Trace, m: nat, n: nat, ri: nat)
    requires SteadyClock(t, n + 1) && m < n && t.Reports(m, ri) && t.Triggers(n, ri)
    requires forall j :: m < j < n ==> !t.Reports(j, ri)
    requires t.ins[n].clock[ri] < t.ins[m].clock[ri] as int + 2_000_000_000
    ensures t.Reports(n, ri) <==> ForgottenBetween(t, m, n)
  {
    hide *;
    TriggerReports(t, n, ri);
    ReportMeans(t, m, ri);
    LastReportSince(t, m, n, ri);
    ClockGoesOn(t, n + 1, m, n, ri);
    CooledDownMeans(t.ins[n].clock[ri], t.ins[m].clock[ri]);
  }

  /** It is not lost while events arrive in time order and at most 8 s and 1 ns late: two reports of one rule
      on one device are at least 2 s apart, across idle evictions too. */
  lemma CooldownAcrossEviction(t: Trace, m: nat, n: nat, ri: nat)
    requires Ordered(t, n + 1) && SteadyClock(t, n + 1) && DeliveredWithin(t, n + 1, 8_000_000_001)
    requires m < n && t.Reports(m, ri) && t.Reports(n, ri)
    ensures t.ins[n].clock[ri] >= t.ins[m].clock[ri] as int + 2_000_000_000
  {
    if j :| m < j < n && t.IdleTick(j) {
      ForgottenAfterCooldown(t, m, j, ri);
    } else {
      CooldownWithinLife(t, m, n, ri);
    }
  }

  lemma ForgottenAfterCooldown(t: Trace, m: nat, j: nat, ri: nat)
    requires Ordered(t, j + 1) && DeliveredWithin(t, j + 1, 8_000_000_001) && t.Mine(m) && ri < MAX_RULES
    requires m < j && t.IdleTick(j)
    ensures t.ins[m].clock[ri] as int + 2_000_000_000 <= t.ins[j].now
  {
    var l := LifeNewest(t, j);
    assert m <= l;
    assert t.ins[m].e.ts <= t.ins[l].e.ts;
  }

  /** A rule that any event triggers, an event at 1 ns that is delivered `lag` later, a tick as soon as the
      device counts as idle, and a second event at that very moment. */
  function LateTrace(lag: nat, first: Clock, second: Clock): Trace
    requires lag < TWO32 * TWO32 / 2
  {
    var e := Event(EVT_ENUM, 1, 0, 0, 1, 2, 0, 0, 9, 0, false, 0, 0, map[], "");
    var idle := Max(1 + lag, RETENTION_NS + 2);
    Trace([EventRule(Cond(None, [], [], None, None, None, None), [])], DevKey(1, 2),
          [Ev(e, first), Tk(idle), Ev(e.(ts := idle), second)])
  }

  ghost predicate LateClocks(lag: nat, first: Clock, second: Clock) {
    && 8_000_000_001 < lag < TWO32 * TWO32 / 2
    && forall i :: 0 <= i < MAX_RULES ==> first[i] == 1 + lag && second[i] == Max(1 + lag, RETENTION_NS + 2)
  }

  lemma LateTraceInputs(lag: nat, first: Clock, second: Clock)
    requires LateClocks(lag, first, second)
    ensures var t := LateTrace(lag, first, second);
      && (forall n: nat :: (t.Mine(n) <==> n == 0 || n == 2) && (t.Ticks(n) <==> n == 1))
      && t.ins[0].e.ts == 1 && t.ins[1].now == t.ins[2].e.ts == Max(1 + lag, RETENTION_NS + 2)
      && t.ins[0].clock == first && t.ins[2].clock == second
  {
  }

  lemma LateTraceInOrder(lag: nat, first: Clock, second: Clock)
    requires LateClocks(lag, first, second)
    ensures var t := LateTrace(lag, first, second);
      Ordered(t, |t.ins|) && SteadyClock(t, |t.ins|) && DeliveredWithin(t, |t.ins|, lag)
  {
    LateTraceInputs(lag, first, second);
    hide LateTrace;
  }

  lemma LateTraceReports(lag: nat, first: Clock, second: Clock)
    requires LateClocks(lag, first, second)
    ensures var t := LateTrace(lag, first, second); t.Reports(0, 0) && t.IdleTick(1) && t.Reports(2, 0)
  {
    var t := LateTrace(lag, first, second);
    var e := t.ins[0].e;
    assert t.Life(0) == [] && t.Life(1) == [e];
    assert t.Triggers(0, 0);
    assert t.IdleTick(1);
    assert t.Triggers(2, 0);
  }

  /** The bound is the best there is: for every longer lag there is a run within it, in time order and on a
      steady clock, whose two reports are less than 2 s apart. */
  lemma LateDeliveryBreaksCooldown(lag: nat, first: Clock, second: Clock)
    requires LateClocks(lag, first, second)
    ensures var t := LateTrace(lag, first, second);
      && Ordered(t, |t.ins|) && SteadyClock(t, |t.ins|) && DeliveredWithin(t, |t.ins|, lag)
      && t.Reports(0, 0) && t.Reports(2, 0) && t.ins[2].clock[0] < t.ins[0].clock[0] + 2_000_000_000
  {
    LateTraceInOrder(lag, first, second);
    LateTraceReports(lag, first, second);
  }

  // ---- the engine's table shows exactly these traces ----

  lemma {:induction false} RunIsTrace(t: Trace, n: nat)
    requires n <= |t.ins|
    ensures RunDevice(None, t.rules, t.k, t.ins[..n]).state == t.StateAt(n)
  {
    if n > 0 {
      RunIsTrace(t, n - 1);
      assert t.ins[..n][..n - 1] == t.ins[..n - 1];
    }
  }

  /** In an engine run, the findings about device `k` at each input are those of its trace, as long as `k`
      has not lost its slot to another device. */
  lemma EngineShowsTrace(rules: Rules, ins: seq<Input>, k: DevKey, n: nat)
    requires n < |ins| && NeverRecycled(NoSlots(), rules, ins, k)
    ensures OfKey(StepSlots(RunSlots(NoSlots(), rules, ins[..n]).slots, rules, ins[n]).out, k)
         == Trace(rules, k, ins).OutAt(n)
  {
    var t := Trace(rules, k, ins);
    forall m | 0 <= m < n ensures !Recycles(RunSlots(NoSlots(), rules, ins[..n][..m]).slots, ins[..n][m], k) {
      assert ins[..n][..m] == ins[..m];
    }
    RunRefines(NoSlots(), rules, ins[..n], k);
    RunKeepsDistinct(NoSlots(), rules, ins[..n]);
    StepRefines(RunSlots(NoSlots(), rules, ins[..n]).slots, rules, ins[n], k);
    RunIsTrace(t, n);
  }
}
