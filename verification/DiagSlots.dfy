/** The table of 128 device slots as a value, and the proof that it is a map from device to window that
    forgets a device only when it is idle or when the table is full. */
module DiagSlots {
  import opened Base
  import opened DiagTypes
  import opened DiagDevice

  type Slots = s: seq<Option<Device>> | |s| == 128 witness seq(128, i => None)

  predicate Holds(s: Slots, i: nat, k: DevKey)
    requires i < MAX_DEVS
  {
    s[i].Some? && s[i].value.key == k
  }

  /** The first slot at or after `from` that holds `k`; 128 when there is none. */
  function FindKey(s: Slots, k: DevKey, from: nat): (i: nat)
    requires from <= MAX_DEVS
    ensures from <= i <= MAX_DEVS && (i < MAX_DEVS ==> Holds(s, i, k))
    ensures forall j :: from <= j < i ==> !Holds(s, j, k)
    decreases |s| - from
  {
    if from == MAX_DEVS || Holds(s, from, k) then from else FindKey(s, k, from + 1)
  }

  function FindFree(s: Slots, from: nat): (i: nat)
    requires from <= MAX_DEVS
    ensures from <= i <= MAX_DEVS && (i < MAX_DEVS ==> s[i].None?)
    ensures forall j :: from <= j < i ==> s[j].Some?
    decreases |s| - from
  {
    if from == MAX_DEVS || s[from].None? then from else FindFree(s, from + 1)
  }

  /** Among the first `n` slots, all used, the first one seen longest ago. */
  function Lru(s: Slots, n: nat): (i: nat)
    requires 0 < n <= MAX_DEVS && forall j :: 0 <= j < n ==> s[j].Some?
    ensures i < n
    ensures forall j :: 0 <= j < n ==> s[i].value.lastSeen <= s[j].value.lastSeen
    ensures forall j :: 0 <= j < i ==> s[i].value.lastSeen < s[j].value.lastSeen
  {
    if n == 1 then 0
    else
      var i := Lru(s, n - 1);
      if s[n - 1].value.lastSeen < s[i].value.lastSeen then n - 1 else i
  }

  /** The slot an event of device `k` goes to: its own, else the first free one, else the victim. */
  function SlotFor(s: Slots, k: DevKey): (i: nat)
    ensures i < MAX_DEVS
  {
    var own := FindKey(s, k, 0);
    if own < MAX_DEVS then own
    else
      var free := FindFree(s, 0);
      if free < MAX_DEVS then free else Lru(s, |s|)
  }

  function WindowFor(s: Slots, k: DevKey): Device {
    var i := SlotFor(s, k);
    if Holds(s, i, k) then s[i].value else Fresh(k)
  }

  datatype Input = Ev(e: Event, clock: Clock) | Tk(now: u64)

  datatype Outcome = Outcome(slots: Slots, out: seq<Finding>)

  function IngestSlots(s: Slots, rules: Rules, e: Event, clock: Clock): Outcome {
    var r := IngestDevice(WindowFor(s, e.Key()), rules, e, clock);
    Outcome(s[SlotFor(s, e.Key()) := Some(r.dev)], r.out)
  }

  /** A tick at one slot: deadlines first, then eviction. */
  function AfterTick(od: Option<Device>, rules: Rules, now: u64): Option<Device> {
    if od.None? || Idle(od.value, now) then None else Some(TickDevice(od.value, rules, now).dev)
  }

  function TickFindings(od: Option<Device>, rules: Rules, now: u64): seq<Finding> {
    if od.None? then [] else TickDevice(od.value, rules, now).out
  }

  function TickSlots(s: Slots, rules: Rules, now: u64, n: nat): Outcome
    requires n <= MAX_DEVS
  {
    if n == 0 then Outcome(s, [])
    else
      var p := TickSlots(s, rules, now, n - 1);
      Outcome(p.slots[n - 1 := AfterTick(s[n - 1], rules, now)], p.out + TickFindings(s[n - 1], rules, now))
  }

  function StepSlots(s: Slots, rules: Rules, x: Input): Outcome {
    match x
    case Ev(e, clock) => IngestSlots(s, rules, e, clock)
    case Tk(now) => TickSlots(s, rules, now, |s|)
  }

  function RunSlots(s: Slots, rules: Rules, ins: seq<Input>): Outcome {
    if ins == [] then Outcome(s, [])
    else
      var p := RunSlots(s, rules, ins[..|ins| - 1]);
      var q := StepSlots(p.slots, rules, ins[|ins| - 1]);
      Outcome(q.slots, p.out + q.out)
  }

  function NoSlots(): Slots {
    seq(128, i => None)
  }

  // ---- the map machine: one device at a time ----

  datatype Single = Single(state: Option<Device>, out: seq<Finding>)

  /** What an input does to device `k` alone. Events of other devices do nothing. */
  function StepDevice(od: Option<Device>, rules: Rules, k: DevKey, x: Input): Single {
    match x
    case Ev(e, clock) =>
      if e.Key() != k then Single(od, [])
      else
        var r := IngestDevice(if od.Some? then od.value else Fresh(k), rules, e, clock);
        Single(Some(r.dev), r.out)
    case Tk(now) => Single(AfterTick(od, rules, now), TickFindings(od, rules, now))
  }

  function RunDevice(od: Option<Device>, rules: Rules, k: DevKey, ins: seq<Input>): Single {
    if ins == [] then Single(od, [])
    else
      var p := RunDevice(od, rules, k, ins[..|ins| - 1]);
      var q := StepDevice(p.state, rules, k, ins[|ins| - 1]);
      Single(q.state, p.out + q.out)
  }

  function Lookup(s: Slots, k: DevKey): Option<Device> {
    var i := FindKey(s, k, 0);
    if i < MAX_DEVS then s[i] else None
  }

  function OfKey(out: seq<Finding>, k: DevKey): seq<Finding> {
    if out == [] then []
    else
      var p := OfKey(out[..|out| - 1], k);
      if out[|out| - 1].key == k then p + [out[|out| - 1]] else p
  }

  ghost predicate Distinct(s: Slots) {
    forall i, j :: 0 <= i < j < MAX_DEVS && s[i].Some? && s[j].Some? ==> s[i].value.key != s[j].value.key
  }

  /** The input takes over the slot of device `k`: every slot is used, the event's own device is in none of
      them, and no device was seen longer ago than `k`. */
  ghost predicate Recycles(s: Slots, x: Input, k: DevKey) {
    && x.Ev? && x.e.Key() != k
    && (forall i :: 0 <= i < MAX_DEVS ==> s[i].Some? && s[i].value.key != x.e.Key())
    && Holds(s, SlotFor(s, x.e.Key()), k)
  }

  lemma RecycledIsLeastRecentlySeen(s: Slots, x: Input, k: DevKey)
    requires Recycles(s, x, k) && Distinct(s)
    ensures Lookup(s, k).Some?
    ensures forall j :: 0 <= j < MAX_DEVS ==> s[j].Some? && Lookup(s, k).value.lastSeen <= s[j].value.lastSeen
  {
    var i := SlotFor(s, x.e.Key());
    LookupAt(s, k, i);
  }

  lemma LookupAt(s: Slots, k: DevKey, i: nat)
    requires Distinct(s) && i < MAX_DEVS && Holds(s, i, k)
    ensures FindKey(s, k, 0) == i && Lookup(s, k) == s[i]
  {
  }

  lemma LookupNone(s: Slots, k: DevKey)
    requires forall i :: 0 <= i < MAX_DEVS ==> !Holds(s, i, k)
    ensures Lookup(s, k) == None
  {
  }

  lemma {:induction false} OfKeyConcat(a: seq<Finding>, b: seq<Finding>, k: DevKey)
    ensures OfKey(a + b, k) == OfKey(a, k) + OfKey(b, k)
    decreases |b|
  {
    if b == [] {
      assert a + b == a;
    } else {
      var b' := b[..|b| - 1];
      OfKeyConcat(a, b', k);
      assert (a + b)[..|a + b| - 1] == a + b';
    }
  }

  lemma {:induction false} OfKeyUniform(out: seq<Finding>, own: DevKey, k: DevKey)
    requires forall f :: f in out ==> f.key == own
    ensures OfKey(out, k) == if k == own then out else []
  {
    if out != [] {
      OfKeyUniform(out[..|out| - 1], own, k);
    }
  }

  lemma IngestKeepsKey(d: Device, rules: Rules, e: Event, clock: Clock)
    ensures var r := IngestDevice(d, rules, e, clock);
      r.dev.key == d.key && forall f :: f in r.out ==> f.key == d.key
  {
    EventRulesFrame(Observe(d, e), rules, e, clock, |rules|);
  }

  lemma TickKeepsKey(d: Device, rules: Rules, now: u64)
    ensures var r := TickDevice(d, rules, now);
      r.dev.key == d.key && forall f :: f in r.out ==> f.key == d.key
  {
    DeadlinesFrame(d, rules, now, |rules|);
  }

  // ---- one step ----

  /** Storing a window for `d.key` in its own slot, or in any slot when the key has none. */
  lemma PutSlot(s: Slots, i: nat, d: Device, k: DevKey)
    requires Distinct(s) && i < MAX_DEVS
    requires Holds(s, i, d.key) || forall j :: 0 <= j < MAX_DEVS ==> !Holds(s, j, d.key)
    ensures var t: Slots := s[i := Some(d)];
      && Distinct(t)
      && Lookup(t, k) == if k == d.key then Some(d) else if Holds(s, i, k) then None else Lookup(s, k)
  {
    var t: Slots := s[i := Some(d)];
    forall j | 0 <= j < MAX_DEVS && j != i && s[j].Some? ensures s[j].value.key != d.key {
      assert !Holds(s, j, d.key);
    }
    assert Distinct(t);
    var j := FindKey(s, k, 0);
    if k == d.key {
      LookupAt(t, k, i);
    } else if j < MAX_DEVS && j != i {
      LookupAt(t, k, j);
    } else {
      forall h | 0 <= h < MAX_DEVS ensures !Holds(t, h, k) {
        if h != i && Holds(s, h, k) {
          LookupAt(s, k, h);
        }
      }
      LookupNone(t, k);
    }
  }

  lemma WindowForIsLookup(s: Slots, k: DevKey)
    requires Distinct(s)
    ensures WindowFor(s, k) == (if Lookup(s, k).Some? then Lookup(s, k).value else Fresh(k))
    ensures Holds(s, SlotFor(s, k), k) || forall j :: 0 <= j < MAX_DEVS ==> !Holds(s, j, k)
  {
    if Holds(s, SlotFor(s, k), k) {
      LookupAt(s, k, SlotFor(s, k));
    } else {
      LookupNone(s, k);
    }
  }

  lemma RecyclesIffTaken(s: Slots, e: Event, clock: Clock, k: DevKey)
    requires k != e.Key()
    ensures Recycles(s, Ev(e, clock), k) <==> Holds(s, SlotFor(s, e.Key()), k)
  {
    var own := e.Key();
    if Holds(s, SlotFor(s, own), k) {
      assert FindKey(s, own, 0) == MAX_DEVS && FindFree(s, 0) == MAX_DEVS;
      forall i | 0 <= i < MAX_DEVS ensures s[i].Some? && s[i].value.key != own {
        assert !Holds(s, i, own);
      }
    }
  }

  lemma IngestRefines(s: Slots, rules: Rules, e: Event, clock: Clock, k: DevKey)
    requires Distinct(s)
    ensures var x := Ev(e, clock); var q := IngestSlots(s, rules, e, clock);
      var t := StepDevice(Lookup(s, k), rules, k, x);
      && Distinct(q.slots)
      && OfKey(q.out, k) == t.out
      && Lookup(q.slots, k) == if Recycles(s, x, k) then None else t.state
  {
    var own := e.Key();
    var r := IngestDevice(WindowFor(s, own), rules, e, clock);
    WindowForIsLookup(s, own);
    IngestKeepsKey(WindowFor(s, own), rules, e, clock);
    OfKeyUniform(r.out, own, k);
    PutSlot(s, SlotFor(s, own), r.dev, k);
    if k != own {
      RecyclesIffTaken(s, e, clock, k);
    }
  }

  lemma {:induction false} TickSlotsShape(s: Slots, rules: Rules, now: u64, n: nat)
    requires n <= MAX_DEVS
    ensures var q := TickSlots(s, rules, now, n).slots;
      forall j :: 0 <= j < MAX_DEVS ==> q[j] == if j < n then AfterTick(s[j], rules, now) else s[j]
  {
    if n > 0 {
      TickSlotsShape(s, rules, now, n - 1);
    }
  }

  lemma TickSlotsStep(s: Slots, rules: Rules, now: u64, n: nat)
    requires n < MAX_DEVS
    ensures var p, q := TickSlots(s, rules, now, n), TickSlots(s, rules, now, n + 1);
      && q.slots == p.slots[n := AfterTick(p.slots[n], rules, now)]
      && q.out == p.out + TickFindings(p.slots[n], rules, now)
  {
    TickSlotsShape(s, rules, now, n);
  }

  lemma SlotFindingsOf(s: Slots, rules: Rules, now: u64, j: nat, k: DevKey)
    requires j < MAX_DEVS && Distinct(s)
    ensures OfKey(TickFindings(s[j], rules, now), k)
         == if FindKey(s, k, 0) == j then TickFindings(Lookup(s, k), rules, now) else []
  {
    if s[j].Some? {
      TickKeepsKey(s[j].value, rules, now);
      OfKeyUniform(TickFindings(s[j], rules, now), s[j].value.key, k);
      if Holds(s, j, k) {
        LookupAt(s, k, j);
      }
    }
  }

  lemma {:induction false} TickFindingsOf(s: Slots, rules: Rules, now: u64, n: nat, k: DevKey)
    requires n <= MAX_DEVS && Distinct(s)
    ensures OfKey(TickSlots(s, rules, now, n).out, k)
         == if FindKey(s, k, 0) < n then TickFindings(Lookup(s, k), rules, now) else []
  {
    if n > 0 {
      TickFindingsOf(s, rules, now, n - 1, k);
      SlotFindingsOf(s, rules, now, n - 1, k);
      OfKeyConcat(TickSlots(s, rules, now, n - 1).out, TickFindings(s[n - 1], rules, now), k);
    }
  }

  lemma TickRefines(s: Slots, rules: Rules, now: u64, k: DevKey)
    requires Distinct(s)
    ensures var q := TickSlots(s, rules, now, |s|);
      var t := StepDevice(Lookup(s, k), rules, k, Tk(now));
      && Distinct(q.slots) && OfKey(q.out, k) == t.out && Lookup(q.slots, k) == t.state
  {
    hide TickDevice, TickSlots;
    var q := TickSlots(s, rules, now, |s|).slots;
    TickSlotsShape(s, rules, now, |s|);
    TickFindingsOf(s, rules, now, |s|, k);
    forall j | 0 <= j < MAX_DEVS && s[j].Some? ensures q[j].Some? ==> q[j].value.key == s[j].value.key {
      TickKeepsKey(s[j].value, rules, now);
    }
    var i := FindKey(s, k, 0);
    if i < MAX_DEVS && q[i].Some? {
      LookupAt(q, k, i);
    } else {
      forall j | 0 <= j < MAX_DEVS ensures !Holds(q, j, k) {
        if Holds(q, j, k) {
          LookupAt(s, k, j);
        }
      }
      LookupNone(q, k);
    }
  }

  /** Refinement, one step: seen from any one device, the table does exactly what the map machine does,
      except that the least recently seen device is forgotten when an event of a new device finds every
      slot used. No two used slots ever share a key. */
  lemma StepRefines(s: Slots, rules: Rules, x: Input, k: DevKey)
    requires Distinct(s)
    ensures var q := StepSlots(s, rules, x);
      var t := StepDevice(Lookup(s, k), rules, k, x);
      && Distinct(q.slots) && OfKey(q.out, k) == t.out
      && Lookup(q.slots, k) == if Recycles(s, x, k) then None else t.state
  {
    match x
    case Ev(e, clock) => IngestRefines(s, rules, e, clock, k);
    case Tk(now) => TickRefines(s, rules, now, k);
  }

  // ---- whole runs ----

  /** Device `k` never loses its slot to another device during the run. */
  ghost predicate NeverRecycled(s: Slots, rules: Rules, ins: seq<Input>, k: DevKey) {
    forall n :: 0 <= n < |ins| ==> !Recycles(RunSlots(s, rules, ins[..n]).slots, ins[n], k)
  }

  lemma {:induction false} RunKeepsDistinct(s: Slots, rules: Rules, ins: seq<Input>)
    requires Distinct(s)
    ensures Distinct(RunSlots(s, rules, ins).slots)
  {
    if ins != [] {
      RunKeepsDistinct(s, rules, ins[..|ins| - 1]);
      StepRefines(RunSlots(s, rules, ins[..|ins| - 1]).slots, rules, ins[|ins| - 1], DevKey(0, 0));
    }
  }

  /** Whole-run refinement for one device. */
  lemma {:induction false} RunRefines(s: Slots, rules: Rules, ins: seq<Input>, k: DevKey)
    requires Distinct(s) && NeverRecycled(s, rules, ins, k)
    ensures var q := RunSlots(s, rules, ins); var t := RunDevice(Lookup(s, k), rules, k, ins);
      Lookup(q.slots, k) == t.state && OfKey(q.out, k) == t.out
  {
    if ins != [] {
      var p, x := ins[..|ins| - 1], ins[|ins| - 1];
      forall n | 0 <= n < |p| ensures !Recycles(RunSlots(s, rules, p[..n]).slots, p[n], k) {
        assert p[..n] == ins[..n];
      }
      RunRefines(s, rules, p, k);
      RunKeepsDistinct(s, rules, p);
      var mid := RunSlots(s, rules, p);
      StepRefines(mid.slots, rules, x, k);
      OfKeyConcat(mid.out, StepSlots(mid.slots, rules, x).out, k);
    }
  }

  /** The inputs that concern device `k`: its own events and every tick. */
  function Own(ins: seq<Input>, k: DevKey): seq<Input> {
    if ins == [] then []
    else
      var p := Own(ins[..|ins| - 1], k);
      var x := ins[|ins| - 1];
      if x.Ev? && x.e.Key() != k then p else p + [x]
  }

  lemma {:induction false} RunDeviceIgnoresOthers(od: Option<Device>, rules: Rules, k: DevKey, ins: seq<Input>)
    ensures RunDevice(od, rules, k, ins) == RunDevice(od, rules, k, Own(ins, k))
  {
    if ins != [] {
      var p, x := ins[..|ins| - 1], ins[|ins| - 1];
      RunDeviceIgnoresOthers(od, rules, k, p);
      if !(x.Ev? && x.e.Key() != k) {
        assert Own(ins, k)[..|Own(ins, k)| - 1] == Own(p, k);
      }
    }
  }

  /** Every slot in use belongs to `k`. */
  ghost predicate OnlyKey(s: Slots, k: DevKey) {
    forall i :: 0 <= i < MAX_DEVS && s[i].Some? ==> s[i].value.key == k
  }

  lemma {:induction false} OwnInputs(ins: seq<Input>, k: DevKey)
    ensures forall x :: x in Own(ins, k) ==> x.Tk? || x.e.Key() == k
  {
    if ins != [] {
      OwnInputs(ins[..|ins| - 1], k);
    }
  }

  lemma {:induction false} AloneNeverRecycled(rules: Rules, ins: seq<Input>, k: DevKey)
    requires forall x :: x in ins ==> x.Tk? || x.e.Key() == k
    ensures NeverRecycled(NoSlots(), rules, ins, k)
    ensures forall f :: f in RunSlots(NoSlots(), rules, ins).out ==> f.key == k
    ensures OnlyKey(RunSlots(NoSlots(), rules, ins).slots, k)
  {
    if ins != [] {
      var p, x := ins[..|ins| - 1], ins[|ins| - 1];
      AloneNeverRecycled(rules, p, k);
      forall n | 0 <= n < |ins| ensures !Recycles(RunSlots(NoSlots(), rules, ins[..n]).slots, ins[n], k) {
        assert ins[n] in ins;
      }
      assert x in ins;
      var mid := RunSlots(NoSlots(), rules, p);
      StepAlone(mid.slots, rules, x, k);
    }
  }

  lemma StepAlone(s: Slots, rules: Rules, x: Input, k: DevKey)
    requires OnlyKey(s, k) && (x.Tk? || x.e.Key() == k)
    ensures var q := StepSlots(s, rules, x);
      OnlyKey(q.slots, k) && forall f :: f in q.out ==> f.key == k
  {
    match x {
      case Ev(e, clock) =>
        IngestKeepsKey(WindowFor(s, k), rules, e, clock);
      case Tk(now) =>
        TickSlotsShape(s, rules, now, |s|);
        TickAlone(s, rules, now, k, |s|);
        forall j | 0 <= j < MAX_DEVS && s[j].Some? ensures TickDevice(s[j].value, rules, now).dev.key == k {
          TickKeepsKey(s[j].value, rules, now);
        }
    }
  }

  lemma {:induction false} TickAlone(s: Slots, rules: Rules, now: u64, k: DevKey, n: nat)
    requires OnlyKey(s, k) && n <= MAX_DEVS
    ensures forall f :: f in TickSlots(s, rules, now, n).out ==> f.key == k
  {
    if n > 0 {
      TickAlone(s, rules, now, k, n - 1);
      if s[n - 1].Some? {
        TickKeepsKey(s[n - 1].value, rules, now);
      }
    }
  }

  /** Non-interference: as long as device `k` does not lose its slot, its findings under any interleaving
      with other devices are exactly all the findings of an engine that is fed only its own events and
      the same ticks. */
  lemma NonInterference(rules: Rules, ins: seq<Input>, k: DevKey)
    requires NeverRecycled(NoSlots(), rules, ins, k)
    ensures OfKey(RunSlots(NoSlots(), rules, ins).out, k) == RunSlots(NoSlots(), rules, Own(ins, k)).out
  {
    var own := Own(ins, k);
    OwnInputs(ins, k);
    AloneNeverRecycled(rules, own, k);
    RunRefines(NoSlots(), rules, ins, k);
    RunRefines(NoSlots(), rules, own, k);
    RunDeviceIgnoresOthers(Lookup(NoSlots(), k), rules, k, ins);
    OfKeyUniform(RunSlots(NoSlots(), rules, own).out, k, k);
  }

  // ---- the whole table as a map ----

  ghost function Keys(s: Slots): set<DevKey> {
    set i | 0 <= i < MAX_DEVS && s[i].Some? :: s[i].value.key
  }

  ghost function ToMap(s: Slots): map<DevKey, Device> {
    map k | k in Keys(s) && Lookup(s, k).Some? :: Lookup(s, k).value
  }

  ghost function Victims(s: Slots, x: Input): set<DevKey> {
    set k | k in Keys(s) && Recycles(s, x, k)
  }

  /** The unbounded machine: an event updates its device's entry, a tick updates every entry and drops the
      idle ones. */
  ghost function StepMap(m: map<DevKey, Device>, rules: Rules, x: Input): map<DevKey, Device> {
    match x
    case Ev(e, clock) =>
      var k := e.Key();
      m[k := IngestDevice(if k in m then m[k] else Fresh(k), rules, e, clock).dev]
    case Tk(now) =>
      map k | k in m && !Idle(m[k], now) :: TickDevice(m[k], rules, now).dev
  }

  /** The findings of that step about device `k`. */
  ghost function MapFindings(m: map<DevKey, Device>, rules: Rules, x: Input, k: DevKey): seq<Finding> {
    match x
    case Ev(e, clock) =>
      if e.Key() == k then IngestDevice(if k in m then m[k] else Fresh(k), rules, e, clock).out else []
    case Tk(now) => if k in m then TickDevice(m[k], rules, now).out else []
  }

  lemma ToMapLookup(s: Slots, k: DevKey)
    ensures k in ToMap(s) <==> Lookup(s, k).Some?
    ensures k in ToMap(s) ==> ToMap(s)[k] == Lookup(s, k).value
  {
    var i := FindKey(s, k, 0);
    if i < MAX_DEVS {
      assert s[i].Some? && s[i].value.key == k;
    }
  }

  /** The table refines the unbounded map, up to the devices it recycles; there is at most one of those. */
  lemma StepRefinesMap(s: Slots, rules: Rules, x: Input)
    requires Distinct(s)
    ensures ToMap(StepSlots(s, rules, x).slots) == StepMap(ToMap(s) - Victims(s, x), rules, x)
    ensures forall k :: OfKey(StepSlots(s, rules, x).out, k) == MapFindings(ToMap(s) - Victims(s, x), rules, x, k)
    ensures forall a, b :: a in Victims(s, x) && b in Victims(s, x) ==> a == b
  {
    hide IngestDevice, TickDevice, TickSlots, IngestSlots, FindKey, OfKey;
    var t, m := ToMap(StepSlots(s, rules, x).slots), StepMap(ToMap(s) - Victims(s, x), rules, x);
    forall k ensures (k in t <==> k in m) && (k in t ==> t[k] == m[k])
      ensures OfKey(StepSlots(s, rules, x).out, k) == MapFindings(ToMap(s) - Victims(s, x), rules, x, k)
    {
      StepRefines(s, rules, x, k);
      ToMapLookup(s, k);
      ToMapLookup(StepSlots(s, rules, x).slots, k);
      if Recycles(s, x, k) {
        RecycledIsLeastRecentlySeen(s, x, k);
      }
    }
  }

  /** Over every run, recycling or not: each input takes the table, seen as a map, one step of the unbounded
      machine after the recycled device, if any, has been dropped; every device gets the findings of that
      step; and no two used slots ever share a key. */
  lemma RunRefinesMap(rules: Rules, ins: seq<Input>, n: nat)
    requires n < |ins|
    ensures var p, q := RunSlots(NoSlots(), rules, ins[..n]), RunSlots(NoSlots(), rules, ins[..n + 1]);
      var m := ToMap(p.slots) - Victims(p.slots, ins[n]);
      && Distinct(q.slots) && ToMap(q.slots) == StepMap(m, rules, ins[n])
      && forall k :: OfKey(q.out, k) == OfKey(p.out, k) + MapFindings(m, rules, ins[n], k)
  {
    assert ins[..n + 1][..n] == ins[..n];
    RunKeepsDistinct(NoSlots(), rules, ins[..n]);
    RunKeepsDistinct(NoSlots(), rules, ins[..n + 1]);
    var p := RunSlots(NoSlots(), rules, ins[..n]);
    StepRefinesMap(p.slots, rules, ins[n]);
    hide MapFindings, StepMap, ToMap, Victims, StepSlots, OfKey, Distinct;
    forall k ensures OfKey(RunSlots(NoSlots(), rules, ins[..n + 1]).out, k)
      == OfKey(p.out, k) + MapFindings(ToMap(p.slots) - Victims(p.slots, ins[n]), rules, ins[n], k)
    {
      OfKeyConcat(p.out, StepSlots(p.slots, rules, ins[n]).out, k);
    }
  }

  /** A device is forgotten in two ways only: idle for more than ten seconds at a tick, or recycled as the
      least recently seen one when an event of a new device finds every slot used. */
  lemma ForgottenOnlyWhen(s: Slots, rules: Rules, x: Input, k: DevKey)
    requires Distinct(s) && Lookup(s, k).Some?
    ensures Lookup(StepSlots(s, rules, x).slots, k).None? <==>
      Recycles(s, x, k) || (x.Tk? && Idle(Lookup(s, k).value, x.now))
  {
    StepRefines(s, rules, x, k);
  }
}
