/** The rule engine: 128 windows updated in place, proved to step the slot table of `DiagSlots`. */
module DiagEngine {
  import opened Base
  import opened DiagTypes
  import opened DiagQuery
  import opened DiagDevice
  import opened DiagWindow
  import opened DiagSlots

  class Engine {
    const rules: Rules
    const devs: seq<Window>
    const fireCount: array<nat>
    var totalFired: nat
    /** The findings printed so far. */
    var log: seq<Finding>

    ghost const Repr: set<object>

    ghost predicate Laid() {
      && |devs| == MAX_DEVS && fireCount.Length == MAX_RULES
      && {this, fireCount} <= Repr
      && (forall i :: 0 <= i < MAX_DEVS ==> devs[i].Shaped() && devs[i].Repr <= Repr)
      && (forall i :: 0 <= i < MAX_DEVS ==> this !in devs[i].Repr && fireCount !in devs[i].Repr)
      && (forall i, j :: 0 <= i < j < MAX_DEVS ==> devs[i].Repr !! devs[j].Repr)
    }

    ghost predicate Valid()
      reads Repr
    {
      && Laid() && (forall i :: 0 <= i < MAX_DEVS ==> devs[i].Valid())
      && Tallied()
    }

    /** The summary counters are the findings, counted. */
    ghost predicate Tallied()
      requires fireCount.Length == MAX_RULES
      reads this, fireCount
    {
      && totalFired == |log| && (forall f :: f in log ==> f.rule < MAX_RULES)
      && forall ri :: 0 <= ri < MAX_RULES ==> fireCount[ri] == |OfRule(log, ri)|
    }

    ghost function SlotAt(i: nat): Option<Device>
      requires Laid() && i < MAX_DEVS && devs[i].Valid()
      reads devs[i].Repr
    {
      if devs[i].used then Some(devs[i].Value()) else None
    }

    ghost function Table(): (s: Slots)
      requires Valid()
      reads Repr
      ensures forall i :: 0 <= i < MAX_DEVS ==> s[i] == SlotAt(i)
    {
      seq(MAX_DEVS, i requires 0 <= i < MAX_DEVS && Valid() reads Repr => SlotAt(i))
    }

    constructor (r: Rules)
      ensures Valid() && fresh(Repr)
      ensures rules == r && Table() == NoSlots() && log == []
    {
      var ws: seq<Window> := [];
      ghost var owned: set<object> := {};
      while |ws| < MAX_DEVS
        invariant |ws| <= MAX_DEVS && fresh(owned)
        invariant forall i :: 0 <= i < |ws| ==> ws[i].Valid() && !ws[i].used && ws[i].Repr <= owned
        invariant forall i, j :: 0 <= i < j < |ws| ==> ws[i].Repr !! ws[j].Repr
      {
        var w := new Window();
        ws := ws + [w];
        owned := owned + w.Repr;
      }
      var counts := new nat[MAX_RULES](i => 0);
      rules, devs, fireCount := r, ws, counts;
      totalFired, log := 0, [];
      Repr := {this, counts} + owned;
    }

    /** The slot that already belongs to device `k`, or 128. */
    method FindOwn(k: DevKey) returns (i: nat)
      requires Valid()
      ensures i == FindKey(Table(), k, 0)
    {
      i := 0;
      while i < MAX_DEVS
        invariant i <= MAX_DEVS
        invariant FindKey(Table(), k, 0) == FindKey(Table(), k, i)
      {
        if devs[i].used && devs[i].key == k {
          return;
        }
        i := i + 1;
      }
    }

    /** The first free slot, or the least recently seen one when there is none. */
    method FindFreeOrLru() returns (i: nat)
      requires Valid()
      ensures i == if FindFree(Table(), 0) < MAX_DEVS then FindFree(Table(), 0) else Lru(Table(), |Table()|)
    {
      ghost var s := Table();
      var lru: nat := 0;
      i := 0;
      while i < MAX_DEVS
        invariant i <= MAX_DEVS
        invariant forall j :: 0 <= j < i ==> s[j].Some?
        invariant if i == 0 then lru == 0 else SeenLongestAgo(s, i, lru)
      {
        assert s[i] == SlotAt(i) && s[lru] == SlotAt(lru);
        if !devs[i].used {
          FirstFree(s, i);
          return;
        }
        if i == 0 || devs[i].lastSeen < devs[lru].lastSeen {
          lru := i;
        }
        i := i + 1;
      }
      FirstFree(s, i);
      LruUnique(s, lru);
      i := lru;
    }

    /** The window of device `k`, taking a free slot or recycling the least recently seen one. */
    method WinGet(k: DevKey) returns (i: nat)
      requires Valid()
      modifies Repr
      ensures Valid() && log == old(log)
      ensures i == SlotFor(old(Table()), k)
      ensures Table() == old(Table())[i := Some(WindowFor(old(Table()), k))]
    {
      ghost var s := Table();
      i := FindOwn(k);
      if i == MAX_DEVS {
        i := FindFreeOrLru();
        Occupy(i, k);
      } else {
        assert s[i := s[i]] == s;
      }
    }

    method Occupy(i: nat, k: DevKey)
      requires Valid() && i < MAX_DEVS
      modifies devs[i].Repr
      ensures Valid() && Table() == old(Table())[i := Some(Fresh(k))]
    {
      devs[i].Claim(k);
    }

    method Emit(f: Finding)
      requires Valid() && f.rule < MAX_RULES
      modifies this, fireCount
      ensures Valid() && log == old(log) + [f] && Table() == old(Table())
    {
      ghost var was := log;
      log := log + [f];
      fireCount[f.rule] := fireCount[f.rule] + 1;
      totalFired := totalFired + 1;
      forall ri | 0 <= ri < MAX_RULES ensures OfRule(log, ri) == OfRule(was, ri) + if f.rule == ri then [f] else [] {
        OfRuleAppend(was, f, ri);
      }
    }

    /** One normalized event: recorded in its device's window, then offered to every event rule. */
    method Ingest(e: Event, clock: Clock)
      requires Valid()
      modifies Repr
      ensures Valid()
      ensures var q := StepSlots(old(Table()), rules, Ev(e, clock));
        Table() == q.slots && log == old(log) + q.out
    {
      ghost var s0, d0 := Table(), WindowFor(Table(), e.Key());
      var i := WinGet(e.Key());
      Observed(i, e);
      TryRules(i, e, clock, Observe(d0, e));
      assert s0[i := Some(d0)][i := Some(Observe(d0, e))] == s0[i := Some(Observe(d0, e))];
    }

    method TryRules(i: nat, e: Event, clock: Clock, ghost d: Device)
      requires Valid() && i < MAX_DEVS && Table()[i] == Some(d)
      modifies this, fireCount, devs[i].Repr
      ensures Valid()
      ensures var p := RunEventRules(d, rules, e, clock, |rules|);
        Table() == old(Table())[i := Some(p.dev)] && log == old(log) + p.out
    {
      ghost var s0, l0 := Table(), log;
      for ri := 0 to |rules|
        invariant Valid()
        invariant Table() == s0[i := Some(RunEventRules(d, rules, e, clock, ri).dev)]
        invariant log == l0 + RunEventRules(d, rules, e, clock, ri).out
      {
        ghost var p := RunEventRules(d, rules, e, clock, ri);
        FireEventRuleFrom(p, rules[ri], ri, e, clock[ri]);
        TryRule(i, ri, e, clock[ri], p.dev);
      }
    }

    method Observed(i: nat, e: Event)
      requires Valid() && i < MAX_DEVS && Table()[i].Some?
      modifies devs[i].Repr
      ensures Valid() && log == old(log)
      ensures Table() == old(Table())[i := Some(Observe(old(Table())[i].value, e))]
    {
      devs[i].Record(e);
    }

    /** Does event rule `ri` hold in window `i`, and what would it report? */
    method RuleHolds(i: nat, ri: nat, e: Event, ghost d: Device) returns (hit: bool, f: Option<Finding>)
      requires Valid() && i < MAX_DEVS && ri < |rules| && Table()[i] == Some(d)
      ensures hit <==> Triggers(rules[ri], d, e)
      ensures hit ==> f == Some(EventFinding(rules[ri], ri, d, e))
    {
      var r := rules[ri];
      var w := devs[i];
      if !r.EventRule? {
        return false, None;
      }
      hit := TriggerHolds(r.trigger, e);
      if !hit {
        return false, None;
      }
      var ok, count, windowMs, ev := w.EvalRule(r.whens, e.ts);
      return ok, if ok then Some(Finding(ri, w.key, w.vid, w.pid, e.ts, count, windowMs, Some(e.comm), ev)) else None;
    }

    method TryRule(i: nat, ri: nat, e: Event, now: u64, ghost d: Device)
      requires Valid() && i < MAX_DEVS && ri < |rules| && Table()[i] == Some(d)
      modifies this, fireCount, devs[i].Repr
      ensures Valid()
      ensures var p := FireEventRule(Report(d, []), rules[ri], ri, e, now);
        Table() == old(Table())[i := Some(p.dev)] && log == old(log) + p.out
    {
      var hit, f := RuleHolds(i, ri, e, d);
      if hit {
        var cool := Cool(i, ri, now, d);
        if cool {
          Emit(f.value);
        }
      }
    }

    method Cool(i: nat, ri: nat, now: u64, ghost d: Device) returns (ok: bool)
      requires Valid() && i < MAX_DEVS && ri < MAX_RULES && Table()[i] == Some(d)
      modifies devs[i].lastFire
      ensures Valid() && log == old(log) && ok == CooledDown(d, ri, now)
      ensures Table() == old(Table())[i := Some(if ok then d.(lastFire := d.lastFire[ri := now]) else d)]
    {
      ok := devs[i].CooldownOk(ri, now);
    }

    /** Periodic maintenance: deadline rules, then eviction, slot by slot. */
    method Tick(now: u64)
      requires Valid()
      modifies Repr
      ensures Valid()
      ensures var q := StepSlots(old(Table()), rules, Tk(now));
        Table() == q.slots && log == old(log) + q.out
    {
      ghost var s0, l0 := Table(), log;
      for i := 0 to |devs|
        invariant Valid()
        invariant Swept(s0, l0, now, i)
      {
        TickNext(i, now, s0, l0);
      }
    }

    /** The first `i` slots have had their tick. */
    ghost predicate Swept(s0: Slots, l0: seq<Finding>, now: u64, i: nat)
      requires Valid() && i <= MAX_DEVS
      reads Repr
    {
      var p := TickSlots(s0, rules, now, i);
      Table() == p.slots && log == l0 + p.out
    }

    method TickNext(i: nat, now: u64, ghost s0: Slots, ghost l0: seq<Finding>)
      requires Valid() && i < MAX_DEVS && Swept(s0, l0, now, i)
      modifies Repr
      ensures Valid() && Swept(s0, l0, now, i + 1)
    {
      TickSlotsStep(s0, rules, now, i);
      TickOne(i, now);
    }

    method TickOne(i: nat, now: u64)
      requires Valid() && i < MAX_DEVS
      modifies this, fireCount, devs[i].Repr
      ensures Valid()
      ensures Table() == old(Table())[i := AfterTick(old(Table())[i], rules, now)]
      ensures log == old(log) + TickFindings(old(Table())[i], rules, now)
    {
      if !devs[i].used {
        return;
      }
      ghost var d := Table()[i].value;
      CheckDeadlines(i, now, d);
      DeadlinesFrame(d, rules, now, |rules|);
      Evict(i, now);
    }

    /** Forget an idle device. */
    method Evict(i: nat, now: u64)
      requires Valid() && i < MAX_DEVS && Table()[i].Some?
      modifies devs[i]
      ensures Valid() && log == old(log)
      ensures Table() == if Idle(old(Table())[i].value, now) then old(Table())[i := None] else old(Table())
    {
      if Sub64(now, devs[i].lastSeen) > RETENTION_NS {
        devs[i].used := false;
      }
    }

    method CheckDeadlines(i: nat, now: u64, ghost d: Device)
      requires Valid() && i < MAX_DEVS && Table()[i] == Some(d)
      modifies this, fireCount, devs[i].Repr
      ensures Valid()
      ensures Table() == old(Table())[i := Some(TickDevice(d, rules, now).dev)]
      ensures log == old(log) + TickDevice(d, rules, now).out
    {
      ghost var s0, l0 := Table(), log;
      for ri := 0 to |rules|
        invariant Valid()
        invariant Table() == s0[i := Some(RunDeadlines(d, rules, now, ri).dev)]
        invariant log == l0 + RunDeadlines(d, rules, now, ri).out
      {
        ghost var p := RunDeadlines(d, rules, now, ri);
        FireDeadlineFrom(p, rules[ri], ri, now);
        CheckDeadline(i, ri, now, p.dev);
      }
    }

    method CheckDeadline(i: nat, ri: nat, now: u64, ghost d: Device)
      requires Valid() && i < MAX_DEVS && ri < |rules| && Table()[i] == Some(d)
      modifies this, fireCount, devs[i].Repr
      ensures Valid()
      ensures var p := FireDeadline(Report(d, []), rules[ri], ri, now);
        Table() == old(Table())[i := Some(p.dev)] && log == old(log) + p.out
    {
      var r := rules[ri];
      var w := devs[i];
      if !r.DeadlineRule? || r.reached < 0 || r.reached > 8 {
        return;
      }
      if r.reached !in w.seen {
        return;
      }
      if 0 <= r.without <= 8 {
        if r.without in w.seen {
          return;
        }
      }
      if Sub64(now, w.stateTs[r.reached]) < MsToNs(r.timeoutMs) {
        return;
      }
      if w.dlFired[ri] {
        return;
      }
      w.dlFired[ri] := true;
      Emit(Finding(ri, w.key, w.vid, w.pid, now, 0, r.timeoutMs, None, []));
    }
  }

  /** A rule's step does not depend on what was reported before it. */
  lemma FireEventRuleFrom(p: Report, r: Rule, ri: nat, e: Event, now: u64)
    requires ri < MAX_RULES
    ensures var q, f := FireEventRule(p, r, ri, e, now), FireEventRule(Report(p.dev, []), r, ri, e, now);
      q.dev == f.dev && q.out == p.out + f.out
  {
  }

  lemma FireDeadlineFrom(p: Report, r: Rule, ri: nat, now: u64)
    requires ri < MAX_RULES
    ensures var q, f := FireDeadline(p, r, ri, now), FireDeadline(Report(p.dev, []), r, ri, now);
      q.dev == f.dev && q.out == p.out + f.out
  {
  }

  ghost predicate SeenLongestAgo(s: Slots, n: nat, l: nat)
    requires n <= MAX_DEVS && forall j :: 0 <= j < n ==> s[j].Some?
  {
    && l < n
    && (forall j :: 0 <= j < n ==> s[l].value.lastSeen <= s[j].value.lastSeen)
    && (forall j :: 0 <= j < l ==> s[l].value.lastSeen < s[j].value.lastSeen)
  }

  lemma LruUnique(s: Slots, l: nat)
    requires forall j :: 0 <= j < MAX_DEVS ==> s[j].Some?
    requires SeenLongestAgo(s, |s|, l)
    ensures l == Lru(s, |s|)
  {
    var m := Lru(s, |s|);
    assert s[l].value.lastSeen == s[m].value.lastSeen;
  }

  lemma FirstFree(s: Slots, i: nat)
    requires i <= MAX_DEVS && (forall j :: 0 <= j < i ==> s[j].Some?) && (i < MAX_DEVS ==> s[i].None?)
    ensures FindFree(s, 0) == i
  {
  }

  function SumOfRules(log: seq<Finding>, n: nat): nat {
    if n == 0 then 0 else SumOfRules(log, n - 1) + |OfRule(log, n - 1)|
  }

  lemma {:induction false} SumOfRulesStep(log: seq<Finding>, f: Finding, n: nat)
    ensures SumOfRules(log + [f], n) == SumOfRules(log, n) + if f.rule < n then 1 else 0
  {
    if n > 0 {
      SumOfRulesStep(log, f, n - 1);
      OfRuleAppend(log, f, n - 1);
    }
  }

  lemma {:induction false} RuleCountsAddUp(log: seq<Finding>, n: nat)
    requires forall f :: f in log ==> f.rule < n
    ensures SumOfRules(log, n) == |log|
  {
    if log == [] {
      NoFindings(n);
    } else {
      var p, f := log[..|log| - 1], log[|log| - 1];
      assert log == p + [f];
      RuleCountsAddUp(p, n);
      SumOfRulesStep(p, f, n);
    }
  }

  lemma {:induction false} NoFindings(n: nat)
    ensures SumOfRules([], n) == 0
  {
    if n > 0 {
      NoFindings(n - 1);
    }
  }

  function SumFirst(counts: seq<nat>, n: nat): nat
    requires n <= |counts|
  {
    if n == 0 then 0 else SumFirst(counts, n - 1) + counts[n - 1]
  }

  lemma {:induction false} CountersAre(e: Engine, n: nat)
    requires e.Valid() && n <= MAX_RULES
    ensures SumFirst(e.fireCount[..], n) == SumOfRules(e.log, n)
  {
    if n > 0 {
      CountersAre(e, n - 1);
    }
  }

  /** The per-rule counters of the summary add up to its total, which is the number of findings printed. */
  lemma CountersAddUp(e: Engine)
    requires e.Valid()
    ensures SumFirst(e.fireCount[..], MAX_RULES) == e.totalFired == |e.log|
  {
    CountersAre(e, MAX_RULES);
    RuleCountsAddUp(e.log, MAX_RULES);
  }
}
