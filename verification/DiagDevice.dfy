/** One device window as a value: what an event and a tick do to it, and which findings they report. */
module DiagDevice {
  import opened Base
  import opened DiagTypes
  import opened DiagQuery

  /** `recent` holds the newest events, newest first. `stateTs[s]` is zero while state `s` has no time. */
  datatype Dev = Dev(
    key: DevKey, vid: nat, pid: nat, lastSeen: u64,
    recent: seq<Event>,
    seen: set<nat>, stateTs: seq<u64>,
    lastFire: seq<u64>, dlFired: seq<bool>)

  ghost predicate Sized(d: Dev) {
    |d.recent| <= RING_SIZE && |d.stateTs| == 9 && |d.lastFire| == MAX_RULES && |d.dlFired| == MAX_RULES
  }

  type Device = d: Dev | Sized(d)
    ghost witness Dev(DevKey(0, 0), 0, 0, 0, [], {}, seq(9, i => 0), seq(64, i => 0), seq(64, i => false))

  function Zeros(n: nat): (s: seq<u64>)
    ensures |s| == n && forall i :: 0 <= i < n ==> s[i] == 0
  {
    seq(n, i => 0)
  }

  function AllFalse(n: nat): (s: seq<bool>)
    ensures |s| == n && forall i :: 0 <= i < n ==> !s[i]
  {
    seq(n, i => false)
  }

  /** A device after a step, and the findings the step reported. */
  datatype Report = Report(dev: Device, out: seq<Finding>)

  function Fresh(k: DevKey): Device {
    Dev(k, 0, 0, 0, [], {}, Zeros(9), Zeros(MAX_RULES), AllFalse(MAX_RULES))
  }

  function ResetEnum(d: Device): Device {
    d.(seen := {}, stateTs := Zeros(9), dlFired := AllFalse(MAX_RULES))
  }

  function NoteState(d: Device, s: nat, ts: u64): Device {
    if s < 9 then
      d.(seen := d.seen + {s}, stateTs := if d.stateTs[s] == 0 then d.stateTs[s := ts] else d.stateTs)
    else d
  }

  function NoteEnum(d: Device, e: Event): Device {
    if e.IsState() then NoteState(if e.newState == 0 then ResetEnum(d) else d, e.newState, e.ts)
    else if e.IsDisconnect() then ResetEnum(d)
    else d
  }

  function Learn(d: Device, e: Event): Device {
    d.(lastSeen := e.ts,
       vid := if e.vid != 0 then e.vid else d.vid,
       pid := if e.pid != 0 then e.pid else d.pid,
       recent := Take([e] + d.recent, RING_SIZE))
  }

  function Observe(d: Device, e: Event): Device {
    NoteEnum(Learn(d, e), e)
  }

  // ---- event rules ----

  datatype Lookback = Lookback(ok: bool, count: int, windowMs: int, evidence: seq<Event>)

  /** The conjunction of the conditions: each needs its count; the finding reports the largest count and
      the longest lookback, and the conditions share one evidence budget. */
  function EvalWhens(whens: seq<Cond>, recent: seq<Event>, ref: u64): (r: Lookback)
    ensures |r.evidence| <= MAX_EVIDENCE
  {
    if whens == [] then Lookback(true, 0, 0, [])
    else
      var p := EvalWhens(whens[..|whens| - 1], recent, ref);
      var c := whens[|whens| - 1];
      var n := WhenCount(recent, c, ref);
      if !p.ok || n < Need(c) then Lookback(false, p.count, p.windowMs, p.evidence)
      else Lookback(true, Max(p.count, n),
                    if c.withinMs.Some? then Max(p.windowMs, c.withinMs.value) else p.windowMs,
                    WhenEvidence(recent, c, ref, p.evidence))
  }

  function CooledDown(d: Device, ri: nat, now: u64): bool
    requires ri < MAX_RULES
  {
    d.lastFire[ri] == 0 || Sub64(now, d.lastFire[ri]) >= COOLDOWN_NS
  }

  /** The event rule `ri` would report at this event, cooldown aside. */
  predicate Triggers(r: Rule, d: Device, e: Event) {
    r.EventRule? && TriggerMatch(r.trigger, e) && EvalWhens(r.whens, d.recent, e.ts).ok
  }

  function EventFinding(r: Rule, ri: nat, d: Device, e: Event): Finding
    requires r.EventRule?
  {
    var l := EvalWhens(r.whens, d.recent, e.ts);
    Finding(ri, d.key, d.vid, d.pid, e.ts, l.count, l.windowMs, Some(e.comm), l.evidence)
  }

  /** The first `n` rules, tried in order after the event has been recorded. */
  function RunEventRules(d: Device, rules: Rules, e: Event, clock: Clock, n: nat): Report
    requires n <= |rules|
  {
    if n == 0 then Report(d, [])
    else
      var p := RunEventRules(d, rules, e, clock, n - 1);
      FireEventRule(p, rules[n - 1], n - 1, e, clock[n - 1])
  }

  function FireEventRule(p: Report, r: Rule, ri: nat, e: Event, now: u64): Report
    requires ri < MAX_RULES
  {
    if Triggers(r, p.dev, e) && CooledDown(p.dev, ri, now) then
      Report(p.dev.(lastFire := p.dev.lastFire[ri := now]), p.out + [EventFinding(r, ri, p.dev, e)])
    else p
  }

  function IngestDevice(d: Device, rules: Rules, e: Event, clock: Clock): Report {
    RunEventRules(Observe(d, e), rules, e, clock, |rules|)
  }

  // ---- deadline rules ----

  predicate Overdue(r: Rule, d: Device, now: u64) {
    && r.DeadlineRule?
    && 0 <= r.reached <= 8 && r.reached in d.seen
    && !(0 <= r.without <= 8 && r.without in d.seen)
    && Sub64(now, d.stateTs[r.reached]) >= MsToNs(r.timeoutMs)
  }

  function DeadlineFinding(r: Rule, ri: nat, d: Device, now: u64): Finding
    requires r.DeadlineRule?
  {
    Finding(ri, d.key, d.vid, d.pid, now, 0, r.timeoutMs, None, [])
  }

  function RunDeadlines(d: Device, rules: Rules, now: u64, n: nat): Report
    requires n <= |rules|
  {
    if n == 0 then Report(d, [])
    else FireDeadline(RunDeadlines(d, rules, now, n - 1), rules[n - 1], n - 1, now)
  }

  function FireDeadline(p: Report, r: Rule, ri: nat, now: u64): Report
    requires ri < MAX_RULES
  {
    if Overdue(r, p.dev, now) && !p.dev.dlFired[ri] then
      Report(p.dev.(dlFired := p.dev.dlFired[ri := true]), p.out + [DeadlineFinding(r, ri, p.dev, now)])
    else p
  }

  function TickDevice(d: Device, rules: Rules, now: u64): Report {
    RunDeadlines(d, rules, now, |rules|)
  }

  predicate Idle(d: Device, now: u64) {
    Sub64(now, d.lastSeen) > RETENTION_NS
  }

  // ---- what the rule loops leave alone, and what they report ----

  function OfRule(out: seq<Finding>, ri: nat): seq<Finding> {
    if out == [] then []
    else
      var p := OfRule(out[..|out| - 1], ri);
      if out[|out| - 1].rule == ri then p + [out[|out| - 1]] else p
  }

  lemma OfRuleAppend(out: seq<Finding>, f: Finding, ri: nat)
    ensures OfRule(out + [f], ri) == OfRule(out, ri) + (if f.rule == ri then [f] else [])
  {
    assert (out + [f])[..|out|] == out;
  }

  /** The event rules touch nothing but the cooldowns, and report about this device only. */
  lemma {:induction false} EventRulesFrame(d: Device, rules: Rules, e: Event, clock: Clock, n: nat)
    requires n <= |rules|
    ensures var p := RunEventRules(d, rules, e, clock, n);
      && p.dev == d.(lastFire := p.dev.lastFire)
      && forall f :: f in p.out ==> f.key == d.key && f.rule < n
  {
    if n > 0 {
      EventRulesFrame(d, rules, e, clock, n - 1);
    }
  }

  lemma OtherEventRule(p: Report, r: Rule, n: nat, e: Event, now: u64, ri: nat)
    requires n < MAX_RULES && ri < MAX_RULES && n != ri
    ensures var q := FireEventRule(p, r, n, e, now);
      q.dev.lastFire[ri] == p.dev.lastFire[ri] && OfRule(q.out, ri) == OfRule(p.out, ri)
  {
    if Triggers(r, p.dev, e) {
      OfRuleAppend(p.out, EventFinding(r, n, p.dev, e), ri);
    }
  }

  lemma OwnEventRule(d: Device, p: Report, r: Rule, ri: nat, e: Event, now: u64)
    requires ri < MAX_RULES && p.dev == d.(lastFire := p.dev.lastFire) && p.dev.lastFire[ri] == d.lastFire[ri]
    requires OfRule(p.out, ri) == []
    ensures var q := FireEventRule(p, r, ri, e, now); var fires := Triggers(r, d, e) && CooledDown(d, ri, now);
      && q.dev.lastFire[ri] == (if fires then now else d.lastFire[ri])
      && OfRule(q.out, ri) == if fires then [EventFinding(r, ri, d, e)] else []
  {
    if Triggers(r, d, e) {
      OfRuleAppend(p.out, EventFinding(r, ri, d, e), ri);
    }
  }

  lemma {:induction false} EventRuleNotYet(d: Device, rules: Rules, e: Event, clock: Clock, n: nat, ri: nat)
    requires n <= |rules| && n <= ri < MAX_RULES
    ensures var p := RunEventRules(d, rules, e, clock, n);
      p.dev.lastFire[ri] == d.lastFire[ri] && OfRule(p.out, ri) == []
  {
    if n > 0 {
      EventRuleNotYet(d, rules, e, clock, n - 1, ri);
      OtherEventRule(RunEventRules(d, rules, e, clock, n - 1), rules[n - 1], n - 1, e, clock[n - 1], ri);
    }
  }

  /** A rule reports at most once per event: exactly when it triggers and has cooled down, and then its
      cooldown restarts at the clock reading. No other rule interferes. */
  lemma {:induction false} EventRuleEffect(d: Device, rules: Rules, e: Event, clock: Clock, n: nat, ri: nat)
    requires ri < n <= |rules|
    ensures var p := RunEventRules(d, rules, e, clock, n);
      var fires := Triggers(rules[ri], d, e) && CooledDown(d, ri, clock[ri]);
      && p.dev.lastFire[ri] == (if fires then clock[ri] else d.lastFire[ri])
      && OfRule(p.out, ri) == if fires then [EventFinding(rules[ri], ri, d, e)] else []
  {
    var p := RunEventRules(d, rules, e, clock, n - 1);
    if n - 1 == ri {
      EventRulesFrame(d, rules, e, clock, ri);
      EventRuleNotYet(d, rules, e, clock, ri, ri);
      OwnEventRule(d, p, rules[ri], ri, e, clock[ri]);
    } else {
      EventRuleEffect(d, rules, e, clock, n - 1, ri);
      OtherEventRule(p, rules[n - 1], n - 1, e, clock[n - 1], ri);
    }
  }

  /** The deadline rules touch nothing but the latches, and report about this device only. */
  lemma {:induction false} DeadlinesFrame(d: Device, rules: Rules, now: u64, n: nat)
    requires n <= |rules|
    ensures var p := RunDeadlines(d, rules, now, n);
      && p.dev == d.(dlFired := p.dev.dlFired)
      && forall f :: f in p.out ==> f.key == d.key && f.rule < n
  {
    if n > 0 {
      DeadlinesFrame(d, rules, now, n - 1);
    }
  }

  lemma OtherDeadline(p: Report, r: Rule, n: nat, now: u64, ri: nat)
    requires n < MAX_RULES && ri < MAX_RULES && n != ri
    ensures var q := FireDeadline(p, r, n, now);
      q.dev.dlFired[ri] == p.dev.dlFired[ri] && OfRule(q.out, ri) == OfRule(p.out, ri)
  {
    if Overdue(r, p.dev, now) {
      OfRuleAppend(p.out, DeadlineFinding(r, n, p.dev, now), ri);
    }
  }

  lemma OwnDeadline(d: Device, p: Report, r: Rule, ri: nat, now: u64)
    requires ri < MAX_RULES && p.dev == d.(dlFired := p.dev.dlFired) && p.dev.dlFired[ri] == d.dlFired[ri]
    requires OfRule(p.out, ri) == []
    ensures var q := FireDeadline(p, r, ri, now);
      && q.dev.dlFired[ri] == (d.dlFired[ri] || Overdue(r, d, now))
      && OfRule(q.out, ri)
         == if Overdue(r, d, now) && !d.dlFired[ri] then [DeadlineFinding(r, ri, d, now)] else []
  {
    if Overdue(r, d, now) {
      OfRuleAppend(p.out, DeadlineFinding(r, ri, d, now), ri);
    }
  }

  lemma {:induction false} DeadlineNotYet(d: Device, rules: Rules, now: u64, n: nat, ri: nat)
    requires n <= |rules| && n <= ri < MAX_RULES
    ensures var p := RunDeadlines(d, rules, now, n);
      p.dev.dlFired[ri] == d.dlFired[ri] && OfRule(p.out, ri) == []
  {
    if n > 0 {
      var p := RunDeadlines(d, rules, now, n - 1);
      DeadlineNotYet(d, rules, now, n - 1, ri);
      OtherDeadline(p, rules[n - 1], n - 1, now, ri);
      assert RunDeadlines(d, rules, now, n) == FireDeadline(p, rules[n - 1], n - 1, now);
    } else {
      assert OfRule([], ri) == [];
    }
  }

  /** A deadline rule reports at most once per tick: exactly when it is overdue and not latched, and then
      it latches. */
  lemma {:induction false} DeadlineEffect(d: Device, rules: Rules, now: u64, n: nat, ri: nat)
    requires ri < n <= |rules|
    ensures var p := RunDeadlines(d, rules, now, n);
      && p.dev.dlFired[ri] == (d.dlFired[ri] || Overdue(rules[ri], d, now))
      && OfRule(p.out, ri)
         == if Overdue(rules[ri], d, now) && !d.dlFired[ri] then [DeadlineFinding(rules[ri], ri, d, now)] else []
  {
    var p := RunDeadlines(d, rules, now, n - 1);
    if n - 1 == ri {
      DeadlinesFrame(d, rules, now, ri);
      DeadlineNotYet(d, rules, now, ri, ri);
      OwnDeadline(d, p, rules[ri], ri, now);
    } else {
      DeadlineEffect(d, rules, now, n - 1, ri);
      OtherDeadline(p, rules[n - 1], n - 1, now, ri);
    }
  }

  /** A conjunction holds exactly when every condition reaches its count, and reports the largest. */
  lemma {:induction false} WhensMeaning(whens: seq<Cond>, recent: seq<Event>, ref: u64)
    ensures var r := EvalWhens(whens, recent, ref);
      && (r.ok <==> forall j :: 0 <= j < |whens| ==> WhenCount(recent, whens[j], ref) >= Need(whens[j]))
      && (r.ok ==> forall j :: 0 <= j < |whens| ==> WhenCount(recent, whens[j], ref) <= r.count)
      && (r.ok && r.count != 0 ==> exists j :: 0 <= j < |whens| && WhenCount(recent, whens[j], ref) == r.count)
      && r.count >= 0
  {
    if whens != [] {
      var p, c := whens[..|whens| - 1], whens[|whens| - 1];
      assert whens == p + [c];
      WhensMeaning(p, recent, ref);
      var q, r := EvalWhens(p, recent, ref), EvalWhens(whens, recent, ref);
      if r.ok && r.count != 0 {
        if r.count == WhenCount(recent, c, ref) {
          assert WhenCount(recent, whens[|p|], ref) == r.count;
        } else {
          var j :| 0 <= j < |p| && WhenCount(recent, p[j], ref) == q.count;
          assert whens[j] == p[j];
        }
      }
    }
  }

  /** A rule that reports from a bounded ring also holds over the full history it is a prefix of, with a
      count at least as large. */
  lemma WhensTruncationOneSided(whens: seq<Cond>, full: seq<Event>, n: nat, ref: u64)
    requires EvalWhens(whens, Take(full, n), ref).ok
    ensures EvalWhens(whens, full, ref).ok
    ensures EvalWhens(whens, Take(full, n), ref).count <= EvalWhens(whens, full, ref).count
  {
    var t := Take(full, n);
    WhensMeaning(whens, t, ref);
    WhensMeaning(whens, full, ref);
    forall j | 0 <= j < |whens| ensures WhenCount(t, whens[j], ref) <= WhenCount(full, whens[j], ref) {
      TruncationOneSided(full, n, whens[j], ref);
    }
    var r := EvalWhens(whens, t, ref);
    if r.count > 0 {
      var j :| 0 <= j < |whens| && WhenCount(t, whens[j], ref) == r.count;
    }
  }

  /** The reported lookback is the longest one among the conditions, never negative. */
  lemma {:induction false} WindowIsLongestLookback(whens: seq<Cond>, recent: seq<Event>, ref: u64)
    requires EvalWhens(whens, recent, ref).ok
    ensures var ms := EvalWhens(whens, recent, ref).windowMs;
      && ms >= 0
      && (forall j :: 0 <= j < |whens| && whens[j].withinMs.Some? ==> whens[j].withinMs.value <= ms)
      && (ms > 0 ==> exists j :: 0 <= j < |whens| && whens[j].withinMs == Some(ms))
  {
    if whens != [] {
      var p, c := whens[..|whens| - 1], whens[|whens| - 1];
      assert whens == p + [c];
      WindowIsLongestLookback(p, recent, ref);
      var was, ms := EvalWhens(p, recent, ref).windowMs, EvalWhens(whens, recent, ref).windowMs;
      if ms > 0 {
        if c.withinMs == Some(ms) {
          assert whens[|p|].withinMs == Some(ms);
        } else {
          var j :| 0 <= j < |p| && p[j].withinMs == Some(was);
          assert whens[j] == p[j];
        }
      }
    }
  }

  /** The events the conditions offer as evidence, in order. */
  function Offered(whens: seq<Cond>, recent: seq<Event>, ref: u64): seq<Event> {
    if whens == [] then []
    else
      var m := Matching(recent, whens[|whens| - 1], ref);
      Offered(whens[..|whens| - 1], recent, ref)
      + if SpanFails(m, whens[|whens| - 1]) then [] else Counted(m, whens[|whens| - 1])
  }

  /** The conditions share one budget: the evidence is the first six events offered. */
  lemma {:induction false} EvidenceIsFirstSix(whens: seq<Cond>, recent: seq<Event>, ref: u64)
    requires EvalWhens(whens, recent, ref).ok
    ensures EvalWhens(whens, recent, ref).evidence == Take(Offered(whens, recent, ref), 6)
  {
    if whens != [] {
      EvidenceIsFirstSix(whens[..|whens| - 1], recent, ref);
    }
  }

  /** Findings in the order of their rules, at most one each. */
  ghost predicate InRuleOrder(out: seq<Finding>) {
    forall i, j :: 0 <= i < j < |out| ==> out[i].rule < out[j].rule
  }

  /** One event, or one tick on one device, reports in the order in which the rules are written. */
  lemma {:induction false} ReportsInRuleOrder(d: Device, rules: Rules, e: Event, clock: Clock, now: u64, n: nat)
    requires n <= |rules|
    ensures InRuleOrder(RunEventRules(d, rules, e, clock, n).out)
    ensures InRuleOrder(RunDeadlines(d, rules, now, n).out)
  {
    if n > 0 {
      ReportsInRuleOrder(d, rules, e, clock, now, n - 1);
      EventRulesFrame(d, rules, e, clock, n - 1);
      DeadlinesFrame(d, rules, now, n - 1);
    }
  }
}
