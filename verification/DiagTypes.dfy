/** The records the diag rule engine works on, and the per-event predicates. */
module DiagTypes {
  import opened Base

  const RING_SIZE: nat := 1024
  const MAX_DEVS: nat := 128
  const MAX_RULES: nat := 64
  const MAX_EVIDENCE: nat := 6
  const RETENTION_NS: u64 := 10_000_000_000
  const COOLDOWN_NS: u64 := 2_000_000_000

  const EVT_ENUM: nat := 2
  const EVT_LIFECYCLE: nat := 4
  const ACTION_DISCONNECT: nat := 1

  /** Events are correlated by bus and device number alone. */
  datatype DevKey = DevKey(bus: nat, dev: nat)

  datatype Field =
    | F_NONE | F_KIND | F_STATUS | F_ACTION | F_NEW_STATE | F_STEP | F_BREQUEST | F_WVALUE
    | F_PLAIN(name: nat)

  /** A normalized event. The fields the engine itself branches on are named; every field that is only
      copied out for matching sits in `plain`, where an absent field reads as zero. */
  datatype Event = Event(
    kind: nat, ts: u64, vid: nat, pid: nat, bus: nat, dev: nat,
    status: int, action: nat, newState: nat, step: nat,
    hasSetup: bool, brequest: nat, wvalue: nat,
    plain: map<nat, int>, comm: string)
  {
    function Key(): DevKey {
      DevKey(bus, dev)
    }

    /** A state transition seen by the enumeration probe. */
    predicate IsState() {
      kind == EVT_ENUM && step == 0
    }

    /** NOTATTACHED: a fresh enumeration starts with this event. */
    predicate IsAttach() {
      IsState() && newState == 0
    }

    predicate IsDisconnect() {
      kind == EVT_LIFECYCLE && action == ACTION_DISCONNECT
    }
  }

  datatype Op = OP_EQ | OP_NE | OP_GTE | OP_LTE

  datatype Match = Match(field: Field, value: int, op: Op)

  datatype Cond = Cond(
    kind: Option<nat>, matches: seq<Match>, statusIn: seq<int>,
    withinMs: Option<int>, countGte: Option<int>, minSpanMs: Option<int>, clusterMs: Option<int>)

  datatype Rule =
    | EventRule(trigger: Cond, whens: seq<Cond>)
    | DeadlineRule(reached: int, without: int, timeoutMs: int)

  type Rules = r: seq<Rule> | |r| <= 64

  /** The clock readings available while one event is ingested: entry `ri` is what the clock shows when
      rule `ri` asks for it. */
  type Clock = c: seq<u64> | |c| == 64 witness seq(64, i => 0)

  datatype Finding = Finding(
    rule: nat, key: DevKey, vid: nat, pid: nat, refNs: u64,
    count: int, windowMs: int, comm: Option<string>, evidence: seq<Event>)

  function FieldVal(e: Event, f: Field): int {
    match f
    case F_NONE => 0
    case F_KIND => e.kind
    case F_STATUS => e.status
    case F_ACTION => e.action
    case F_NEW_STATE => e.newState
    case F_STEP => e.step
    case F_BREQUEST => if e.hasSetup then e.brequest else -1
    case F_WVALUE => if e.hasSetup then e.wvalue else -1
    case F_PLAIN(n) => if n in e.plain then e.plain[n] else 0
  }

  predicate MatchOne(m: Match, v: int) {
    match m.op
    case OP_NE => v != m.value
    case OP_GTE => v >= m.value
    case OP_LTE => v <= m.value
    case OP_EQ => v == m.value
  }

  predicate TriggerMatch(c: Cond, e: Event) {
    && (c.kind.Some? ==> e.kind == c.kind.value)
    && forall i :: 0 <= i < |c.matches| ==> MatchOne(c.matches[i], FieldVal(e, c.matches[i].field))
  }

  predicate CondPred(c: Cond, e: Event) {
    TriggerMatch(c, e) && (c.statusIn == [] || e.status in c.statusIn)
  }

  /** Is the event inside the lookback of a condition evaluated at `ref`? */
  predicate InLookback(c: Cond, ref: u64, e: Event) {
    && e.ts <= ref
    && (c.withinMs.Some? ==> Sub64(ref, e.ts) <= MsToNs(c.withinMs.value))
  }

  predicate Counts(c: Cond, ref: u64, e: Event) {
    InLookback(c, ref, e) && CondPred(c, e)
  }

  function ClusterNs(c: Cond): u64 {
    if c.clusterMs.Some? && c.clusterMs.value > 0 then MsToNs(c.clusterMs.value) else 0
  }

  function Need(c: Cond): int {
    if c.countGte.Some? then c.countGte.value else 1
  }
}
