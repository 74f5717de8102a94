/** The device window as the engine keeps it: a record updated in place, with a modular ring of events. */
module DiagWindow {
  import opened Base
  import opened DiagTypes
  import opened DiagQuery
  import opened DiagDevice

  method MatchFields(c: Cond, e: Event) returns (ok: bool)
    ensures ok <==> forall i :: 0 <= i < |c.matches| ==> MatchOne(c.matches[i], FieldVal(e, c.matches[i].field))
  {
    for i := 0 to |c.matches|
      invariant forall j :: 0 <= j < i ==> MatchOne(c.matches[j], FieldVal(e, c.matches[j].field))
    {
      var v := FieldVal(e, c.matches[i].field);
      if !MatchOne(c.matches[i], v) {
        return false;
      }
    }
    return true;
  }

  method StatusOk(c: Cond, e: Event) returns (ok: bool)
    ensures ok <==> c.statusIn == [] || e.status in c.statusIn
  {
    if |c.statusIn| == 0 {
      return true;
    }
    for i := 0 to |c.statusIn|
      invariant e.status !in c.statusIn[..i]
    {
      if e.status == c.statusIn[i] {
        return true;
      }
    }
    return false;
  }

  method CondEventPred(c: Cond, e: Event) returns (ok: bool)
    ensures ok <==> CondPred(c, e)
  {
    if c.kind.Some? && e.kind != c.kind.value {
      return false;
    }
    var fields := MatchFields(c, e);
    if !fields {
      return false;
    }
    ok := StatusOk(c, e);
  }

  method TriggerHolds(c: Cond, e: Event) returns (ok: bool)
    ensures ok <==> TriggerMatch(c, e)
  {
    if c.kind.Some? && e.kind != c.kind.value {
      return false;
    }
    ok := MatchFields(c, e);
  }

  /** Place of the `i`-th newest event in a ring whose next write goes to `head`. */
  function Pos(head: nat, i: nat): nat
    requires head < RING_SIZE && i < RING_SIZE
  {
    (head - 1 - i + 2 * RING_SIZE) % RING_SIZE
  }

  lemma PosAfterPush(head: nat, i: nat)
    requires head < RING_SIZE && i < RING_SIZE
    ensures Pos((head + 1) % RING_SIZE, i) == if i == 0 then head else Pos(head, i - 1)
    ensures i < RING_SIZE - 1 ==> Pos(head, i) != head
  {
  }

  class Window {
    var used: bool
    var key: DevKey
    var vid: nat
    var pid: nat
    var lastSeen: u64
    const ring: array<Event>
    var head: nat
    var count: nat
    var seen: set<nat>
    const stateTs: array<u64>
    const lastFire: array<u64>
    const dlFired: array<bool>

    ghost const Repr: set<object>

    ghost predicate Shaped() {
      && ring.Length == RING_SIZE && stateTs.Length == 9
      && lastFire.Length == MAX_RULES && dlFired.Length == MAX_RULES
      && stateTs != lastFire
      && Repr == {this, ring, stateTs, lastFire, dlFired}
    }

    ghost predicate Valid()
      reads this
    {
      Shaped() && head < RING_SIZE && count <= RING_SIZE
    }

    /** The ring's content, newest event first. */
    ghost function Recent(): (r: seq<Event>)
      requires Valid()
      reads this, ring
      ensures |r| == count
      ensures forall i :: 0 <= i < count ==> r[i] == ring[Pos(head, i)]
    {
      seq(count, i requires 0 <= i < count reads this, ring requires Valid() => ring[Pos(head, i)])
    }

    ghost function Value(): Device
      requires Valid()
      reads this, ring, stateTs, lastFire, dlFired
    {
      Dev(key, vid, pid, lastSeen, Recent(), seen, stateTs[..], lastFire[..], dlFired[..])
    }

    constructor ()
      ensures Valid() && !used && fresh(Repr)
    {
      used := false;
      key, vid, pid, lastSeen := DevKey(0, 0), 0, 0, 0;
      head, count, seen := 0, 0, {};
      var nothing := Event(0, 0, 0, 0, 0, 0, 0, 0, 0, 0, false, 0, 0, map[], "");
      var r := new Event[RING_SIZE](i => nothing);
      var s := new u64[9](i => 0);
      var f := new u64[MAX_RULES](i => 0);
      var l := new bool[MAX_RULES](i => false);
      ring, stateTs, lastFire, dlFired := r, s, f, l;
      Repr := {this, r, s, f, l};
    }

    /** A slot taken over by device `k`: everything it knew is wiped. */
    method Claim(k: DevKey)
      requires Valid()
      modifies Repr
      ensures Valid() && used
      ensures Value() == Fresh(k)
    {
      vid, pid, lastSeen := 0, 0, 0;
      head, count, seen := 0, 0, {};
      forall i | 0 <= i < stateTs.Length { stateTs[i] := 0; }
      forall i | 0 <= i < lastFire.Length { lastFire[i] := 0; }
      forall i | 0 <= i < dlFired.Length { dlFired[i] := false; }
      used := true;
      key := k;
    }

    method Push(e: Event)
      requires Valid()
      modifies this`head, this`count, ring
      ensures Valid()
      ensures Recent() == Take([e] + old(Recent()), RING_SIZE)
    {
      ghost var was := Recent();
      ghost var h := head;
      ring[head] := e;
      head := (head + 1) % RING_SIZE;
      if count < RING_SIZE {
        count := count + 1;
      }
      forall i | 0 <= i < count ensures Recent()[i] == ([e] + was)[i] {
        PosAfterPush(h, i);
        if i > 0 {
          PosAfterPush(h, i - 1);
        }
      }
    }

    /** The `i`-th newest event. */
    method At(i: nat) returns (e: Event)
      requires Valid() && i < count
      ensures e == Recent()[i]
    {
      e := ring[(head - 1 - i + 2 * RING_SIZE) % RING_SIZE];
    }

    /** One condition over the window: the count, and the evidence list extended or rolled back. */
    method EvalWhen(c: Cond, ref: u64, ev0: seq<Event>) returns (cnt: nat, ev: seq<Event>)
      requires Valid() && |ev0| <= MAX_EVIDENCE
      ensures cnt == WhenCount(Recent(), c, ref)
      ensures ev == WhenEvidence(Recent(), c, ref, ev0)
    {
      var clusterNs: u64 := 0;
      if c.clusterMs.Some? && c.clusterMs.value > 0 {
        clusterNs := MsToNs(c.clusterMs.value);
      }
      var scan := Scan(0, 0, MAX64, 0, 0, ev0);
      ghost var r := Recent();
      for i := 0 to count
        invariant Tracks(scan, Matching(r[..i], c, ref), c, ev0)
      {
        var x := At(i);
        MatchingStep(r, i, c, ref);
        if x.ts > ref {
          continue;
        }
        if c.withinMs.Some? && Sub64(ref, x.ts) > MsToNs(c.withinMs.value) {
          continue;
        }
        var pred := CondEventPred(c, x);
        if !pred {
          continue;
        }
        scan := Select(scan, clusterNs, x, Matching(r[..i], c, ref), c, ev0);
      }
      assert r[..count] == r;
      cnt, ev := scan.cnt, scan.ev;
      if clusterNs != 0 {
        cnt := scan.nclus;
      }
      if c.minSpanMs.Some? && (cnt < 2 || Sub64(scan.newest, scan.oldest) < MsToNs(c.minSpanMs.value)) {
        ev := ev0;
        cnt := 0;
      }
    }

    method ResetEnumState()
      requires Valid()
      modifies this`seen, stateTs, dlFired
      ensures Valid() && Value() == ResetEnum(old(Value()))
    {
      seen := {};
      forall i | 0 <= i < stateTs.Length { stateTs[i] := 0; }
      forall i | 0 <= i < dlFired.Length { dlFired[i] := false; }
    }

    /** Identity, time and history of the device. */
    method Note(e: Event)
      requires Valid()
      modifies this, ring
      ensures Valid() && used == old(used)
      ensures Value() == Learn(old(Value()), e)
    {
      lastSeen := e.ts;
      if e.vid != 0 {
        vid := e.vid;
      }
      if e.pid != 0 {
        pid := e.pid;
      }
      Push(e);
    }

    method MarkState(s: nat, ts: u64)
      requires Valid() && s < 9
      modifies this`seen, stateTs
      ensures Valid() && Value() == NoteState(old(Value()), s, ts)
    {
      seen := seen + {s};
      if stateTs[s] == 0 {
        stateTs[s] := ts;
      }
    }

    /** The bookkeeping done for every event before any rule looks at it. */
    method Record(e: Event)
      requires Valid()
      modifies Repr
      ensures Valid() && used == old(used)
      ensures Value() == Observe(old(Value()), e)
    {
      Note(e);
      if e.kind == EVT_ENUM && e.step == 0 {
        if e.newState == 0 {
          ResetEnumState();
        }
        if e.newState < 9 {
          MarkState(e.newState, e.ts);
        }
      } else if e.kind == EVT_LIFECYCLE && e.action == ACTION_DISCONNECT {
        ResetEnumState();
      }
    }

    method CooldownOk(ri: nat, now: u64) returns (ok: bool)
      requires Valid() && ri < MAX_RULES
      modifies lastFire
      ensures ok == CooledDown(old(Value()), ri, now)
      ensures Value() == if ok then old(Value()).(lastFire := old(Value()).lastFire[ri := now]) else old(Value())
    {
      if lastFire[ri] != 0 && Sub64(now, lastFire[ri]) < COOLDOWN_NS {
        return false;
      }
      lastFire[ri] := now;
      return true;
    }

    /** All the conditions of an event rule, stopping at the first that falls short. */
    method EvalRule(whens: seq<Cond>, ref: u64) returns (ok: bool, count: int, windowMs: int, ev: seq<Event>)
      requires Valid()
      ensures ok == EvalWhens(whens, Recent(), ref).ok
      ensures ok ==> EvalWhens(whens, Recent(), ref) == Lookback(true, count, windowMs, ev)
    {
      ok, count, windowMs, ev := true, 0, 0, [];
      for j := 0 to |whens|
        invariant ok && EvalWhens(whens[..j], Recent(), ref) == Lookback(true, count, windowMs, ev)
      {
        var c := whens[j];
        var need := if c.countGte.Some? then c.countGte.value else 1;
        var n, more := EvalWhen(c, ref, ev);
        assert whens[..j + 1][..j] == whens[..j];
        if n < need {
          EvalWhensStops(whens, j + 1, Recent(), ref);
          return false, count, windowMs, more;
        }
        ev := more;
        if n > count {
          count := n;
        }
        if c.withinMs.Some? && c.withinMs.value > windowMs {
          windowMs := c.withinMs.value;
        }
      }
      assert whens[..|whens|] == whens;
    }
  }

  /** The running totals of one pass over the window. */
  datatype Scan = Scan(cnt: nat, nclus: nat, oldest: u64, newest: u64, prev: u64, ev: seq<Event>)

  /** The totals are those of the selected events `m`. */
  ghost predicate Tracks(s: Scan, m: seq<Event>, c: Cond, ev0: seq<Event>)
    requires |ev0| <= MAX_EVIDENCE
  {
    && s.cnt == |m| && s.oldest == Oldest(m) && s.newest == Newest(m)
    && (ClusterNs(c) != 0 ==> s.nclus == |Counted(m, c)| && (s.nclus == 0 <==> m == []))
    && (ClusterNs(c) != 0 && m != [] ==> s.prev == m[|m| - 1].ts)
    && s.ev == Shown(m, c, ev0)
  }

  /** The evidence list after the events `m` have been selected. */
  ghost function Shown(m: seq<Event>, c: Cond, ev0: seq<Event>): seq<Event>
    requires |ev0| <= MAX_EVIDENCE
  {
    ev0 + Take(Counted(m, c), MAX_EVIDENCE - |ev0|)
  }

  /** Event `x`, selected after `m`, is counted: always, or when it opens a cluster. */
  ghost predicate CountsNext(m: seq<Event>, x: Event, c: Cond) {
    ClusterNs(c) == 0 || m == [] || Sub64(m[|m| - 1].ts, x.ts) > ClusterNs(c)
  }

  lemma CountedStep(m: seq<Event>, x: Event, c: Cond)
    ensures Counted(m + [x], c) == if CountsNext(m, x, c) then Counted(m, c) + [x] else Counted(m, c)
  {
    SelectStep(m, x, ClusterNs(c));
  }

  lemma ShownStep(m: seq<Event>, x: Event, c: Cond, ev0: seq<Event>)
    requires |ev0| <= MAX_EVIDENCE
    ensures |Shown(m, c, ev0)| <= MAX_EVIDENCE
    ensures Shown(m + [x], c, ev0)
         == if CountsNext(m, x, c) && |Shown(m, c, ev0)| < MAX_EVIDENCE
            then Shown(m, c, ev0) + [x] else Shown(m, c, ev0)
  {
    CountedStep(m, x, c);
  }

  /** One selected event enters the totals. */
  method Select(s: Scan, clusterNs: u64, x: Event, ghost m: seq<Event>, ghost c: Cond, ghost ev0: seq<Event>)
    returns (t: Scan)
    requires |ev0| <= MAX_EVIDENCE && Tracks(s, m, c, ev0) && clusterNs == ClusterNs(c)
    ensures Tracks(t, m + [x], c, ev0)
  {
    SelectStep(m, x, clusterNs);
    CountedStep(m, x, c);
    ShownStep(m, x, c, ev0);
    var take := true;
    t := s.(cnt := s.cnt + 1, oldest := if x.ts < s.oldest then x.ts else s.oldest,
            newest := if x.ts > s.newest then x.ts else s.newest);
    if clusterNs != 0 {
      take := s.nclus == 0 || Sub64(s.prev, x.ts) > clusterNs;
      t := t.(prev := x.ts, nclus := if take then s.nclus + 1 else s.nclus);
    }
    if take && |s.ev| < MAX_EVIDENCE {
      t := t.(ev := s.ev + [x]);
    }
  }

  lemma {:induction false} EvalWhensStops(whens: seq<Cond>, n: nat, recent: seq<Event>, ref: u64)
    requires n <= |whens| && !EvalWhens(whens[..n], recent, ref).ok
    ensures !EvalWhens(whens, recent, ref).ok
    decreases |whens| - n
  {
    if n < |whens| {
      assert whens[..n + 1][..n] == whens[..n];
      EvalWhensStops(whens, n + 1, recent, ref);
    } else {
      assert whens[..n] == whens;
    }
  }
}
