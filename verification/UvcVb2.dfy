/** Sequence numbers of completed video buffers, one tracker per buffer queue. */
module UvcVb2 {
  import opened Base

  const MAX_QUEUES: nat := 64
  const MIN_BYTES: u32 := 100_000
  const MAX_BYTES: u32 := 0x200_0000

  datatype QState = QState(doneCount: u32, lastDone: u64, lastSeq: u32, haveLastSeq: bool)

  const NEW_QUEUE := QState(0, 0, 0, false)

  /** A completed buffer: its queue (zero for none), its fill, and the kernel's sequence number when known. */
  datatype Done = Done(queue: nat, bytes: u32, seqNo: Option<u32>, now: u64)

  datatype Event = Event(queue: nat, seqNo: u32, seqGap: bool, interval: u32)

  function Successor(x: u32): u32 {
    (x + 1) % TWO32
  }

  function SeqGap(last: u32, cur: u32): (gap: bool)
    ensures gap <==> cur != last && cur != Successor(last)
  {
    if cur == last then false
    else
      var expected := if last == 0xffff_ffff then 0 else last + 1;
      cur != expected
  }

  /** The flag is the documented one, "sequence != last + 1", exactly when the number does not repeat. */
  lemma SeqGapAsDocumentedIff(last: u32, cur: u32)
    ensures (SeqGap(last, cur) <==> cur != Successor(last)) <==> cur != last
  {
  }

  /** Tiny and oversized buffers are noise. */
  predicate Passes(d: Done) {
    d.queue != 0 && (d.bytes == 0 || MIN_BYTES <= d.bytes <= MAX_BYTES)
  }

  function NextState(st: QState, d: Done): QState {
    QState((st.doneCount + 1) % TWO32, d.now,
           if d.seqNo.Some? then d.seqNo.value else st.lastSeq, st.haveLastSeq || d.seqNo.Some?)
  }

  function EventOf(st: QState, d: Done): Event {
    Event(d.queue,
          if d.seqNo.Some? then d.seqNo.value else (st.doneCount + 1) % TWO32,
          d.seqNo.Some? && st.haveLastSeq && SeqGap(st.lastSeq, d.seqNo.value),
          if st.lastDone != 0 then Trunc32(Sub64(d.now, st.lastDone)) else 0)
  }

  type Queues = map<nat, QState>

  function StateIn(m: Queues, q: nat): QState {
    if q in m then m[q] else NEW_QUEUE
  }

  /** The buffer leaves a trace: it passes the filter, and its queue has a state or finds room for one. */
  predicate Admits(m: Queues, d: Done) {
    Passes(d) && (d.queue in m || |m| < MAX_QUEUES)
  }

  function StepQueues(m: Queues, d: Done): Queues {
    if Admits(m, d) then m[d.queue := NextState(StateIn(m, d.queue), d)] else m
  }

  function StepEvents(m: Queues, d: Done): seq<Event> {
    if Admits(m, d) then [EventOf(StateIn(m, d.queue), d)] else []
  }

  class Tracker {
    var queues: Queues
    /** The events written so far. */
    var out: seq<Event>

    constructor ()
      ensures queues == map[] && out == []
    {
      queues, out := map[], [];
    }

    /** A completed buffer steps its own queue only; one that is filtered out, or a new queue when the table
        is full, leaves no trace. */
    method EmitDone(d: Done)
      modifies this
      ensures queues == StepQueues(old(queues), d) && out == old(out) + StepEvents(old(queues), d)
    {
      if d.bytes != 0 && (d.bytes < MIN_BYTES || d.bytes > MAX_BYTES) {
        return;
      }
      if d.queue == 0 {
        return;
      }
      if d.queue !in queues && |queues| >= MAX_QUEUES {
        return;
      }
      var st := StateIn(queues, d.queue);
      st := st.(doneCount := (st.doneCount + 1) % TWO32);
      var gap := false;
      var no := st.doneCount;
      if d.seqNo.Some? {
        no := d.seqNo.value;
        if st.haveLastSeq {
          gap := SeqGap(st.lastSeq, no);
        }
        st := st.(lastSeq := no, haveLastSeq := true);
      }
      var interval: u32 := 0;
      if st.lastDone != 0 {
        interval := Trunc32(Sub64(d.now, st.lastDone));
      }
      st := st.(lastDone := d.now);
      queues := queues[d.queue := st];
      out := out + [Event(d.queue, no, gap, interval)];
    }
  }

  // ---- one queue over a run ----

  datatype Run = Run(st: QState, out: seq<Event>)

  /** The done events of one queue that pass the filter, from its first. */
  function RunDone(ds: seq<Done>): Run {
    if ds == [] then Run(NEW_QUEUE, [])
    else
      var r := RunDone(ds[..|ds| - 1]);
      Run(NextState(r.st, ds[|ds| - 1]), r.out + [EventOf(r.st, ds[|ds| - 1])])
  }

  /** The kernel sequence numbers seen, in order. */
  function Numbers(ds: seq<Done>): seq<u32> {
    if ds == [] then []
    else if ds[|ds| - 1].seqNo.Some? then Numbers(ds[..|ds| - 1]) + [ds[|ds| - 1].seqNo.value]
    else Numbers(ds[..|ds| - 1])
  }

  /** Steps at which the number moves on. */
  function Advances(ns: seq<u32>): nat {
    if |ns| < 2 then 0
    else Advances(ns[..|ns| - 1]) + if ns[|ns| - 1] != ns[|ns| - 2] then 1 else 0
  }

  ghost predicate NoGap(out: seq<Event>) {
    forall j :: 0 <= j < |out| ==> !out[j].seqGap
  }

  /** The number stays, or moves on by one modulo 2^32. */
  predicate Follows(last: u32, cur: u32) {
    cur == last || cur == Successor(last)
  }

  ghost predicate Smooth(ns: seq<u32>) {
    forall i :: 0 <= i < |ns| - 1 ==> Follows(ns[i], ns[i + 1])
  }

  /** A gap is flagged exactly when some number neither repeats nor follows its predecessor. */
  lemma {:induction false} OneQueueGaps(ds: seq<Done>)
    ensures var r, ns := RunDone(ds), Numbers(ds);
      && (r.st.haveLastSeq <==> ns != []) && (ns != [] ==> r.st.lastSeq == ns[|ns| - 1])
      && (NoGap(r.out) <==> Smooth(ns))
  {
    if ds != [] {
      var p, d := ds[..|ds| - 1], ds[|ds| - 1];
      OneQueueGaps(p);
      NoGapAppend(RunDone(p).out, EventOf(RunDone(p).st, d));
      if d.seqNo.Some? {
        StepsAppend(Numbers(p), d.seqNo.value);
      }
    }
  }

  lemma NoGapAppend(out: seq<Event>, e: Event)
    ensures NoGap(out + [e]) <==> NoGap(out) && !e.seqGap
  {
    var t := out + [e];
    if NoGap(t) {
      assert t[|out|] == e;
      assert forall j :: 0 <= j < |out| ==> out[j] == t[j];
    }
  }

  lemma StepsAppend(ns: seq<u32>, x: u32)
    ensures Smooth(ns + [x]) <==> (Smooth(ns) && (ns != [] ==> Follows(ns[|ns| - 1], x)))
  {
    var t := ns + [x];
    if Smooth(t) {
      forall i | 0 <= i < |ns| - 1 ensures Follows(ns[i], ns[i + 1]) {
        assert Follows(t[i], t[i + 1]);
      }
      assert ns != [] ==> Follows(t[|ns| - 1], t[|ns| - 1 + 1]);
    }
  }

  /** The number reached after `d` advances from `first`. */
  function After(first: u32, d: nat): u32 {
    (first + d) % TWO32
  }

  lemma AfterNext(first: u32, d: nat)
    ensures Successor(After(first, d)) == After(first, d + 1)
  {
  }

  /** A smooth sequence visits every number on its way. */
  lemma {:induction false} GapFreeVisitsAll(ns: seq<u32>)
    requires ns != [] && Smooth(ns)
    ensures ns[|ns| - 1] == After(ns[0], Advances(ns))
    ensures forall d :: 0 <= d <= Advances(ns) ==> After(ns[0], d) in ns
  {
    if |ns| == 1 {
      assert After(ns[0], 0) == ns[0];
    } else {
      var p, last := ns[..|ns| - 1], ns[|ns| - 1];
      GapFreeVisitsAll(p);
      AfterNext(ns[0], Advances(p));
      assert Follows(ns[|ns| - 2], ns[|ns| - 2 + 1]);
      assert last in ns;
      forall d | 0 <= d <= Advances(ns) ensures After(ns[0], d) in ns {
        if d <= Advances(p) {
          assert After(p[0], d) in p;
        }
      }
    }
  }

  // ---- the tracker over a run of all queues ----

  datatype Trace = Trace(queues: Queues, out: seq<Event>)

  /** What the tracker holds and has written after the completed buffers `ds`, of whatever queues. */
  function RunTracker(ds: seq<Done>): Trace {
    if ds == [] then Trace(map[], [])
    else
      var r := RunTracker(ds[..|ds| - 1]);
      Trace(StepQueues(r.queues, ds[|ds| - 1]), r.out + StepEvents(r.queues, ds[|ds| - 1]))
  }

  /** The buffers of queue `q` that pass the filter. */
  function Own(ds: seq<Done>, q: nat): seq<Done> {
    if ds == [] then []
    else
      var p, d := Own(ds[..|ds| - 1], q), ds[|ds| - 1];
      if Passes(d) && d.queue == q then p + [d] else p
  }

  function OfQueue(out: seq<Event>, q: nat): seq<Event> {
    if out == [] then []
    else
      var p, e := OfQueue(out[..|out| - 1], q), out[|out| - 1];
      if e.queue == q then p + [e] else p
  }

  lemma OfQueueAppend(out: seq<Event>, e: Event, q: nat)
    ensures OfQueue(out + [e], q) == if e.queue == q then OfQueue(out, q) + [e] else OfQueue(out, q)
  {
    assert (out + [e])[..|out|] == out;
  }

  ghost predicate QueueIs(r: Trace, own: seq<Done>, q: nat) {
    if q in r.queues
    then own != [] && RunDone(own) == Run(r.queues[q], OfQueue(r.out, q))
    else OfQueue(r.out, q) == [] && (own == [] || |r.queues| >= 64)
  }

  /** A queue is tracked from its first buffer that passes the filter, or never because the table was full
      by then. A tracked queue is unaffected by all others: its state and its events are those of its own
      buffers alone. */
  lemma {:induction false} QueueRun(ds: seq<Done>, q: nat)
    ensures QueueIs(RunTracker(ds), Own(ds, q), q)
  {
    if ds != [] {
      var p, d := ds[..|ds| - 1], ds[|ds| - 1];
      QueueRun(p, q);
      QueueStep(RunTracker(p), Own(p, q), d, q);
      hide QueueIs, StepQueues, StepEvents;
    }
  }

  lemma QueueStep(r: Trace, own: seq<Done>, d: Done, q: nat)
    requires QueueIs(r, own, q)
    ensures QueueIs(Trace(StepQueues(r.queues, d), r.out + StepEvents(r.queues, d)),
                    if Passes(d) && d.queue == q then own + [d] else own, q)
  {
    if Admits(r.queues, d) {
      OfQueueAppend(r.out, EventOf(StateIn(r.queues, d.queue), d), q);
      OwnNext(own, d);
      hide EventOf, NextState, OfQueue, RunDone;
      if d.queue == q && q !in r.queues {
        assert own == [] && RunDone([]) == Run(NEW_QUEUE, []) by { FirstRun(); }
      }
    } else {
      assert r.out + [] == r.out;
    }
  }

  lemma FirstRun()
    ensures RunDone([]) == Run(NEW_QUEUE, [])
  {
  }

  lemma OwnNext(own: seq<Done>, d: Done)
    ensures RunDone(own + [d]) == Run(NextState(RunDone(own).st, d), RunDone(own).out + [EventOf(RunDone(own).st, d)])
  {
    assert (own + [d])[..|own|] == own;
  }

  /** The queues seen so far. */
  ghost function Seen(ds: seq<Done>): set<nat> {
    set i | 0 <= i < |ds| && Passes(ds[i]) :: ds[i].queue
  }

  lemma SeenGrows(ds: seq<Done>)
    requires ds != []
    ensures var p, d := ds[..|ds| - 1], ds[|ds| - 1];
      Seen(ds) == Seen(p) + if Passes(d) then {d.queue} else {}
  {
    var p, d := ds[..|ds| - 1], ds[|ds| - 1];
    assert ds == p + [d];
    assert forall i :: 0 <= i < |p| ==> p[i] == ds[i];
  }

  lemma {:induction false} SeenIsOwn(ds: seq<Done>, q: nat)
    ensures q in Seen(ds) <==> Own(ds, q) != []
  {
    if ds != [] {
      SeenGrows(ds);
      SeenIsOwn(ds[..|ds| - 1], q);
    }
  }

  /** With at most 64 queues every one of them is tracked. */
  lemma AllTracked(ds: seq<Done>)
    requires |Seen(ds)| <= 64
    ensures RunTracker(ds).queues.Keys == Seen(ds)
  {
    var m := RunTracker(ds).queues;
    assert |m| == |m.Keys|;
    forall q: nat ensures q in m.Keys ==> q in Seen(ds) {
      QueueRun(ds, q);
      SeenIsOwn(ds, q);
    }
    forall q: nat | q in Seen(ds) ensures q in m.Keys {
      QueueRun(ds, q);
      SeenIsOwn(ds, q);
      if q !in m {
        SubsetSize(m.Keys, Seen(ds) - {q});
      }
    }
  }

  /** For every tracked queue, no gap is flagged exactly when each known number repeats or follows the one
      before. */
  lemma GapIffJump(ds: seq<Done>, q: nat)
    requires q in RunTracker(ds).queues
    ensures NoGap(OfQueue(RunTracker(ds).out, q)) <==> Smooth(Numbers(Own(ds, q)))
  {
    QueueRun(ds, q);
    OneQueueGaps(Own(ds, q));
  }

  /** Gap-free runs lose nothing, for every tracked queue whatever the others do: if none of its events flags
      a gap, every number from its first to its last was visited, and the last is the first plus the number
      of advances, modulo 2^32. */
  lemma GapFreeRunLosesNothing(ds: seq<Done>, q: nat)
    requires q in RunTracker(ds).queues && NoGap(OfQueue(RunTracker(ds).out, q)) && Numbers(Own(ds, q)) != []
    ensures var ns := Numbers(Own(ds, q));
      && ns[|ns| - 1] == After(ns[0], Advances(ns))
      && forall d :: 0 <= d <= Advances(ns) ==> After(ns[0], d) in ns
  {
    GapIffJump(ds, q);
    GapFreeVisitsAll(Numbers(Own(ds, q)));
  }

  // ---- what the events of a queue say ----

  /** A buffer of the queue that is empty or between 100 kB and 32 MiB. */
  predicate Belongs(d: Done, q: nat) {
    d.queue == q != 0 && (d.bytes == 0 || 100_000 <= d.bytes <= 0x200_0000)
  }

  /** `own` lists the buffers that belong to the queue, in order and once each. */
  ghost predicate Lists(ds: seq<Done>, q: nat, own: seq<Done>, idx: seq<nat>) {
    && |idx| == |own| && Increasing(idx)
    && (forall a :: 0 <= a < |idx| ==> idx[a] < |ds| && own[a] == ds[idx[a]])
    && (forall i: nat :: i in idx <==> i < |ds| && Belongs(ds[i], q))
  }

  lemma ListsNext(ds: seq<Done>, d: Done, q: nat, own: seq<Done>, idx: seq<nat>)
    requires Lists(ds, q, own, idx)
    ensures if Belongs(d, q) then Lists(ds + [d], q, own + [d], idx + [|ds|]) else Lists(ds + [d], q, own, idx)
  {
    hide Belongs;
    assert forall i: nat :: i in idx + [|ds|] <==> i in idx || i == |ds|;
  }

  /** Which buffers are a queue's own. */
  lemma {:induction false} OwnSelects(ds: seq<Done>, q: nat) returns (idx: seq<nat>)
    ensures Lists(ds, q, Own(ds, q), idx)
  {
    if ds == [] {
      idx := [];
    } else {
      var p, d := ds[..|ds| - 1], ds[|ds| - 1];
      idx := OwnSelects(p, q);
      ListsNext(p, d, q, Own(p, q), idx);
      assert ds == p + [d];
      assert Passes(d) && d.queue == q <==> Belongs(d, q);
      hide Lists, Belongs, Passes;
      if Belongs(d, q) {
        idx := idx + [|p|];
      }
    }
  }

  /** The events of one queue's buffers: each numbered by the kernel, or by its place among the queue's buffers when
      the kernel's number is not known, with the time since the buffer before. */
  ghost predicate EventIs(ds: seq<Done>, out: seq<Event>, j: nat)
    requires j < |ds| == |out|
  {
    && out[j].queue == ds[j].queue
    && out[j].seqNo == (if ds[j].seqNo.Some? then ds[j].seqNo.value else (j + 1) % TWO32)
    && out[j].interval == if j == 0 || ds[j - 1].now == 0 then 0 else Trunc32(Sub64(ds[j].now, ds[j - 1].now))
  }

  lemma {:induction false} OneQueueEvents(ds: seq<Done>)
    ensures var r := RunDone(ds);
      && |r.out| == |ds| && (forall j :: 0 <= j < |ds| ==> EventIs(ds, r.out, j))
      && r.st.doneCount == |ds| % TWO32 && r.st.lastDone == if ds == [] then 0 else ds[|ds| - 1].now
  {
    if ds != [] {
      var p, d := ds[..|ds| - 1], ds[|ds| - 1];
      OneQueueEvents(p);
      OrdinalNext(|p|);
      var out := RunDone(ds).out;
      forall j | 0 <= j < |ds| ensures EventIs(ds, out, j) {
        if j < |p| {
          assert EventIs(p, RunDone(p).out, j);
        }
      }
    }
  }

  lemma OrdinalNext(n: nat)
    ensures (n % TWO32 + 1) % TWO32 == (n + 1) % TWO32
  {
  }

  function SumIntervals(out: seq<Event>): nat {
    if out == [] then 0 else SumIntervals(out[..|out| - 1]) + out[|out| - 1].interval
  }

  /** Completion times are positive, do not go back, and are less than 2^32 ns apart. */
  ghost predicate Paced(ds: seq<Done>) {
    && (forall j :: 0 <= j < |ds| ==> 0 < ds[j].now)
    && forall j :: 1 <= j < |ds| ==> 0 <= ds[j].now - ds[j - 1].now < TWO32
  }

  lemma {:induction false} OneQueueTelescopes(ds: seq<Done>)
    requires Paced(ds) && ds != []
    ensures SumIntervals(RunDone(ds).out) == ds[|ds| - 1].now - ds[0].now
  {
    OneQueueEvents(ds);
    SumOfDifferences(ds, RunDone(ds).out);
  }

  lemma {:induction false} SumOfDifferences(ds: seq<Done>, out: seq<Event>)
    requires Paced(ds) && ds != [] && |ds| == |out| && forall j :: 0 <= j < |ds| ==> EventIs(ds, out, j)
    ensures SumIntervals(out) == ds[|ds| - 1].now - ds[0].now
  {
    var n := |ds| - 1;
    var p, q := ds[..n], out[..n];
    assert EventIs(ds, out, n);
    if n > 0 {
      forall j | 0 <= j < n ensures EventIs(p, q, j) {
        assert EventIs(ds, out, j);
      }
      hide EventIs;
      SumOfDifferences(p, q);
    } else {
      assert SumIntervals(q) == 0;
    }
  }

  /** In any run, for every tracked queue: its events are numbered and timed as its own buffers say. */
  lemma QueueEvents(ds: seq<Done>, q: nat, j: nat)
    requires q in RunTracker(ds).queues && j < |Own(ds, q)|
    ensures |OfQueue(RunTracker(ds).out, q)| == |Own(ds, q)| && EventIs(Own(ds, q), OfQueue(RunTracker(ds).out, q), j)
  {
    QueueRun(ds, q);
    OneQueueEvents(Own(ds, q));
  }

  /** And its intervals telescope: they add up to its last completion minus its first. */
  lemma QueueIntervalsTelescope(ds: seq<Done>, q: nat)
    requires q in RunTracker(ds).queues && Paced(Own(ds, q))
    ensures var own := Own(ds, q);
      own != [] && SumIntervals(OfQueue(RunTracker(ds).out, q)) == own[|own| - 1].now - own[0].now
  {
    QueueRun(ds, q);
    OneQueueTelescopes(Own(ds, q));
  }
}
