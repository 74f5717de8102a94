/** Pairing of URB submissions with their completions through a bounded map of submit times. */
module UrbPairing {
  import opened Base

  const MAX_URBS: nat := 16384
  const XFER_CONTROL: bv32 := 2

  function PipeType(pipe: bv32): bv32 {
    (pipe >> 30) & 0x3
  }

  /** A URB as the probes read it; `ptr` is its address, zero for a null pointer. */
  datatype Urb = Urb(ptr: nat, vid: nat, pid: nat, pipe: bv32)

  datatype Config = Config(filterVid: nat, filterPid: nat, emitSubmit: bool, ctrlOnly: bool)
  {
    predicate PassesKind(u: Urb) {
      ctrlOnly ==> PipeType(u.pipe) == XFER_CONTROL
    }

    predicate PassesFilter(u: Urb) {
      (filterVid == 0 || u.vid == filterVid) && (filterPid == 0 || u.pid == filterPid)
    }

    /** Submissions that are stamped. */
    predicate Tracks(u: Urb) {
      u.ptr != 0 && PassesKind(u) && PassesFilter(u)
    }
  }

  datatype Record = Record(ptr: nat, isSubmit: bool, ts: u64, latency: u64, status: int)

  datatype Call = Submit(u: Urb, ts: u64) | Giveback(u: Urb, status: int, ts: u64)

  // ---- the value machine ----

  function StepMap(cfg: Config, m: map<nat, u64>, c: Call): map<nat, u64> {
    match c
    case Submit(u, ts) => if cfg.Tracks(u) then MapUpdate(m, MAX_URBS, u.ptr, ts) else m
    case Giveback(u, _, _) => m - {u.ptr}
  }

  function StepOut(cfg: Config, m: map<nat, u64>, c: Call): seq<Record> {
    match c
    case Submit(u, ts) => if cfg.Tracks(u) && cfg.emitSubmit then [Record(u.ptr, true, ts, 0, 0)] else []
    case Giveback(u, status, ts) =>
      if cfg.Tracks(u)
      then [Record(u.ptr, false, ts, if u.ptr in m then Sub64(ts, m[u.ptr]) else 0, status)] else []
  }

  function MapAt(cfg: Config, cs: seq<Call>, n: nat): map<nat, u64>
    requires n <= |cs|
  {
    if n == 0 then map[] else StepMap(cfg, MapAt(cfg, cs, n - 1), cs[n - 1])
  }

  class Tracker {
    const cfg: Config
    var startTs: map<nat, u64>
    /** The records written so far. */
    var out: seq<Record>

    constructor (c: Config)
      ensures Valid() && cfg == c && startTs == map[] && out == []
    {
      cfg, startTs, out := c, map[], [];
    }

    /** A null URB is never stamped. */
    ghost predicate Valid()
      reads this
    {
      0 !in startTs
    }

    method OnSubmit(u: Urb, ts: u64)
      requires Valid()
      modifies this
      ensures Valid()
      ensures startTs == StepMap(cfg, old(startTs), Submit(u, ts))
      ensures out == old(out) + StepOut(cfg, old(startTs), Submit(u, ts))
    {
      if u.ptr == 0 {
        return;
      }
      if cfg.ctrlOnly && PipeType(u.pipe) != XFER_CONTROL {
        return;
      }
      if !cfg.PassesFilter(u) {
        return;
      }
      if u.ptr in startTs || |startTs| < MAX_URBS {
        startTs := startTs[u.ptr := ts];
      }
      if !cfg.emitSubmit {
        return;
      }
      out := out + [Record(u.ptr, true, ts, 0, 0)];
    }

    method OnGiveback(u: Urb, status: int, ts: u64)
      requires Valid()
      modifies this
      ensures Valid()
      ensures startTs == StepMap(cfg, old(startTs), Giveback(u, status, ts))
      ensures out == old(out) + StepOut(cfg, old(startTs), Giveback(u, status, ts))
    {
      if u.ptr == 0 {
        return;
      }
      if cfg.ctrlOnly && PipeType(u.pipe) != XFER_CONTROL {
        startTs := startTs - {u.ptr};
        return;
      }
      if !cfg.PassesFilter(u) {
        if u.ptr in startTs {
          startTs := startTs - {u.ptr};
        }
        return;
      }
      var latency := 0;
      if u.ptr in startTs {
        latency := Sub64(ts, startTs[u.ptr]);
      }
      out := out + [Record(u.ptr, false, ts, latency, status)];
      if u.ptr in startTs {
        startTs := startTs - {u.ptr};
      }
    }
  }

  // ---- the trace's own view ----

  /** The time of the latest stamped submission of URB `p` among the first `n` calls, unless a completion
      of `p` came after it. */
  function LastSubmit(cfg: Config, cs: seq<Call>, n: nat, p: nat): Option<u64>
    requires n <= |cs|
  {
    if n == 0 then None
    else
      match cs[n - 1]
      case Submit(u, ts) => if u.ptr == p && cfg.Tracks(u) then Some(ts) else LastSubmit(cfg, cs, n - 1, p)
      case Giveback(u, _, _) => if u.ptr == p then None else LastSubmit(cfg, cs, n - 1, p)
  }

  /** `LastSubmit` is the submission it claims to be. */
  lemma {:induction false} LastSubmitIsLatest(cfg: Config, cs: seq<Call>, n: nat, p: nat) returns (i: nat)
    requires n <= |cs|
    ensures LastSubmit(cfg, cs, n, p).Some? ==>
      && i < n && cs[i].Submit? && cs[i].u.ptr == p && cfg.Tracks(cs[i].u)
      && LastSubmit(cfg, cs, n, p) == Some(cs[i].ts)
      && forall j :: i < j < n && cs[j].u.ptr == p ==> cs[j].Submit? && !cfg.Tracks(cs[j].u)
    ensures LastSubmit(cfg, cs, n, p).None? ==>
      forall j :: 0 <= j < n && cs[j].Submit? && cs[j].u.ptr == p && cfg.Tracks(cs[j].u) ==>
        exists g :: j < g < n && cs[g].Giveback? && cs[g].u.ptr == p
  {
    i := 0;
    if n > 0 {
      i := LastSubmitIsLatest(cfg, cs, n - 1, p);
      if cs[n - 1].Submit? && cs[n - 1].u.ptr == p && cfg.Tracks(cs[n - 1].u) {
        i := n - 1;
      }
    }
  }

  /** A stamp is never wrong, even when the map overflows: it is the latest submission of its URB since the
      URB's last completion. */
  lemma {:induction false} StampsAreLatest(cfg: Config, cs: seq<Call>, n: nat)
    requires n <= |cs|
    ensures 0 !in MapAt(cfg, cs, n)
    ensures forall p :: p in MapAt(cfg, cs, n) ==> LastSubmit(cfg, cs, n, p) == Some(MapAt(cfg, cs, n)[p])
  {
    if n > 0 {
      StampsAreLatest(cfg, cs, n - 1);
    }
  }

  /** URBs submitted, stamped and not given back. */
  ghost function Outstanding(cfg: Config, cs: seq<Call>, n: nat): set<nat>
    requires n <= |cs|
  {
    set i | 0 <= i < n && cs[i].Submit? && LastSubmit(cfg, cs, n, cs[i].u.ptr).Some? :: cs[i].u.ptr
  }

  lemma OutstandingIs(cfg: Config, cs: seq<Call>, n: nat, p: nat)
    requires n <= |cs|
    ensures p in Outstanding(cfg, cs, n) <==> LastSubmit(cfg, cs, n, p).Some?
  {
    var i := LastSubmitIsLatest(cfg, cs, n, p);
  }

  lemma OutstandingGrows(cfg: Config, cs: seq<Call>, n: nat)
    requires n < |cs|
    ensures Outstanding(cfg, cs, n + 1) ==
      match cs[n]
      case Submit(u, ts) => if cfg.Tracks(u) then Outstanding(cfg, cs, n) + {u.ptr} else Outstanding(cfg, cs, n)
      case Giveback(u, _, _) => Outstanding(cfg, cs, n) - {u.ptr}
  {
    var was, next := Outstanding(cfg, cs, n), Outstanding(cfg, cs, n + 1);
    forall p ensures p in next <==> LastSubmit(cfg, cs, n + 1, p).Some? {
      OutstandingIs(cfg, cs, n + 1, p);
    }
    forall p ensures p in was <==> LastSubmit(cfg, cs, n, p).Some? {
      OutstandingIs(cfg, cs, n, p);
    }
  }

  ghost predicate Fits(cfg: Config, cs: seq<Call>, n: nat)
    requires n <= |cs|
  {
    |Outstanding(cfg, cs, n)| <= 16384
  }

  ghost predicate WithinCapacity(cfg: Config, cs: seq<Call>) {
    forall n :: 0 <= n <= |cs| ==> Fits(cfg, cs, n)
  }

  ghost predicate InStep(cfg: Config, cs: seq<Call>, n: nat)
    requires n <= |cs|
  {
    MapAt(cfg, cs, n).Keys == Outstanding(cfg, cs, n)
  }

  lemma KeysStep(cfg: Config, m: map<nat, u64>, c: Call, before: set<nat>, after: set<nat>)
    requires m.Keys == before && |after| <= MAX_URBS
    requires after == match c
      case Submit(u, ts) => if cfg.Tracks(u) then before + {u.ptr} else before
      case Giveback(u, _, _) => before - {u.ptr}
    ensures StepMap(cfg, m, c).Keys == after
  {
    if c.Submit? && cfg.Tracks(c.u) && c.u.ptr !in before {
      assert |before + {c.u.ptr}| == |before| + 1 && |m| == |m.Keys|;
    }
  }

  lemma DomainStep(cfg: Config, cs: seq<Call>, n: nat)
    requires n < |cs| && InStep(cfg, cs, n) && Fits(cfg, cs, n + 1)
    ensures InStep(cfg, cs, n + 1)
  {
    OutstandingGrows(cfg, cs, n);
    KeysStep(cfg, MapAt(cfg, cs, n), cs[n], Outstanding(cfg, cs, n), Outstanding(cfg, cs, n + 1));
  }

  lemma NoneOutstanding(cfg: Config, cs: seq<Call>)
    ensures InStep(cfg, cs, 0)
  {
    assert Outstanding(cfg, cs, 0) == {} && MapAt(cfg, cs, 0).Keys == {};
  }

  /** While no more than the map's capacity is in flight, its keys are exactly the URBs in flight. */
  lemma {:induction false} DomainIsOutstanding(cfg: Config, cs: seq<Call>, n: nat)
    requires n <= |cs| && WithinCapacity(cfg, cs)
    ensures InStep(cfg, cs, n)
  {
    hide Fits, InStep, Outstanding, MapAt;
    if n == 0 {
      NoneOutstanding(cfg, cs);
    } else {
      DomainIsOutstanding(cfg, cs, n - 1);
      DomainStep(cfg, cs, n - 1);
    }
  }

  /** Pairing: a reported completion's latency is its time minus the latest stamped submission of the URB
      since its previous completion, zero when there is none. */
  lemma CompletionLatency(cfg: Config, cs: seq<Call>, n: nat)
    requires n < |cs| && cs[n].Giveback? && cfg.Tracks(cs[n].u) && WithinCapacity(cfg, cs)
    ensures var s := LastSubmit(cfg, cs, n, cs[n].u.ptr);
      StepOut(cfg, MapAt(cfg, cs, n), cs[n])
      == [Record(cs[n].u.ptr, false, cs[n].ts, if s.Some? then Sub64(cs[n].ts, s.value) else 0, cs[n].status)]
  {
    StampsAreLatest(cfg, cs, n);
    DomainIsOutstanding(cfg, cs, n);
    OutstandingIs(cfg, cs, n, cs[n].u.ptr);
  }

  /** Each stamp is used at most once: between two completions of a URB that both find a stamp there is a
      stamped submission, and it is the one the second completion uses. */
  lemma StampUsedOnce(cfg: Config, cs: seq<Call>, m: nat, n: nat) returns (i: nat)
    requires m < n < |cs| && cs[m].Giveback? && cs[n].Giveback? && cs[m].u.ptr == cs[n].u.ptr
    requires cs[n].u.ptr in MapAt(cfg, cs, n)
    ensures m < i < n && cs[i].Submit? && cs[i].u.ptr == cs[n].u.ptr
    ensures MapAt(cfg, cs, n)[cs[n].u.ptr] == cs[i].ts
  {
    StampsAreLatest(cfg, cs, n);
    i := LastSubmitIsLatest(cfg, cs, n, cs[n].u.ptr);
  }

  // ---- which calls are recorded ----

  /** All records written over a run. */
  function AllRecords(cfg: Config, cs: seq<Call>, n: nat): seq<Record>
    requires n <= |cs|
  {
    if n == 0 then [] else AllRecords(cfg, cs, n - 1) + StepOut(cfg, MapAt(cfg, cs, n - 1), cs[n - 1])
  }

  /** A call the configuration asks for: of a URB of the device it names, if it names one; of a control pipe, if it
      asks for those only; and a completion, unless it asks for submissions. */
  predicate Wanted(cfg: Config, c: Call) {
    && c.u.ptr != 0
    && (cfg.filterVid != 0 ==> c.u.vid == cfg.filterVid) && (cfg.filterPid != 0 ==> c.u.pid == cfg.filterPid)
    && (cfg.ctrlOnly ==> c.u.pipe & 0xC000_0000 == 0x8000_0000)
    && (c.Submit? ==> cfg.emitSubmit)
  }

  /** The type of a pipe is in its two upper bits, and control is two. */
  lemma ControlPipes(pipe: bv32)
    ensures PipeType(pipe) == XFER_CONTROL <==> pipe & 0xC000_0000 == 0x8000_0000
  {
  }

  /** What a record says of its call. */
  predicate RecordIs(r: Record, c: Call) {
    && r.ptr == c.u.ptr && r.isSubmit == c.Submit? && r.ts == c.ts
    && (c.Giveback? ==> r.status == c.status) && (c.Submit? ==> r.latency == 0)
  }

  /** The records are those of the calls asked for among the first `n`, in order and once each. */
  ghost predicate Lists(cfg: Config, cs: seq<Call>, n: nat, out: seq<Record>, idx: seq<nat>) {
    && |idx| == |out| && Increasing(idx) && n <= |cs|
    && (forall a :: 0 <= a < |idx| ==> idx[a] < n && RecordIs(out[a], cs[idx[a]]))
    && (forall i: nat :: i in idx <==> i < n && Wanted(cfg, cs[i]))
  }

  lemma ListsOneMore(cfg: Config, cs: seq<Call>, n: nat, out: seq<Record>, idx: seq<nat>, r: Record)
    requires Lists(cfg, cs, n, out, idx) && n < |cs| && Wanted(cfg, cs[n]) && RecordIs(r, cs[n])
    ensures Lists(cfg, cs, n + 1, out + [r], idx + [n])
  {
    hide Wanted, RecordIs;
    assert forall i: nat :: i in idx + [n] <==> i in idx || i == n;
  }

  lemma StepRecords(cfg: Config, m: map<nat, u64>, c: Call)
    ensures var out := StepOut(cfg, m, c);
      if Wanted(cfg, c) then |out| == 1 && RecordIs(out[0], c) else out == []
  {
    ControlPipes(c.u.pipe);
    hide PipeType;
  }

  /** Over a run the records are exactly the calls asked for, in order and once each: of the same URB, marked as
      what they are, at the time of the call, and with the status of a completion. */
  lemma {:induction false} RecordsSelect(cfg: Config, cs: seq<Call>, n: nat) returns (idx: seq<nat>)
    requires n <= |cs|
    ensures Lists(cfg, cs, n, AllRecords(cfg, cs, n), idx)
  {
    if n == 0 {
      idx := [];
    } else {
      idx := RecordsSelect(cfg, cs, n - 1);
      var was, out := AllRecords(cfg, cs, n - 1), StepOut(cfg, MapAt(cfg, cs, n - 1), cs[n - 1]);
      StepRecords(cfg, MapAt(cfg, cs, n - 1), cs[n - 1]);
      hide Wanted, RecordIs, StepOut, MapAt;
      if Wanted(cfg, cs[n - 1]) {
        ListsOneMore(cfg, cs, n - 1, was, idx, out[0]);
        assert was + out == was + [out[0]];
        idx := idx + [n - 1];
      } else {
        assert was + [] == was;
      }
    }
  }
}
