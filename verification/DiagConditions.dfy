/** What a condition says about the events it selects, clause by clause and in plain arithmetic: its kind, its
    field comparisons, its statuses, its lookback, its count and its span. */
module DiagConditions {
  import opened Base
  import opened DiagTypes
  import opened DiagQuery
  import opened DiagDevice

  /** A condition that asks for nothing. */
  const ANY := Cond(None, [], [], None, None, None, None)

  // ---- comparisons ----

  /** The order of the operators: `>=` holds from its threshold upwards and no lower, `<=` from its threshold
      downwards and no higher, both hold at the threshold alone, which is where `==` holds and `!=` fails. */
  lemma OperatorLaws(field: Field, t: int, v: int)
    ensures var ge, le := Match(field, t, OP_GTE), Match(field, t, OP_LTE);
      var eq, ne := Match(field, t, OP_EQ), Match(field, t, OP_NE);
      && MatchOne(ge, t) && !MatchOne(ge, t - 1) && (forall w :: MatchOne(ge, v) && v <= w ==> MatchOne(ge, w))
      && MatchOne(le, t) && !MatchOne(le, t + 1) && (forall w :: MatchOne(le, v) && w <= v ==> MatchOne(le, w))
      && (MatchOne(ge, v) && MatchOne(le, v) <==> MatchOne(eq, v))
      && (MatchOne(eq, v) <==> v == t) && (MatchOne(ne, v) <==> !MatchOne(eq, v))
  {
  }

  predicate Compares(op: Op, v: int, t: int) {
    if op == OP_EQ then v == t else if op == OP_NE then v != t else if op == OP_GTE then v >= t else v <= t
  }

  /** The named fields are told apart: writing one component of an event changes the field of that name and no
      other. */
  lemma NamedFields(e: Event, f: Field, v: nat, x: int, name: nat)
    ensures FieldVal(e.(kind := v), f) == if f == F_KIND then v else FieldVal(e, f)
    ensures FieldVal(e.(status := x), f) == if f == F_STATUS then x else FieldVal(e, f)
    ensures FieldVal(e.(action := v), f) == if f == F_ACTION then v else FieldVal(e, f)
    ensures FieldVal(e.(newState := v), f) == if f == F_NEW_STATE then v else FieldVal(e, f)
    ensures FieldVal(e.(step := v), f) == if f == F_STEP then v else FieldVal(e, f)
    ensures e.hasSetup ==> FieldVal(e.(brequest := v), f) == if f == F_BREQUEST then v else FieldVal(e, f)
    ensures e.hasSetup ==> FieldVal(e.(wvalue := v), f) == if f == F_WVALUE then v else FieldVal(e, f)
    ensures FieldVal(e.(hasSetup := false), f) == if f == F_BREQUEST || f == F_WVALUE then -1 else FieldVal(e, f)
    ensures FieldVal(e.(plain := e.plain[name := x]), f) == if f == F_PLAIN(name) then x else FieldVal(e, f)
    ensures name !in e.plain ==> FieldVal(e, F_PLAIN(name)) == 0
  {
  }

  /** The clauses of a condition are a conjunction: one more clause selects, of what was selected before, exactly
      the events that meet it; and without clauses everything is selected. */
  lemma ClausesAreConjunction(c: Cond, e: Event, kind: nat, field: Field, t: int, op: Op, statuses: seq<int>)
    ensures CondPred(ANY, e)
    ensures c.kind.None? ==> (CondPred(c.(kind := Some(kind)), e) <==> e.kind == kind && CondPred(c, e))
    ensures CondPred(c.(matches := c.matches + [Match(field, t, op)]), e)
       <==> Compares(op, FieldVal(e, field), t) && CondPred(c, e)
    ensures c.statusIn == [] && statuses != [] ==>
      (CondPred(c.(statusIn := statuses), e) <==> e.status in statuses && CondPred(c, e))
    ensures TriggerMatch(c, e) <==> CondPred(c.(statusIn := []), e)
  {
    var ms := c.matches + [Match(field, t, op)];
    assert ms[|c.matches|] == Match(field, t, op);
    assert forall i :: 0 <= i < |c.matches| ==> ms[i] == c.matches[i];
  }

  /** A trigger on one field is a comparison with its threshold: it carries over from one event to another as
      the operators say. For a frame interval of at least 66 ms, a slower frame matches whenever a faster one
      does, a frame of exactly 66 ms matches, and one a nanosecond faster does not. */
  lemma OneFieldTrigger(field: Field, t: int, op: Op, a: Event, b: Event)
    ensures var c := ANY.(matches := [Match(field, t, op)]);
      && (TriggerMatch(c, a) <==> Compares(op, FieldVal(a, field), t))
      && (op == OP_GTE && TriggerMatch(c, a) && FieldVal(a, field) <= FieldVal(b, field) ==> TriggerMatch(c, b))
      && (op == OP_LTE && TriggerMatch(c, a) && FieldVal(b, field) <= FieldVal(a, field) ==> TriggerMatch(c, b))
      && (op == OP_GTE && FieldVal(a, field) == t ==> TriggerMatch(c, a))
      && (op == OP_GTE && FieldVal(a, field) == t - 1 ==> !TriggerMatch(c, a))
  {
    assert ANY.matches + [Match(field, t, op)] == [Match(field, t, op)];
    ClausesAreConjunction(ANY, a, 0, field, t, op, []);
    ClausesAreConjunction(ANY, b, 0, field, t, op, []);
  }

  /** The events the engine itself looks for, in terms of the fields rules see: state transitions are enumeration
      events of step zero, an attach is one to state zero, a disconnect is lifecycle action one. */
  lemma EnumerationEvents(e: Event)
    ensures e.IsState() <==> FieldVal(e, F_KIND) == 2 && FieldVal(e, F_STEP) == 0
    ensures e.IsAttach() <==> e.IsState() && FieldVal(e, F_NEW_STATE) == 0
    ensures e.IsDisconnect() <==> FieldVal(e, F_KIND) == 4 && FieldVal(e, F_ACTION) == 1
  {
  }

  // ---- lookback ----

  /** The events of `h` with timestamps from `lo` up to `hi`, in order. */
  function Between(h: seq<Event>, lo: int, hi: int): (r: seq<Event>)
    ensures forall e :: e in r <==> e in h && lo <= e.ts <= hi
  {
    if h == [] then []
    else
      var p, e := Between(h[..|h| - 1], lo, hi), h[|h| - 1];
      assert h == h[..|h| - 1] + [e];
      if lo <= e.ts <= hi then p + [e] else p
  }

  /** Millisecond settings that do not overflow when converted. */
  predicate Sane(ms: int) {
    0 <= ms <= 18_446_744_073_709
  }

  lemma CountsInLookback(c: Cond, ref: u64, w: int, e: Event)
    requires c.withinMs == Some(w) && Sane(w)
    ensures Counts(c, ref, e) <==> ref - w * 1_000_000 <= e.ts <= ref && Counts(c.(withinMs := None), ref, e)
  {
    MsToNsExact(w);
  }

  /** A lookback of `w` ms restricts the history to the last `w` ms before the reference time, ends included. */
  lemma {:induction false} LookbackMeans(h: seq<Event>, c: Cond, ref: u64, w: int)
    requires c.withinMs == Some(w) && Sane(w)
    ensures Matching(h, c, ref) == Matching(Between(h, ref - w * 1_000_000, ref), c.(withinMs := None), ref)
  {
    hide Counts, Sane;
    if h != [] {
      var p, e := h[..|h| - 1], h[|h| - 1];
      LookbackMeans(p, c, ref, w);
      CountsInLookback(c, ref, w, e);
      var b := Between(p, ref - w * 1_000_000, ref);
      assert (b + [e])[..|b|] == b;
    }
  }

  /** Without one, everything up to the reference time counts and nothing later. */
  lemma {:induction false} NoLookbackMeans(h: seq<Event>, c: Cond, ref: u64, e: Event)
    requires c.withinMs == None
    ensures e in Matching(h, c, ref) <==> e in h && e.ts <= ref && CondPred(c, e)
  {
    if h != [] {
      var p, x := h[..|h| - 1], h[|h| - 1];
      NoLookbackMeans(p, c, ref, e);
      assert h == p + [x];
    }
  }

  lemma MatchingWithin(h: seq<Event>, c: Cond, ref: u64, w: int)
    requires c.withinMs == Some(w) && Sane(w)
    ensures forall e :: e in Matching(h, c, ref) ==>
      e in h && ref - w * 1_000_000 <= e.ts <= ref && CondPred(c, e)
  {
    LookbackMeans(h, c, ref, w);
    forall e | e in Matching(h, c, ref) ensures e in h && ref - w * 1_000_000 <= e.ts <= ref && CondPred(c, e) {
      NoLookbackMeans(Between(h, ref - w * 1_000_000, ref), c.(withinMs := None), ref, e);
    }
  }

  lemma {:induction false} HeadsAmong(m: seq<Event>, gap: u64, e: Event)
    requires e in Heads(m, gap)
    ensures e in m
  {
    var p := m[..|m| - 1];
    if e in Heads(p, gap) {
      HeadsAmong(p, gap, e);
    }
  }

  /** Every condition of a rule has a lookback that converts exactly. */
  ghost predicate AllLookBack(whens: seq<Cond>) {
    forall j :: 0 <= j < |whens| ==> whens[j].withinMs.Some? && Sane(whens[j].withinMs.value)
  }

  /** An event selected by one of the conditions, and inside that condition's lookback. */
  ghost predicate Selected(whens: seq<Cond>, recent: seq<Event>, ref: u64, e: Event) {
    exists j :: 0 <= j < |whens| && whens[j].withinMs.Some?
      && e in recent && ref - whens[j].withinMs.value * 1_000_000 <= e.ts <= ref && CondPred(whens[j], e)
  }

  lemma {:induction false} OfferedAreSelected(whens: seq<Cond>, recent: seq<Event>, ref: u64, e: Event)
    requires AllLookBack(whens) && e in Offered(whens, recent, ref)
    ensures Selected(whens, recent, ref, e)
  {
    var p, c := whens[..|whens| - 1], whens[|whens| - 1];
    assert whens == p + [c];
    if e in Offered(p, recent, ref) {
      OfferedAreSelected(p, recent, ref, e);
      var j :| 0 <= j < |p| && p[j].withinMs.Some?
        && e in recent && ref - p[j].withinMs.value * 1_000_000 <= e.ts <= ref && CondPred(p[j], e);
      assert whens[j] == p[j];
    } else {
      var m := Matching(recent, c, ref);
      if ClusterNs(c) != 0 {
        HeadsAmong(m, ClusterNs(c), e);
      }
      MatchingWithin(recent, c, ref, c.withinMs.value);
      assert whens[|p|] == c;
    }
  }

  /** The window a finding states is honest: when every condition of its rule looks back, each event of its
      evidence lies in the reported window before the reference time, and passed one of the conditions. */
  lemma EvidenceInWindow(whens: seq<Cond>, recent: seq<Event>, ref: u64)
    requires AllLookBack(whens) && EvalWhens(whens, recent, ref).ok
    ensures var l := EvalWhens(whens, recent, ref);
      forall e :: e in l.evidence ==>
        ref - l.windowMs * 1_000_000 <= e.ts <= ref && Selected(whens, recent, ref, e)
  {
    var l := EvalWhens(whens, recent, ref);
    EvidenceIsFirstSix(whens, recent, ref);
    WindowIsLongestLookback(whens, recent, ref);
    forall e | e in l.evidence
      ensures ref - l.windowMs * 1_000_000 <= e.ts <= ref && Selected(whens, recent, ref, e)
    {
      OfferedAreSelected(whens, recent, ref, e);
    }
  }

  // ---- count and span ----

  /** A condition that states no count asks for one event. */
  lemma OneIsEnough(c: Cond, recent: seq<Event>, ref: u64)
    requires c.countGte == None && c.clusterMs == None && c.minSpanMs == None
    ensures WhenCount(recent, c, ref) >= Need(c) <==> exists i :: 0 <= i < |recent| && Counts(c, ref, recent[i])
  {
    var idx := MatchingSelects(recent, c, ref);
    if i :| 0 <= i < |recent| && Counts(c, ref, recent[i]) {
      assert i in idx;
    }
    if idx != [] {
      assert idx[0] in idx;
    }
  }

  /** A condition that states one asks for just that many. */
  lemma CountIsAsked(c: Cond, recent: seq<Event>, ref: u64, n: int)
    requires c.countGte == Some(n)
    ensures EvalWhens([c], recent, ref).ok <==> WhenCount(recent, c, ref) >= n
  {
    assert [c][..0] == [];
  }

  /** Clusters are apart by the milliseconds stated; without a positive setting there is no clustering. */
  lemma ClusterGapMeans(c: Cond)
    ensures c.clusterMs.Some? && 0 < c.clusterMs.value && Sane(c.clusterMs.value) ==>
      ClusterNs(c) == c.clusterMs.value * 1_000_000
    ensures c.clusterMs == None || c.clusterMs.value <= 0 ==> ClusterNs(c) == 0
  {
    if c.clusterMs.Some? && Sane(c.clusterMs.value) {
      MsToNsExact(c.clusterMs.value);
    }
  }

  /** Two events of `m` at least `d` apart. */
  ghost predicate Spans(m: seq<Event>, d: int) {
    exists i, j :: 0 <= i < |m| && 0 <= j < |m| && m[i].ts - m[j].ts >= d
  }

  /** The span test in plain arithmetic: a condition with a minimum span of `s` ms answers zero exactly when it
      counts fewer than two, or no two selected events are at least `s` ms apart. */
  lemma SpanMeans(h: seq<Event>, c: Cond, ref: u64, s: int)
    requires c.minSpanMs == Some(s) && Sane(s)
    ensures var m := Matching(h, c, ref);
      && (SpanFails(m, c) <==> |Counted(m, c)| < 2 || !Spans(m, s * 1_000_000))
      && (WhenCount(h, c, ref) > 0 <==> |Counted(m, c)| >= 2 && Spans(m, s * 1_000_000))
  {
    var m := Matching(h, c, ref);
    MsToNsExact(s);
    if |Counted(m, c)| >= 2 {
      assert m != [];
      SpanIsExtreme(m);
      var a :| 0 <= a < |m| && m[a].ts == Oldest(m);
      var b :| 0 <= b < |m| && m[b].ts == Newest(m);
      assert m[b].ts - m[a].ts == Sub64(Newest(m), Oldest(m));
    }
  }
}
