/** The lookback query of an event rule, on a history kept newest event first.

    `EvalWhen` is what one condition means: select, cluster, check the span, count, and add evidence.
    The lemmas say what a bounded history can do to it, and that clustering counts connected components. */
module DiagQuery {
  import opened Base
  import opened DiagTypes

  /** The events a condition selects, newest first. */
  function Matching(h: seq<Event>, c: Cond, ref: u64): seq<Event> {
    if h == [] then []
    else
      var before := Matching(h[..|h| - 1], c, ref);
      if Counts(c, ref, h[|h| - 1]) then before + [h[|h| - 1]] else before
  }

  /** The events of `m` that open a cluster: the first, and each one more than `gap` before its predecessor. */
  function Heads(m: seq<Event>, gap: u64): seq<Event> {
    if m == [] then []
    else
      var before := Heads(m[..|m| - 1], gap);
      if IsHead(m, gap, |m| - 1) then before + [m[|m| - 1]] else before
  }

  predicate IsHead(m: seq<Event>, gap: u64, i: nat)
    requires i < |m|
  {
    i == 0 || Sub64(m[i - 1].ts, m[i].ts) > gap
  }

  function Oldest(m: seq<Event>): u64 {
    if m == [] then MAX64 else Min(m[|m| - 1].ts, Oldest(m[..|m| - 1]))
  }

  function Newest(m: seq<Event>): u64 {
    if m == [] then 0 else Max(m[|m| - 1].ts, Newest(m[..|m| - 1]))
  }

  /** What a condition counts: every selected event, or one per cluster. */
  function Counted(m: seq<Event>, c: Cond): seq<Event> {
    if ClusterNs(c) != 0 then Heads(m, ClusterNs(c)) else m
  }

  predicate SpanFails(m: seq<Event>, c: Cond) {
    c.minSpanMs.Some? &&
    (|Counted(m, c)| < 2 || Sub64(Newest(m), Oldest(m)) < MsToNs(c.minSpanMs.value))
  }

  function WhenCount(h: seq<Event>, c: Cond, ref: u64): nat {
    var m := Matching(h, c, ref);
    if SpanFails(m, c) then 0 else |Counted(m, c)|
  }

  /** The evidence list after the condition: unchanged when the span test fails. */
  function WhenEvidence(h: seq<Event>, c: Cond, ref: u64, ev: seq<Event>): seq<Event>
    requires |ev| <= MAX_EVIDENCE
  {
    var m := Matching(h, c, ref);
    if SpanFails(m, c) then ev else ev + Take(Counted(m, c), MAX_EVIDENCE - |ev|)
  }

  // ---- selection is exactly the per-event test ----

  /** `Matching` lists, in order, exactly the events that pass the test, each once. */
  lemma {:induction false} MatchingSelects(h: seq<Event>, c: Cond, ref: u64) returns (idx: seq<nat>)
    ensures |idx| == |Matching(h, c, ref)| && Increasing(idx)
    ensures forall a :: 0 <= a < |idx| ==> idx[a] < |h| && Matching(h, c, ref)[a] == h[idx[a]]
    ensures forall i :: 0 <= i < |h| ==> (i in idx <==> Counts(c, ref, h[i]))
  {
    if h == [] {
      idx := [];
    } else {
      var last := |h| - 1;
      var p := MatchingSelects(h[..last], c, ref);
      if Counts(c, ref, h[last]) {
        idx := p + [last];
        assert forall i :: i in idx <==> i in p || i == last;
      } else {
        idx := p;
      }
    }
  }

  // ---- a shorter history answers at most what a longer one does ----

  lemma {:induction false} MatchingPrefix(h: seq<Event>, n: nat, c: Cond, ref: u64)
    requires n <= |h|
    ensures Matching(h[..n], c, ref) <= Matching(h, c, ref)
    ensures (forall i :: n <= i < |h| ==> !Counts(c, ref, h[i])) <==> Matching(h[..n], c, ref) == Matching(h, c, ref)
    decreases |h|
  {
    if n == |h| {
      assert h[..n] == h;
    } else {
      var last := |h| - 1;
      MatchingPrefix(h[..last], n, c, ref);
      assert h[..last][..n] == h[..n];
      assert forall i :: n <= i < last ==> h[..last][i] == h[i];
    }
  }

  lemma {:induction false} HeadsPrefix(m: seq<Event>, n: nat, gap: u64)
    requires n <= |m|
    ensures Heads(m[..n], gap) <= Heads(m, gap)
    decreases |m|
  {
    if n == |m| {
      assert m[..n] == m;
    } else {
      HeadsPrefix(m[..|m| - 1], n, gap);
      assert m[..|m| - 1][..n] == m[..n];
    }
  }

  lemma {:induction false} SpanGrows(m: seq<Event>, n: nat)
    requires n <= |m|
    ensures Oldest(m) <= Oldest(m[..n]) && Newest(m[..n]) <= Newest(m)
    ensures n > 0 ==> Oldest(m[..n]) <= Newest(m[..n])
    decreases |m|
  {
    if n == |m| {
      assert m[..n] == m;
      if n > 0 { SpanGrows(m[..n - 1], n - 1); assert m[..n-1][..n-1] == m[..n-1]; }
    } else {
      SpanGrows(m[..|m| - 1], n);
      assert m[..|m| - 1][..n] == m[..n];
    }
  }

  /** One-sided truncation: forgetting the oldest part of a history never raises a condition's count,
      whatever the order of the timestamps and whether it is plain, clustered or span-tested. */
  lemma TruncationOneSided(h: seq<Event>, n: nat, c: Cond, ref: u64)
    ensures WhenCount(Take(h, n), c, ref) <= WhenCount(h, c, ref)
  {
    if n < |h| {
      var m, t := Matching(h, c, ref), Matching(h[..n], c, ref);
      MatchingPrefix(h, n, c, ref);
      assert t == m[..|t|];
      HeadsPrefix(m, |t|, ClusterNs(c));
      SpanGrows(m, |t|);
      if !SpanFails(t, c) && c.minSpanMs.Some? {
        assert t != [];
        SpanGrows(m, |m|);
        assert m[..|m|] == m;
      }
    }
  }

  /** Nothing is lost while every selected event is still held. */
  lemma TruncationExact(h: seq<Event>, n: nat, c: Cond, ref: u64, ev: seq<Event>)
    requires |ev| <= MAX_EVIDENCE
    requires forall i :: n <= i < |h| ==> !Counts(c, ref, h[i])
    ensures WhenCount(Take(h, n), c, ref) == WhenCount(h, c, ref)
    ensures WhenEvidence(Take(h, n), c, ref, ev) == WhenEvidence(h, c, ref, ev)
  {
    if n < |h| {
      MatchingPrefix(h, n, c, ref);
    }
  }

  /** For a plain condition that is the exact criterion. */
  lemma TruncationExactPlain(h: seq<Event>, n: nat, c: Cond, ref: u64)
    requires ClusterNs(c) == 0 && c.minSpanMs == None
    ensures WhenCount(Take(h, n), c, ref) == WhenCount(h, c, ref)
       <==> forall i :: n <= i < |h| ==> !Counts(c, ref, h[i])
  {
    if n < |h| {
      MatchingPrefix(h, n, c, ref);
    }
  }

  // ---- clustering counts connected components ----

  /** Timestamps do not increase along the list: the events arrived in time order. */
  ghost predicate TimeOrdered(m: seq<Event>) {
    forall i, j :: 0 <= i < j < |m| ==> m[j].ts <= m[i].ts
  }

  /** Two selected events are joined when they are at most `gap` apart. */
  ghost predicate Joined(m: seq<Event>, gap: u64, i: nat, j: nat)
    requires i < |m| && j < |m|
  {
    m[i].ts - m[j].ts <= gap && m[j].ts - m[i].ts <= gap
  }

  ghost predicate IsPath(m: seq<Event>, gap: u64, p: seq<nat>) {
    && p != []
    && (forall a :: 0 <= a < |p| ==> p[a] < |m|)
    && (forall a :: 0 <= a < |p| - 1 ==> Joined(m, gap, p[a], p[a + 1]))
  }

  ghost predicate Connected(m: seq<Event>, gap: u64, i: nat, j: nat) {
    exists p :: IsPath(m, gap, p) && p[0] == i && p[|p| - 1] == j
  }

  ghost function Component(m: seq<Event>, gap: u64, i: nat): set<nat> {
    set j: nat | 0 <= j < |m| && Connected(m, gap, i, j)
  }

  ghost function Components(m: seq<Event>, gap: u64): set<set<nat>> {
    set i: nat | 0 <= i < |m| :: Component(m, gap, i)
  }

  /** The head of the cluster that event `i` falls in. */
  function HeadOf(m: seq<Event>, gap: u64, i: nat): (r: nat)
    requires i < |m|
    ensures r <= i && IsHead(m, gap, r)
    ensures forall j :: r < j <= i ==> !IsHead(m, gap, j)
  {
    if IsHead(m, gap, i) then i else HeadOf(m, gap, i - 1)
  }

  lemma SameHead(m: seq<Event>, gap: u64, i: nat, j: nat)
    requires i <= j < |m|
    requires forall k :: i < k <= j ==> !IsHead(m, gap, k)
    ensures HeadOf(m, gap, j) == HeadOf(m, gap, i)
    decreases j - i
  {
    if i < j {
      SameHead(m, gap, i, j - 1);
    }
  }

  lemma JoinedSameHead(m: seq<Event>, gap: u64, i: nat, j: nat)
    requires TimeOrdered(m) && i < |m| && j < |m| && Joined(m, gap, i, j)
    ensures HeadOf(m, gap, i) == HeadOf(m, gap, j)
  {
    var a, b := Min(i, j), Max(i, j);
    forall k | a < k <= b ensures !IsHead(m, gap, k) {
      assert m[k].ts <= m[k - 1].ts <= m[a].ts && m[b].ts <= m[k].ts;
    }
    SameHead(m, gap, a, b);
  }

  /** No cluster boundary falls between two joined events. */
  ghost predicate JoinsUnsplit(m: seq<Event>, gap: u64) {
    forall i, j :: 0 <= i < |m| && 0 <= j < |m| && Joined(m, gap, i, j) ==> HeadOf(m, gap, i) == HeadOf(m, gap, j)
  }

  lemma {:induction false} PathSameHead(m: seq<Event>, gap: u64, p: seq<nat>)
    requires JoinsUnsplit(m, gap) && IsPath(m, gap, p)
    ensures HeadOf(m, gap, p[0]) == HeadOf(m, gap, p[|p| - 1])
    decreases |p|
  {
    if |p| > 1 {
      assert Joined(m, gap, p[0], p[1]);
      var q := p[1..];
      forall a | 0 <= a < |q| - 1 ensures Joined(m, gap, q[a], q[a + 1]) {
        assert Joined(m, gap, p[a + 1], p[a + 2]);
      }
      PathSameHead(m, gap, q);
    }
  }

  /** Consecutive events that are not split are joined. */
  ghost predicate UnsplitJoined(m: seq<Event>, gap: u64) {
    forall i :: 0 < i < |m| && !IsHead(m, gap, i) ==> Joined(m, gap, i, i - 1)
  }

  /** From an event down to the head of its cluster, and the other way round. */
  lemma {:induction false} ConnectedToHead(m: seq<Event>, gap: u64, i: nat)
    requires UnsplitJoined(m, gap) && i < |m|
    ensures Connected(m, gap, i, HeadOf(m, gap, i)) && Connected(m, gap, HeadOf(m, gap, i), i)
    decreases i
  {
    if IsHead(m, gap, i) {
      assert IsPath(m, gap, [i]);
    } else {
      ConnectedToHead(m, gap, i - 1);
      assert IsPath(m, gap, [i, i - 1]) && IsPath(m, gap, [i - 1, i]);
      assert [i, i - 1][1] == i - 1 && [i - 1, i][1] == i;
      assert Connected(m, gap, i, i - 1) && Connected(m, gap, i - 1, i);
      ConnectedTransitive(m, gap, i, i - 1, HeadOf(m, gap, i));
      ConnectedTransitive(m, gap, HeadOf(m, gap, i), i - 1, i);
    }
  }

  lemma ConnectedTransitive(m: seq<Event>, gap: u64, i: nat, j: nat, k: nat)
    requires Connected(m, gap, i, j) && Connected(m, gap, j, k)
    ensures Connected(m, gap, i, k)
  {
    var p :| IsPath(m, gap, p) && p[0] == i && p[|p| - 1] == j;
    var q :| IsPath(m, gap, q) && q[0] == j && q[|q| - 1] == k;
    var r := p + q[1..];
    forall a | 0 <= a < |r| - 1 ensures Joined(m, gap, r[a], r[a + 1]) {
      if a >= |p| - 1 {
        assert r[a] == q[a - (|p| - 1)] && r[a + 1] == q[a + 1 - (|p| - 1)];
      }
    }
    assert IsPath(m, gap, r) && r[0] == i && r[|r| - 1] == k;
  }

  lemma TimeOrderedJoins(m: seq<Event>, gap: u64)
    requires TimeOrdered(m)
    ensures UnsplitJoined(m, gap) && JoinsUnsplit(m, gap)
  {
    forall i | 0 < i < |m| && !IsHead(m, gap, i) ensures Joined(m, gap, i, i - 1) {
      assert m[i].ts <= m[i - 1].ts;
    }
    forall i, j | 0 <= i < |m| && 0 <= j < |m| && Joined(m, gap, i, j) ensures HeadOf(m, gap, i) == HeadOf(m, gap, j) {
      JoinedSameHead(m, gap, i, j);
    }
  }

  lemma ConnectedIffSameHead(m: seq<Event>, gap: u64, i: nat, j: nat)
    requires UnsplitJoined(m, gap) && JoinsUnsplit(m, gap) && i < |m| && j < |m|
    ensures Connected(m, gap, i, j) <==> HeadOf(m, gap, i) == HeadOf(m, gap, j)
  {
    if Connected(m, gap, i, j) {
      var p :| IsPath(m, gap, p) && p[0] == i && p[|p| - 1] == j;
      PathSameHead(m, gap, p);
    }
    if HeadOf(m, gap, i) == HeadOf(m, gap, j) {
      ConnectedToHead(m, gap, i);
      ConnectedToHead(m, gap, j);
      ConnectedTransitive(m, gap, i, HeadOf(m, gap, i), j);
    }
  }

  ghost function HeadIndices(m: seq<Event>, gap: u64): set<nat> {
    set i: nat | 0 <= i < |m| && IsHead(m, gap, i)
  }

  /** `idx` are the positions of the events in `hs`, and they are exactly the heads of `m`. */
  ghost predicate LocatesHeads(m: seq<Event>, gap: u64, hs: seq<Event>, idx: seq<nat>) {
    && |idx| == |hs| && Increasing(idx)
    && (forall a :: 0 <= a < |idx| ==> idx[a] < |m| && hs[a] == m[idx[a]])
    && Elements(idx) == HeadIndices(m, gap)
  }

  lemma LocateOneMore(m: seq<Event>, gap: u64, hs: seq<Event>, idx: seq<nat>)
    requires m != [] && LocatesHeads(m[..|m| - 1], gap, hs, idx) && IsHead(m, gap, |m| - 1)
    ensures LocatesHeads(m, gap, hs + [m[|m| - 1]], idx + [|m| - 1])
  {
    HeadIndicesGrow(m, gap);
    ElementsOfAppend(idx, |m| - 1);
  }

  /** `Heads` lists, in order, exactly the cluster heads, each once. */
  lemma {:induction false} HeadsSelects(m: seq<Event>, gap: u64) returns (idx: seq<nat>)
    ensures LocatesHeads(m, gap, Heads(m, gap), idx)
  {
    if m == [] {
      idx := [];
      assert Elements(idx) == HeadIndices(m, gap);
    } else {
      idx := HeadsSelects(m[..|m| - 1], gap);
      if IsHead(m, gap, |m| - 1) {
        LocateOneMore(m, gap, Heads(m[..|m| - 1], gap), idx);
        idx := idx + [|m| - 1];
      } else {
        HeadIndicesGrow(m, gap);
      }
    }
  }

  lemma HeadIndicesGrow(m: seq<Event>, gap: u64)
    requires m != []
    ensures HeadIndices(m, gap)
         == HeadIndices(m[..|m| - 1], gap) + (if IsHead(m, gap, |m| - 1) then {|m| - 1} else {})
  {
  }

  ghost function Elements(idx: seq<nat>): set<nat> {
    set i | i in idx
  }

  lemma ElementsOfAppend(p: seq<nat>, x: nat)
    ensures Elements(p + [x]) == Elements(p) + {x}
  {
  }

  lemma {:induction false} IncreasingSize(idx: seq<nat>)
    requires Increasing(idx)
    ensures |Elements(idx)| == |idx|
  {
    if idx == [] {
      assert Elements(idx) == {};
    } else {
      var p, x := idx[..|idx| - 1], idx[|idx| - 1];
      IncreasingSize(p);
      assert idx == p + [x];
      ElementsOfAppend(p, x);
      assert x !in Elements(p);
    }
  }

  lemma HeadCount(m: seq<Event>, gap: u64)
    ensures |Heads(m, gap)| == |HeadIndices(m, gap)|
  {
    var idx := HeadsSelects(m, gap);
    IncreasingSize(idx);
    assert HeadIndices(m, gap) == Elements(idx);
  }

  lemma ComponentOfHead(m: seq<Event>, gap: u64, i: nat)
    requires UnsplitJoined(m, gap) && i < |m|
    ensures Component(m, gap, i) == Component(m, gap, HeadOf(m, gap, i))
  {
    var h := HeadOf(m, gap, i);
    ConnectedToHead(m, gap, i);
    forall j: nat | j < |m| ensures Connected(m, gap, i, j) <==> Connected(m, gap, h, j) {
      if Connected(m, gap, i, j) { ConnectedTransitive(m, gap, h, i, j); }
      if Connected(m, gap, h, j) { ConnectedTransitive(m, gap, i, h, j); }
    }
  }

  lemma HeadsHaveOwnComponents(m: seq<Event>, gap: u64, x: nat, y: nat)
    requires UnsplitJoined(m, gap) && JoinsUnsplit(m, gap) && x in HeadIndices(m, gap) && y in HeadIndices(m, gap)
    requires Component(m, gap, x) == Component(m, gap, y)
    ensures x == y
  {
    ConnectedIffSameHead(m, gap, y, y);
    assert y in Component(m, gap, y);
    ConnectedIffSameHead(m, gap, x, y);
  }

  ghost function ComponentsOf(m: seq<Event>, gap: u64, s: set<nat>): set<set<nat>> {
    set i | i in s :: Component(m, gap, i)
  }

  lemma {:induction false} ComponentsOfHeads(m: seq<Event>, gap: u64, s: set<nat>)
    requires UnsplitJoined(m, gap) && JoinsUnsplit(m, gap) && s <= HeadIndices(m, gap)
    ensures |ComponentsOf(m, gap, s)| == |s|
    decreases |s|
  {
    if s == {} {
      assert ComponentsOf(m, gap, s) == {};
    } else {
      var x :| x in s;
      var rest := s - {x};
      ComponentsOfHeads(m, gap, rest);
      assert ComponentsOf(m, gap, s) == ComponentsOf(m, gap, rest) + {Component(m, gap, x)};
      if Component(m, gap, x) in ComponentsOf(m, gap, rest) {
        var y :| y in rest && Component(m, gap, y) == Component(m, gap, x);
        HeadsHaveOwnComponents(m, gap, x, y);
      }
    }
  }

  lemma ComponentsByHead(m: seq<Event>, gap: u64)
    requires UnsplitJoined(m, gap)
    ensures Components(m, gap) == ComponentsOf(m, gap, HeadIndices(m, gap))
  {
    forall k | k in Components(m, gap) ensures k in ComponentsOf(m, gap, HeadIndices(m, gap)) {
      var i: nat :| i < |m| && k == Component(m, gap, i);
      ComponentOfHead(m, gap, i);
      assert HeadOf(m, gap, i) in HeadIndices(m, gap);
    }
  }

  lemma {:induction false} ComponentsOfAtMost(m: seq<Event>, gap: u64, s: set<nat>)
    ensures |ComponentsOf(m, gap, s)| <= |s|
    decreases |s|
  {
    if s == {} {
      assert ComponentsOf(m, gap, s) == {};
    } else {
      var x :| x in s;
      ComponentsOfAtMost(m, gap, s - {x});
      assert ComponentsOf(m, gap, s) == ComponentsOf(m, gap, s - {x}) + {Component(m, gap, x)};
    }
  }

  /** Two joined events with different heads: some head has no component of its own. */
  lemma SplitJoinLosesComponent(m: seq<Event>, gap: u64, i: nat, j: nat)
    requires UnsplitJoined(m, gap) && i < |m| && j < |m|
    requires Joined(m, gap, i, j) && HeadOf(m, gap, i) != HeadOf(m, gap, j)
    ensures |ComponentsOf(m, gap, HeadIndices(m, gap))| < |HeadIndices(m, gap)|
  {
    var x, y, heads := HeadOf(m, gap, i), HeadOf(m, gap, j), HeadIndices(m, gap);
    JoinedSameComponent(m, gap, i, j);
    ComponentOfHead(m, gap, i);
    ComponentOfHead(m, gap, j);
    assert y in heads - {x};
    assert ComponentsOf(m, gap, heads) == ComponentsOf(m, gap, heads - {x});
    ComponentsOfAtMost(m, gap, heads - {x});
  }

  lemma JoinedSameComponent(m: seq<Event>, gap: u64, i: nat, j: nat)
    requires i < |m| && j < |m| && Joined(m, gap, i, j)
    ensures Component(m, gap, i) == Component(m, gap, j)
  {
    assert IsPath(m, gap, [i, j]) && IsPath(m, gap, [j, i]);
    assert [i, j][1] == j && [j, i][1] == i;
    assert Connected(m, gap, i, j) && Connected(m, gap, j, i);
    forall k: nat | k < |m| ensures Connected(m, gap, i, k) <==> Connected(m, gap, j, k) {
      if Connected(m, gap, i, k) { ConnectedTransitive(m, gap, j, i, k); }
      if Connected(m, gap, j, k) { ConnectedTransitive(m, gap, i, j, k); }
    }
  }

  /** The gap cannot reach across the wrap of the clock. */
  ghost predicate NoWrap(m: seq<Event>, gap: u64) {
    forall i :: 0 <= i < |m| ==> m[i].ts + gap <= MAX64
  }

  /** When clustering counts episodes, whatever the arrival order: the clustered count is the number of
      connected components of the graph that joins selected events at most `gap` apart exactly when no
      cluster boundary falls between two joined events. */
  lemma ClustersExactIff(m: seq<Event>, gap: u64)
    requires TimeOrdered(m) || NoWrap(m, gap)
    ensures |Heads(m, gap)| == |Components(m, gap)| <==> JoinsUnsplit(m, gap)
  {
    if TimeOrdered(m) {
      TimeOrderedJoins(m, gap);
    }
    HeadCount(m, gap);
    ComponentsByHead(m, gap);
    if JoinsUnsplit(m, gap) {
      ComponentsOfHeads(m, gap, HeadIndices(m, gap));
    } else {
      var i, j :| 0 <= i < |m| && 0 <= j < |m| && Joined(m, gap, i, j) && HeadOf(m, gap, i) != HeadOf(m, gap, j);
      SplitJoinLosesComponent(m, gap, i, j);
    }
  }

  /** For events in time order that is always so. */
  lemma ClustersAreComponents(m: seq<Event>, gap: u64)
    requires TimeOrdered(m)
    ensures |Heads(m, gap)| == |Components(m, gap)|
  {
    TimeOrderedJoins(m, gap);
    ClustersExactIff(m, gap);
  }

  /** Whatever the arrival order, clustering never counts fewer episodes than there are. */
  lemma ClustersNeverUndercount(m: seq<Event>, gap: u64)
    requires NoWrap(m, gap)
    ensures |Components(m, gap)| <= |Heads(m, gap)|
  {
    HeadCount(m, gap);
    ComponentsByHead(m, gap);
    ComponentsOfAtMost(m, gap, HeadIndices(m, gap));
  }

  /** It can count more: two joined events that arrive out of order are split. */
  lemma OutOfOrderOvercounts(late: Event, early: Event, gap: u64)
    requires early.ts < late.ts <= early.ts + gap && late.ts + gap <= MAX64
    ensures |Heads([early, late], gap)| == 2
    ensures |Components([early, late], gap)| == 1
  {
    var m := [early, late];
    assert m[..1] == [early];
    assert Heads([early], gap) == [early] && IsHead(m, gap, 1);
    assert IsPath(m, gap, [0]) && IsPath(m, gap, [1]) && IsPath(m, gap, [0, 1]) && IsPath(m, gap, [1, 0]);
    assert [0, 1][1] == 1 && [1, 0][1] == 0 && [0][0] == 0 && [1][0] == 1;
    assert Connected(m, gap, 0, 0) && Connected(m, gap, 0, 1) && Connected(m, gap, 1, 0) && Connected(m, gap, 1, 1);
    assert Component(m, gap, 0) == {0, 1} && Component(m, gap, 1) == {0, 1};
    assert Components(m, gap) == {{0, 1}} by {
      assert Component(m, gap, 0) in Components(m, gap);
    }
  }

  /** Each component has exactly one head, and the head is its newest event: these are the events that go
      into the evidence. */
  lemma HeadIsNewestOfComponent(m: seq<Event>, gap: u64, i: nat)
    requires TimeOrdered(m) && i < |m|
    ensures HeadOf(m, gap, i) in Component(m, gap, i)
    ensures forall j :: j in Component(m, gap, i) ==> m[j].ts <= m[HeadOf(m, gap, i)].ts
    ensures forall j :: j in Component(m, gap, i) && IsHead(m, gap, j) ==> j == HeadOf(m, gap, i)
  {
    var h := HeadOf(m, gap, i);
    SameHead(m, gap, h, i);
    TimeOrderedJoins(m, gap);
    ConnectedIffSameHead(m, gap, i, h);
    forall j | j in Component(m, gap, i) ensures HeadOf(m, gap, j) == h {
      ConnectedIffSameHead(m, gap, i, j);
    }
  }

  lemma MatchingTimeOrdered(h: seq<Event>, c: Cond, ref: u64)
    requires TimeOrdered(h)
    ensures TimeOrdered(Matching(h, c, ref))
  {
    var idx := MatchingSelects(h, c, ref);
  }

  /** The answer of a clustering condition whose selected events arrived in time order. */
  lemma ClusteredWhenCountsEpisodes(h: seq<Event>, c: Cond, ref: u64)
    requires ClusterNs(c) != 0 && TimeOrdered(Matching(h, c, ref))
    ensures var m := Matching(h, c, ref);
      WhenCount(h, c, ref) == if SpanFails(m, c) then 0 else |Components(m, ClusterNs(c))|
  {
    ClustersAreComponents(Matching(h, c, ref), ClusterNs(c));
  }

  /** And in general: once past the span test, the answer is the number of episodes exactly when no cluster
      boundary splits two selected events that belong together; otherwise it is too large. */
  lemma ClusteredWhenExactIff(h: seq<Event>, c: Cond, ref: u64)
    requires ClusterNs(c) != 0 && NoWrap(Matching(h, c, ref), ClusterNs(c)) && !SpanFails(Matching(h, c, ref), c)
    ensures var m := Matching(h, c, ref); var n := |Components(m, ClusterNs(c))|;
      && (WhenCount(h, c, ref) == n <==> JoinsUnsplit(m, ClusterNs(c)))
      && (WhenCount(h, c, ref) > n <==> !JoinsUnsplit(m, ClusterNs(c)))
  {
    ClustersExactIff(Matching(h, c, ref), ClusterNs(c));
    ClustersNeverUndercount(Matching(h, c, ref), ClusterNs(c));
  }

  /** The span test compares the extreme timestamps of the selected events. */
  lemma {:induction false} SpanIsExtreme(m: seq<Event>)
    requires m != []
    ensures forall i :: 0 <= i < |m| ==> Oldest(m) <= m[i].ts <= Newest(m)
    ensures exists i :: 0 <= i < |m| && m[i].ts == Oldest(m)
    ensures exists i :: 0 <= i < |m| && m[i].ts == Newest(m)
  {
    var last := |m| - 1;
    var p := m[..last];
    var a, b := last, last;
    if p != [] {
      SpanIsExtreme(p);
      a :| 0 <= a < |p| && p[a].ts == Oldest(p);
      b :| 0 <= b < |p| && p[b].ts == Newest(p);
    }
    assert Oldest(m) == Min(m[last].ts, Oldest(p)) && Newest(m) == Max(m[last].ts, Newest(p));
    assert m[a].ts == Oldest(m) || m[last].ts == Oldest(m);
    assert m[b].ts == Newest(m) || m[last].ts == Newest(m);
    forall i | 0 <= i < |m| ensures Oldest(m) <= m[i].ts <= Newest(m) {
      assert i < last ==> m[i] == p[i];
    }
  }

  lemma MatchingStep(r: seq<Event>, i: nat, c: Cond, ref: u64)
    requires i < |r|
    ensures Matching(r[..i + 1], c, ref)
         == if Counts(c, ref, r[i]) then Matching(r[..i], c, ref) + [r[i]] else Matching(r[..i], c, ref)
  {
    assert r[..i + 1][..i] == r[..i];
  }

  /** One more selected event: what it does to the clusters and to the extreme timestamps. */
  lemma SelectStep(m: seq<Event>, x: Event, gap: u64)
    ensures Heads(m + [x], gap)
         == if m == [] || Sub64(m[|m| - 1].ts, x.ts) > gap then Heads(m, gap) + [x] else Heads(m, gap)
    ensures Oldest(m + [x]) == Min(x.ts, Oldest(m)) && Newest(m + [x]) == Max(x.ts, Newest(m))
  {
    assert (m + [x])[..|m|] == m;
  }
}
