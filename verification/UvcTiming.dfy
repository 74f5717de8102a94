/** Frame times, and the summary that adds them up. */
module UvcTiming {
  import opened Base
  import opened UvcFrames
  import opened UvcCut
  import opened UvcCharge

  function EndOf(out: seq<Frame>): u64 {
    if out == [] then 0 else out[|out| - 1].endTs
  }

  lemma {:induction false} UntimedIs(ps: seq<Timed>)
    ensures |Untimed(ps)| == |ps| && forall i :: 0 <= i < |ps| ==> Untimed(ps)[i] == ps[i].k
  {
    if ps != [] {
      UntimedIs(ps[..|ps| - 1]);
    }
  }

  function Count(ps: seq<Timed>): nat {
    |Payloads(Untimed(ps))|
  }

  /** When the packet that carried payload number `n` was delivered. */
  function TimeOf(ps: seq<Timed>, n: nat): u64
    requires n < Count(ps)
  {
    UntimedIs(ps);
    ps[PacketOf(Untimed(ps), n)].now
  }

  /** From the end `prev` of the previous frame to `now`, zero when there is none. */
  function Since(prev: u64, now: u64): u32 {
    if prev == 0 then 0 else Trunc32(Sub64(now, prev))
  }

  function PrevEnd(out: seq<Frame>, j: nat): u64
    requires j <= |out|
  {
    if j == 0 then 0 else out[j - 1].endTs
  }

  /** The times of frame `j`: it ends with the packet that closes it, lasts since its own first packet, and
      its interval runs from the end of the frame before. */
  ghost predicate TimesAre(ps: seq<Timed>, segs: seq<seq<Payload>>, out: seq<Frame>, j: nat)
    requires j < |out| == |segs|
  {
    && Starts(segs, j) < Count(ps) && Closer(segs, j) < Count(ps)
    && out[j].endTs == TimeOf(ps, Closer(segs, j))
    && out[j].duration == Trunc32(Sub64(out[j].endTs, TimeOf(ps, Starts(segs, j))))
    && out[j].interval == Since(PrevEnd(out, j), out[j].endTs)
  }

  ghost predicate AllTimes(ps: seq<Timed>, segs: seq<seq<Payload>>, out: seq<Frame>) {
    |out| == |segs| && forall j :: 0 <= j < |out| ==> TimesAre(ps, segs, out, j)
  }

  /** The state remembers when the last frame ended and when the open one began. */
  ghost predicate Timely(st: State, out: seq<Frame>, s: Split, ps: seq<Timed>) {
    && AllTimes(ps, s.segs, out) && st.lastEnd == EndOf(out)
    && |Join(s.segs)| + |s.open| == Count(ps)
    && st.active == (s.open != []) && (s.open != [] ==> st.haveFid && st.fid == s.open[0].fid)
    && (s.open != [] ==> st.frameStart == TimeOf(ps, |Join(s.segs)|))
  }

  lemma TimeOfAppend(ps: seq<Timed>, x: Timed, n: nat)
    requires n < Count(ps)
    ensures n < Count(ps + [x]) && TimeOf(ps + [x], n) == TimeOf(ps, n)
  {
    UntimedNext(ps, x);
    UntimedIs(ps);
    PacketOfAppend(Untimed(ps), x.k, n);
  }

  lemma UntimedNext(ps: seq<Timed>, x: Timed)
    ensures Untimed(ps + [x]) == Untimed(ps) + [x.k]
  {
    assert (ps + [x])[..|ps|] == ps;
  }

  lemma TimeOfLast(ps: seq<Timed>, x: Timed)
    requires x.k.payload.Some?
    ensures Count(ps + [x]) == Count(ps) + 1 && TimeOf(ps + [x], Count(ps)) == x.now
  {
    UntimedNext(ps, x);
    UntimedIs(ps);
    PacketOfLast(Untimed(ps), x.k);
  }

  lemma TimesKept(ps: seq<Timed>, x: Timed, segs: seq<seq<Payload>>, out: seq<Frame>)
    requires AllTimes(ps, segs, out)
    ensures AllTimes(ps + [x], segs, out)
  {
    forall j | 0 <= j < |out| ensures TimesAre(ps + [x], segs, out, j) {
      assert TimesAre(ps, segs, out, j);
      TimeOfAppend(ps, x, Starts(segs, j));
      TimeOfAppend(ps, x, Closer(segs, j));
    }
  }

  /** One more frame, closed by the payload of the last packet. */
  lemma TimesClosed(ps: seq<Timed>, segs: seq<seq<Payload>>, out: seq<Frame>, seg: seq<Payload>, f: Frame)
    requires AllTimes(ps, segs, out) && Count(ps) > 0 && seg != []
    requires |Join(segs)| + |seg| == Count(ps) - if EndsWithEof(seg) then 0 else 1
    requires f.endTs == TimeOf(ps, Count(ps) - 1)
    requires f.duration == Trunc32(Sub64(f.endTs, TimeOf(ps, |Join(segs)|)))
    requires f.interval == Since(EndOf(out), f.endTs)
    ensures AllTimes(ps, segs + [seg], out + [f])
  {
    var t, o := segs + [seg], out + [f];
    forall j | 0 <= j < |o| ensures TimesAre(ps, t, o, j) {
      assert t[..j] == segs[..j];
      if j < |out| {
        assert TimesAre(ps, segs, out, j);
        assert Closer(t, j) == Closer(segs, j);
      } else {
        assert t[..j] == segs;
        assert Closer(t, j) == Count(ps) - 1;
      }
    }
  }

  lemma ToggleTimely(st: State, out: seq<Frame>, s: Split, ps: seq<Timed>, x: Timed)
    requires Timely(st, out, s, ps) && x.k.payload.Some? && !EndsWithEof(s.open)
    requires s.open != [] && s.open[0].fid != x.k.payload.value.fid
    ensures var p := x.k.payload.value;
      Timely(Gathered(Opened(Closed(st, x.now), p.fid, x.now), p), out + [FrameOf(st, false, x.now)],
             Split(s.segs + [s.open], [p]), ps + [x])
  {
    TimesKept(ps, x, s.segs, out);
    TimeOfLast(ps, x);
    TimeOfAppend(ps, x, |Join(s.segs)|);
    JoinAppend(s.segs, s.open);
    hide AllTimes, Count, TimeOf, Join;
    TimesClosed(ps + [x], s.segs, out, s.open, FrameOf(st, false, x.now));
  }

  lemma GatheredTimes(st: State, p: Payload)
    ensures var g := Gathered(st, p);
      && g.lastEnd == st.lastEnd && g.frameStart == st.frameStart
      && g.active == st.active && g.haveFid == st.haveFid && g.fid == st.fid
  {
  }

  lemma GatherTimely(st: State, out: seq<Frame>, s: Split, ps: seq<Timed>, x: Timed)
    requires Timely(st, out, s, ps) && x.k.payload.Some?
    requires s.open != [] && s.open[0].fid == x.k.payload.value.fid
    ensures var p := x.k.payload.value; Timely(Gathered(st, p), out, Split(s.segs, s.open + [p]), ps + [x])
  {
    TimesKept(ps, x, s.segs, out);
    TimeOfLast(ps, x);
    TimeOfAppend(ps, x, |Join(s.segs)|);
    GatheredTimes(st, x.k.payload.value);
    var open := s.open + [x.k.payload.value];
    assert open[0] == s.open[0] && |open| == |s.open| + 1;
    assert |Join(s.segs)| + |open| == Count(ps + [x]);
    assert st.frameStart == TimeOf(ps + [x], |Join(s.segs)|);
    hide Gathered, AllTimes, Count, TimeOf, Join;
  }

  lemma OpenTimely(st: State, out: seq<Frame>, s: Split, ps: seq<Timed>, x: Timed)
    requires Timely(st, out, s, ps) && x.k.payload.Some? && s.open == []
    ensures var p := x.k.payload.value;
      Timely(Gathered(Opened(st, p.fid, x.now), p), out, Split(s.segs, [p]), ps + [x])
  {
    TimesKept(ps, x, s.segs, out);
    TimeOfLast(ps, x);
    hide AllTimes, Count, TimeOf, Join;
  }

  lemma BoundaryTimely(st: State, out: seq<Frame>, s: Split, ps: seq<Timed>, x: Timed)
    requires Timely(st, out, s, ps) && x.k.payload.Some? && !EndsWithEof(s.open)
    ensures var p := x.k.payload.value; var b := Boundary(st, p, x.now);
      var d := if s.open != [] && s.open[0].fid != p.fid then CloseSplit(s) else s;
      Timely(Gathered(b.st, p), out + b.out, Split(d.segs, d.open + [p]), ps + [x])
  {
    var p := x.k.payload.value;
    assert out + [] == out && [] + [p] == [p];
    assert st.active == (s.open != []) && (s.open != [] ==> st.haveFid && st.fid == s.open[0].fid);
    if s.open == [] {
      OpenTimely(st, out, s, ps, x);
    } else if s.open[0].fid != p.fid {
      ToggleTimely(st, out, s, ps, x);
    } else {
      GatherTimely(st, out, s, ps, x);
    }
    hide Timely, Gathered, Opened, Closed, FrameOf;
  }

  lemma FinishTimely(st: State, out: seq<Frame>, s: Split, ps: seq<Timed>, now: u64)
    requires Timely(st, out, s, ps) && EndsWithEof(s.open) && now == TimeOf(ps, Count(ps) - 1)
    ensures Timely(Closed(st, now), out + [FrameOf(st, true, now)], CloseSplit(s), ps)
  {
    TimesClosed(ps, s.segs, out, s.open, FrameOf(st, true, now));
    JoinAppend(s.segs, s.open);
  }

  lemma AcceptTimely(st: State, out: seq<Frame>, s: Split, ps: seq<Timed>, x: Timed)
    requires Timely(st, out, s, ps) && x.k.payload.Some? && !EndsWithEof(s.open)
    ensures var p := x.k.payload.value; var a := Accept(st, p, x.now);
      Timely(a.st, out + a.out, ExtendSplit(s, p), ps + [x])
  {
    var p := x.k.payload.value;
    var b := Boundary(st, p, x.now);
    BoundaryTimely(st, out, s, ps, x);
    if p.eof {
      var d := if s.open != [] && s.open[0].fid != p.fid then CloseSplit(s) else s;
      TimeOfLast(ps, x);
      FinishTimely(Gathered(b.st, p), out + b.out, Split(d.segs, d.open + [p]), ps + [x], x.now);
      assert out + b.out + [FrameOf(Gathered(b.st, p), true, x.now)]
          == out + (b.out + [FrameOf(Gathered(b.st, p), true, x.now)]);
    }
  }

  function SplitOf(c: Cut): Split {
    Split(Segments(c.closed), c.open)
  }

  lemma PacketTimely(st: State, out: seq<Frame>, c: Cut, ps: seq<Timed>, x: Timed)
    requires Timely(st, out, SplitOf(c), ps) && !EndsWithEof(c.open)
    ensures var s := StepPacket(st, x.k, x.now); Timely(s.st, out + s.out, SplitOf(CutNext(c, x.k)), ps + [x])
  {
    var charged := Charged(st, x.k.bad);
    if x.k.payload.Some? {
      CutPayloadSplits(c.(pending := c.pending + [x.k]), x.k.payload.value);
      hide AllTimes;
      AcceptTimely(charged, out, SplitOf(c), ps, x);
    } else {
      assert out + [] == out;
      UntimedNext(ps, x);
      assert (Untimed(ps) + [x.k])[..|ps|] == Untimed(ps) by { UntimedIs(ps); }
      TimesKept(ps, x, Segments(c.closed), out);
      if c.open != [] {
        TimeOfAppend(ps, x, |Join(Segments(c.closed))|);
      }
    }
  }

  /** Every frame ends when the packet that closes it is delivered, its duration runs from the delivery of its
      own first packet, and its interval from the end of the frame before, all modulo 2^32. */
  lemma {:induction false} FrameTimes(ps: seq<Timed>)
    ensures var s := RunPackets(Idle(), ps); var c := CutAll(Untimed(ps));
      Timely(s.st, s.out, SplitOf(c), ps)
  {
    if ps != [] {
      var q, x := ps[..|ps| - 1], ps[|ps| - 1];
      FrameTimes(q);
      assert ps == q + [x];
      UntimedNext(q, x);
      assert Untimed(ps)[..|Untimed(ps)| - 1] == Untimed(q);
      CutIsSegmentation(Untimed(q));
      hide Timely, CutNext, StepPacket, EndsWithEof;
      PacketTimely(RunPackets(Idle(), q).st, RunPackets(Idle(), q).out, CutAll(Untimed(q)), q, x);
    }
  }

  // ---- on a clock that does not go back ----

  /** The clock is positive and does not go back. */
  ghost predicate Forward(ps: seq<Timed>) {
    && (forall i :: 0 <= i < |ps| ==> 0 < ps[i].now)
    && (forall i, j :: 0 <= i < j < |ps| ==> ps[i].now <= ps[j].now)
  }

  lemma TimeOfForward(ps: seq<Timed>, n: nat, m: nat)
    requires Forward(ps) && n <= m < Count(ps)
    ensures 0 < TimeOf(ps, n) <= TimeOf(ps, m)
  {
    UntimedIs(ps);
    PacketOfMonotone(Untimed(ps), n, m);
  }

  /** Given when the previous frame ended (zero for none) and when this one began. */
  ghost predicate WellTimed(f: Frame, prev: u64, start: u64) {
    && 0 < start && prev <= start <= f.endTs
    && f.interval == (if prev == 0 then 0 else Trunc32(f.endTs - prev))
    && f.duration == Trunc32(f.endTs - start)
  }

  lemma InOrder(ps: seq<Timed>, segs: seq<seq<Payload>>, out: seq<Frame>, j: nat)
    requires Forward(ps) && AllTimes(ps, segs, out) && j < |out| && AllWhole(segs)
    ensures Starts(segs, j) < Count(ps) && WellTimed(out[j], PrevEnd(out, j), TimeOf(ps, Starts(segs, j)))
  {
    assert TimesAre(ps, segs, out, j);
    assert segs[j] != [];
    TimeOfForward(ps, Starts(segs, j), Closer(segs, j));
    if j > 0 {
      assert TimesAre(ps, segs, out, j - 1);
      StartsNext(segs, j - 1);
      TimeOfForward(ps, Closer(segs, j - 1), Starts(segs, j));
    }
  }

  /** A frame begins no earlier than the one before it ends. */
  lemma FramesInOrder(ps: seq<Timed>, j: nat)
    requires Forward(ps) && j < |RunPackets(Idle(), ps).out|
    ensures var out, segs := RunPackets(Idle(), ps).out, Segments(CutAll(Untimed(ps)).closed);
      && |segs| == |out| && Starts(segs, j) < Count(ps)
      && WellTimed(out[j], PrevEnd(out, j), TimeOf(ps, Starts(segs, j)))
  {
    FrameTimes(ps);
    CutIsSegmentation(Untimed(ps));
    InOrder(ps, Segments(CutAll(Untimed(ps)).closed), RunPackets(Idle(), ps).out, j);
  }

  // ---- the documented duration ----

  /** When the last payload of frame `j` was delivered. */
  function LastTime(ps: seq<Timed>, segs: seq<seq<Payload>>, j: nat): u64
    requires j < |segs| && segs[j] != [] && Starts(segs, j) + |segs[j]| <= Count(ps)
  {
    TimeOf(ps, Starts(segs, j) + |segs[j]| - 1)
  }

  /** A duration `d` (32 bits) is the time from `first` to `last` exactly when that time fits 32 bits and the
      closing packet, at `end`, came with the last payload or a multiple of 2^32 ns after it. When the whole
      frame fits 32 bits, that is exactly when it has its end of frame (`eof`) or the toggle that closed it
      came at the very time of its last payload. */
  ghost predicate DurationIsExact(d: u32, first: u64, last: u64, end: u64, eof: bool) {
    && first <= last <= end
    && (d == last - first <==> last - first < TWO32 && (end - last) % TWO32 == 0)
    && (end - first < TWO32 ==> (d == last - first <==> eof || end == last))
  }

  lemma TruncatedDuration(first: u64, last: u64, end: u64, eof: bool)
    requires first <= last <= end && (eof ==> end == last)
    ensures DurationIsExact(Trunc32(Sub64(end, first)), first, last, end, eof)
  {
    Wraps(first, last, end);
  }

  lemma DurationIff(ps: seq<Timed>, segs: seq<seq<Payload>>, out: seq<Frame>, j: nat)
    requires Forward(ps) && AllTimes(ps, segs, out) && AllWhole(segs) && j < |out|
    ensures segs[j] != [] && Starts(segs, j) + |segs[j]| <= Count(ps) && Closer(segs, j) < Count(ps)
    ensures DurationIsExact(out[j].duration, TimeOf(ps, Starts(segs, j)), LastTime(ps, segs, j),
                            TimeOf(ps, Closer(segs, j)), EndsWithEof(segs[j]))
  {
    assert segs[j] != [] && TimesAre(ps, segs, out, j);
    var n, eof := Starts(segs, j), EndsWithEof(segs[j]);
    var l, c := n + |segs[j]| - 1, Closer(segs, j);
    assert l <= c && (eof ==> c == l);
    assert out[j].duration == Trunc32(Sub64(TimeOf(ps, c), TimeOf(ps, n))) && LastTime(ps, segs, j) == TimeOf(ps, l);
    hide *;
    TimeOfForward(ps, n, l);
    TimeOfForward(ps, l, c);
    TruncatedDuration(TimeOf(ps, n), TimeOf(ps, l), TimeOf(ps, c), eof);
  }

  lemma Wraps(first: nat, last: nat, end: nat)
    requires first <= last <= end
    ensures (end - first) % TWO32 == last - first <==> last - first < TWO32 && (end - last) % TWO32 == 0
    ensures end - first < TWO32 ==> (end - first) % TWO32 == end - first
  {
    var d, e := last - first, end - last;
    if d < TWO32 {
      var q, r := e / TWO32, e % TWO32;
      assert e == q * TWO32 + r && d + e == q * TWO32 + (r + d);
      if r + d < TWO32 {
        Remainder(d + e, q, r + d);
      } else {
        assert d + e == (q + 1) * TWO32 + (r + d - TWO32);
        Remainder(d + e, q + 1, r + d - TWO32);
      }
    }
  }

  lemma Remainder(x: nat, q: nat, r: nat)
    requires x == q * TWO32 + r && r < TWO32
    ensures x % TWO32 == r
  {
  }

  lemma AllFramesTimed(ps: seq<Timed>)
    ensures var out, segs := RunPackets(Idle(), ps).out, Segments(CutAll(Untimed(ps)).closed);
      AllTimes(ps, segs, out) && AllWhole(segs) && |segs| == |out|
  {
    FrameTimes(ps);
    CutIsSegmentation(Untimed(ps));
  }

  /** When the duration is what the documentation says, the time from the frame's first to its last payload. */
  lemma DurationAsDocumentedIff(ps: seq<Timed>, j: nat)
    requires Forward(ps) && j < |RunPackets(Idle(), ps).out|
    ensures var out, segs := RunPackets(Idle(), ps).out, Segments(CutAll(Untimed(ps)).closed);
      && j < |segs| && segs[j] != []
      && Starts(segs, j) + |segs[j]| <= Count(ps) && Closer(segs, j) < Count(ps)
      && DurationIsExact(out[j].duration, TimeOf(ps, Starts(segs, j)), LastTime(ps, segs, j),
                         TimeOf(ps, Closer(segs, j)), EndsWithEof(segs[j]))
  {
    hide *;
    AllFramesTimed(ps);
    DurationIff(ps, Segments(CutAll(Untimed(ps)).closed), RunPackets(Idle(), ps).out, j);
  }

  /** Two packets whose first frame lasts for 40 ns although its first payload is also its last: the duration
      runs on to the packet that revealed the lost end. */
  lemma DurationRunsOn(p: Payload, q: Payload)
    requires !p.eof && !q.eof && p.fid != q.fid
    ensures var ps := [Timed(Packet(false, Some(p)), 10), Timed(Packet(false, Some(q)), 50)];
      var out := RunPackets(Idle(), ps).out;
      && |out| == 1 && out[0].core.packets == 1 && out[0].core.bytes == p.bytes
      && out[0].duration == 40 && out[0].endTs == 50
  {
    var a, b := Timed(Packet(false, Some(p)), 10), Timed(Packet(false, Some(q)), 50);
    assert [a, b][..1] == [a] && [a][..0] == [];
    var s := RunPackets(Idle(), [a]);
    var x := StepPacket(Idle(), a.k, a.now);
    assert RunPackets(Idle(), []) == Step(Idle(), []) && [] + x.out == x.out;
    assert s == x;
    assert RunPackets(Idle(), [a, b]).out == s.out + StepPacket(s.st, b.k, b.now).out;
  }

  function SumIntervals(out: seq<Frame>): nat {
    if out == [] then 0 else SumIntervals(out[..|out| - 1]) + out[|out| - 1].interval
  }

  /** Frames end less than 2^32 ns apart. */
  ghost predicate GapsFit(out: seq<Frame>) {
    forall j :: 1 <= j < |out| ==> out[j].endTs - out[j - 1].endTs < TWO32
  }

  /** Frame `j` begins no earlier than the one before it ends. */
  ghost predicate SortedAt(out: seq<Frame>, j: nat)
    requires j < |out|
  {
    exists start: u64 :: WellTimed(out[j], PrevEnd(out, j), start)
  }

  ghost predicate Sorted(out: seq<Frame>) {
    forall j :: 0 <= j < |out| ==> SortedAt(out, j)
  }

  lemma RunSorted(ps: seq<Timed>)
    requires Forward(ps)
    ensures Sorted(RunPackets(Idle(), ps).out)
  {
    forall j | 0 <= j < |RunPackets(Idle(), ps).out| ensures SortedAt(RunPackets(Idle(), ps).out, j) {
      FramesInOrder(ps, j);
    }
    hide SortedAt, RunPackets;
  }

  /** Intervals are plain differences of end times. */
  lemma IntervalIs(out: seq<Frame>, j: nat)
    requires Sorted(out) && GapsFit(out) && j < |out|
    ensures out[j].interval == if j == 0 then 0 else out[j].endTs - out[j - 1].endTs
    ensures out[j].interval != 0 ==> out[j].duration <= out[j].interval
  {
    assert SortedAt(out, j) && (j > 0 ==> SortedAt(out, j - 1));
  }

  lemma {:induction false} IntervalsSum(out: seq<Frame>)
    requires Sorted(out) && GapsFit(out) && out != []
    ensures SumIntervals(out) == out[|out| - 1].endTs - out[0].endTs
  {
    var p := out[..|out| - 1];
    IntervalIs(out, |out| - 1);
    if p != [] {
      forall j | 0 <= j < |p| ensures SortedAt(p, j) {
        assert SortedAt(out, j) && PrevEnd(p, j) == PrevEnd(out, j);
      }
      hide SortedAt;
      IntervalsSum(p);
    } else {
      assert SumIntervals(p) == 0;
    }
  }

  /** The intervals of a stream telescope: they add up to last frame end minus first frame end. */
  lemma IntervalsTelescope(ps: seq<Timed>)
    requires Forward(ps) && GapsFit(RunPackets(Idle(), ps).out) && RunPackets(Idle(), ps).out != []
    ensures var out := RunPackets(Idle(), ps).out;
      SumIntervals(out) == out[|out| - 1].endTs - out[0].endTs
  {
    RunSorted(ps);
    IntervalsSum(RunPackets(Idle(), ps).out);
  }

  /** A frame never lasts longer than its (non-zero) interval. */
  lemma DurationWithinInterval(ps: seq<Timed>, j: nat)
    requires Forward(ps) && GapsFit(RunPackets(Idle(), ps).out) && j < |RunPackets(Idle(), ps).out|
    ensures var f := RunPackets(Idle(), ps).out[j]; f.interval != 0 ==> f.duration <= f.interval
  {
    RunSorted(ps);
    IntervalIs(RunPackets(Idle(), ps).out, j);
  }

  // ---- the summary ----

  function CountErrored(out: seq<Frame>): nat {
    if out == [] then 0 else CountErrored(out[..|out| - 1]) + if out[|out| - 1].core.errored then 1 else 0
  }

  function CountIntervals(out: seq<Frame>): nat {
    if out == [] then 0 else CountIntervals(out[..|out| - 1]) + if out[|out| - 1].interval != 0 then 1 else 0
  }

  /** The extreme non-zero intervals, zero when there is none. */
  ghost predicate Extremes(out: seq<Frame>, lo: nat, hi: nat) {
    && (forall j :: 0 <= j < |out| && out[j].interval != 0 ==> lo <= out[j].interval <= hi)
    && ((exists j :: 0 <= j < |out| && out[j].interval != 0) ==>
          && (exists j :: 0 <= j < |out| && out[j].interval != 0 && out[j].interval == lo)
          && (exists j :: 0 <= j < |out| && out[j].interval == hi))
    && ((forall j :: 0 <= j < |out| ==> out[j].interval == 0) ==> lo == 0 && hi == 0)
  }

  ghost function ErroredFrames(out: seq<Frame>): set<nat> {
    set j: nat | j < |out| && out[j].core.errored
  }

  ghost function TimedFrames(out: seq<Frame>): set<nat> {
    set j: nat | j < |out| && out[j].interval != 0
  }

  lemma FramesGrow(out: seq<Frame>)
    requires out != []
    ensures var p, n: nat := out[..|out| - 1], |out| - 1;
      && ErroredFrames(out) == ErroredFrames(p) + (if out[n].core.errored then {n} else {})
      && TimedFrames(out) == TimedFrames(p) + (if out[n].interval != 0 then {n} else {})
      && n !in ErroredFrames(p) && n !in TimedFrames(p)
  {
    var p := out[..|out| - 1];
    assert forall j :: 0 <= j < |p| ==> p[j] == out[j];
  }

  /** The counts of the summary are numbers of frames. */
  lemma {:induction false} TotalsMean(out: seq<Frame>)
    ensures CountErrored(out) == |ErroredFrames(out)| && CountIntervals(out) == |TimedFrames(out)|
  {
    if out == [] {
      assert ErroredFrames(out) == {} && TimedFrames(out) == {};
    } else {
      TotalsMean(out[..|out| - 1]);
      FramesGrow(out);
      hide ErroredFrames, TimedFrames;
    }
  }

  /** And its sums add up frame by frame. */
  lemma {:induction false} SumsAdd(a: seq<Frame>, b: seq<Frame>, f: Frame)
    ensures SumBytes([]) == 0 && SumBytes([f]) == f.core.bytes && SumBytes(a + b) == SumBytes(a) + SumBytes(b)
    ensures SumIntervals([]) == 0 && SumIntervals([f]) == f.interval
    ensures SumIntervals(a + b) == SumIntervals(a) + SumIntervals(b)
    decreases |b|
  {
    assert [f][..0] == [];
    if b == [] {
      assert a + b == a;
    } else {
      SumsAdd(a, b[..|b| - 1], f);
      assert (a + b)[..|a + b| - 1] == a + b[..|b| - 1];
    }
  }

  class FrameStats {
    var frames: nat
    var bytes: nat
    var errored: nat
    var intervals: nat
    var sumInterval: nat
    var minInterval: nat
    var maxInterval: nat

    constructor ()
      ensures Counts([])
    {
      frames, bytes, errored, intervals, sumInterval, minInterval, maxInterval := 0, 0, 0, 0, 0, 0, 0;
    }

    /** The totals are those of the frames `out`. */
    ghost predicate Counts(out: seq<Frame>)
      reads this
    {
      && frames == |out| && bytes == SumBytes(out) && errored == CountErrored(out)
      && intervals == CountIntervals(out) && sumInterval == SumIntervals(out)
      && Extremes(out, minInterval, maxInterval)
    }

    method TallyFrame(f: Frame, ghost out: seq<Frame>)
      requires Counts(out)
      modifies this
      ensures Counts(out + [f])
    {
      assert (out + [f])[..|out|] == out;
      ExtremesAppend(out, f, minInterval, maxInterval);
      frames := frames + 1;
      bytes := bytes + f.core.bytes;
      if f.core.errored {
        errored := errored + 1;
      }
      if f.interval != 0 {
        intervals := intervals + 1;
        sumInterval := sumInterval + f.interval;
        if minInterval == 0 || f.interval < minInterval {
          minInterval := f.interval;
        }
        if f.interval > maxInterval {
          maxInterval := f.interval;
        }
      }
    }
  }

  lemma ExtremesAppend(out: seq<Frame>, f: Frame, lo: nat, hi: nat)
    requires Extremes(out, lo, hi)
    ensures f.interval == 0 ==> Extremes(out + [f], lo, hi)
    ensures f.interval != 0 ==>
      Extremes(out + [f], if lo == 0 || f.interval < lo then f.interval else lo,
               if f.interval > hi then f.interval else hi)
  {
    var t := out + [f];
    assert t[|out|] == f;
    assert forall j :: 0 <= j < |out| ==> t[j] == out[j];
    if exists j :: 0 <= j < |out| && out[j].interval != 0 {
      var a :| 0 <= a < |out| && out[a].interval != 0 && out[a].interval == lo;
      var b :| 0 <= b < |out| && out[b].interval == hi;
      assert t[a].interval == lo && t[b].interval == hi;
    }
  }

  /** The average interval lies between the extremes the summary reports. */
  lemma {:induction false} AverageWithinExtremes(out: seq<Frame>, lo: nat, hi: nat)
    requires forall j :: 0 <= j < |out| && out[j].interval != 0 ==> lo <= out[j].interval <= hi
    ensures lo * CountIntervals(out) <= SumIntervals(out) <= hi * CountIntervals(out)
  {
    if out != [] {
      AverageWithinExtremes(out[..|out| - 1], lo, hi);
      assert lo * (CountIntervals(out[..|out| - 1]) + 1) == lo * CountIntervals(out[..|out| - 1]) + lo;
      assert hi * (CountIntervals(out[..|out| - 1]) + 1) == hi * CountIntervals(out[..|out| - 1]) + hi;
    }
  }
}
