/** The HID report-rate meter: per-endpoint slots, a shared measuring window, and totals. */
module HidRate {
  import opened Base

  const RATE_SLOTS: nat := 16
  const GAP_NS: nat := 50_000_000

  datatype Slot = Slot(
    bus: nat, dev: nat, ep: nat, vid: nat, product: nat, lastTs: u64,
    win: Counts, total: Counts, errUrbs: nat)

  /** Reports, intervals with their sum and extremes, and gaps. */
  datatype Counts = Counts(count: nat, ivCount: nat, sumIv: nat, minIv: nat, maxIv: nat, gaps: nat)

  const ZERO := Counts(0, 0, 0, 0, 0, 0)

  datatype Report = Report(bus: nat, dev: nat, ep: nat, vid: nat, product: nat, dirIn: bool, status: int, ts: u64)

  function NewSlot(r: Report): Slot {
    Slot(r.bus, r.dev, r.ep, r.vid, r.product, 0, ZERO, ZERO, 0)
  }

  function AddInterval(c: Counts, iv: nat): Counts {
    if iv == 0 then c
    else if iv > GAP_NS then c.(gaps := c.gaps + 1)
    else c.(ivCount := c.ivCount + 1, sumIv := c.sumIv + iv,
            minIv := if c.minIv == 0 || iv < c.minIv then iv else c.minIv,
            maxIv := if iv > c.maxIv then iv else c.maxIv)
  }

  function AddReport(c: Counts, iv: nat): Counts {
    var d := AddInterval(c, iv);
    d.(count := d.count + 1)
  }

  /** The time since the previous report of the slot, zero when there is none or it is not earlier. */
  function Elapsed(s: Slot, ts: u64): nat {
    if s.lastTs != 0 && ts > s.lastTs then ts - s.lastTs else 0
  }

  function NoteReport(s: Slot, ts: u64): Slot {
    var iv := Elapsed(s, ts);
    s.(lastTs := ts, win := AddReport(s.win, iv), total := AddReport(s.total, iv))
  }

  /** One printed rate line: the slot's counts over a window of the given length. */
  datatype Line = Line(slot: nat, win: Counts, span: nat, final: bool)

  class Meter {
    const rateNs: u64
    const slots: array<Slot>
    var nslots: nat
    var windowStart: u64
    /** The rate lines printed so far. */
    var lines: seq<Line>

    ghost predicate Valid()
      reads this, slots
    {
      && slots.Length == RATE_SLOTS && nslots <= RATE_SLOTS && 0 < rateNs
      && AllBalanced()
      && (forall l :: l in lines ==> l.slot < nslots && 0 < l.span && (!l.final ==> rateNs <= l.span))
    }

    /** The whole state: slots in use, window start, lines printed. */
    ghost function Snapshot(): Snap
      requires nslots <= slots.Length
      reads this, slots
    {
      Snap(slots[..nslots], windowStart, lines)
    }

    /** Every slot in use, its open window aside. */
    ghost function Totals(): seq<Slot>
      requires nslots <= slots.Length
      reads this, slots
    {
      AllBare(slots[..nslots])
    }

    constructor (rateSec: nat)
      requires 1 <= rateSec <= 3600
      ensures Valid() && nslots == 0 && windowStart == 0 && lines == [] && rateNs == rateSec * 1_000_000_000
    {
      rateNs := rateSec * 1_000_000_000;
      var empty := Slot(0, 0, 0, 0, 0, 0, ZERO, ZERO, 0);
      slots := new Slot[RATE_SLOTS](i => empty);
      nslots, windowStart, lines := 0, 0, [];
    }

    /** The slot of a report's endpoint, a new one if there is room. */
    method SlotGet(r: Report) returns (i: Option<nat>)
      requires Valid()
      modifies this`nslots, slots
      ensures Valid()
      ensures var f, n := FirstOf(old(slots[..nslots]), r, 0), old(nslots);
        if f < n then i == Some(f) && nslots == n && slots[..] == old(slots[..])
        else if n < RATE_SLOTS
        then i == Some(n) && nslots == n + 1 && slots[..nslots] == old(slots[..nslots]) + [NewSlot(r)]
        else i == None && nslots == n && slots[..] == old(slots[..])
    {
      var k := 0;
      while k < nslots
        invariant k <= nslots && forall j :: 0 <= j < k ==> !SameEndpoint(slots[j], r)
      {
        if slots[k].bus == r.bus && slots[k].dev == r.dev && slots[k].ep == r.ep {
          FirstIs(slots[..nslots], r, k);
          return Some(k);
        }
        k := k + 1;
      }
      FirstIs(slots[..nslots], r, nslots);
      if nslots >= RATE_SLOTS {
        return None;
      }
      PrintedNone(lines, nslots);
      slots[nslots] := NewSlot(r);
      nslots := nslots + 1;
      i := Some(nslots - 1);
    }

    method NoteInterval(i: nat, iv: nat)
      requires i < slots.Length
      modifies slots
      ensures slots[..] == old(slots[..])[i := old(slots[i]).(win := AddInterval(old(slots[i]).win, iv),
                                                              total := AddInterval(old(slots[i]).total, iv))]
    {
      var s := slots[i];
      if iv == 0 {
        return;
      }
      if iv > GAP_NS {
        slots[i] := s.(win := s.win.(gaps := s.win.gaps + 1), total := s.total.(gaps := s.total.gaps + 1));
        return;
      }
      var w, t := s.win, s.total;
      w := w.(ivCount := w.ivCount + 1, sumIv := w.sumIv + iv);
      t := t.(ivCount := t.ivCount + 1, sumIv := t.sumIv + iv);
      if w.minIv == 0 || iv < w.minIv {
        w := w.(minIv := iv);
      }
      if iv > w.maxIv {
        w := w.(maxIv := iv);
      }
      if t.minIv == 0 || iv < t.minIv {
        t := t.(minIv := iv);
      }
      if iv > t.maxIv {
        t := t.(maxIv := iv);
      }
      slots[i] := s.(win := w, total := t);
    }

    /** Prints and clears the window of every slot, unless no time has passed, or the last window is shorter
        than a quarter of the period. */
    method FlushWindow(now: u64, final: bool)
      requires Valid() && (!final ==> now <= windowStart || windowStart + rateNs <= now)
      modifies this`windowStart, this`lines, slots
      ensures Valid() && nslots == old(nslots)
      ensures var flushes := old(windowStart) != 0 && old(windowStart) < now
                          && !(final && 4 * (now - old(windowStart)) < rateNs);
        && windowStart == (if flushes then now else old(windowStart))
        && (!flushes ==> slots[..] == old(slots[..]) && lines == old(lines))
        && (flushes ==> forall i :: 0 <= i < nslots ==> slots[i] == old(slots[i]).(win := ZERO))
        && (flushes ==> lines == old(lines) + LinesOf(old(slots[..nslots]), now - old(windowStart), final))
      ensures old(lines) <= lines && forall l :: l in lines[|old(lines)|..] ==> l.final == final
    {
      if windowStart == 0 || now <= windowStart {
        return;
      }
      var span := now - windowStart;
      if final && 4 * span < rateNs {
        return;
      }
      LinesAre(slots[..nslots], span, final);
      FlushAll(span, final);
      windowStart := now;
    }

    ghost predicate AllBalanced()
      requires nslots <= slots.Length
      reads this, slots
    {
      && (forall i :: 0 <= i < nslots ==> Balanced(slots[i], lines, i) && Sound(slots[i]))
      && (forall l :: l in lines ==> Extremes(l.win))
    }

    method FlushAll(span: nat, final: bool)
      requires slots.Length == RATE_SLOTS && nslots <= RATE_SLOTS && AllBalanced()
      modifies this`lines, slots
      ensures AllBalanced()
      ensures lines == old(lines) + LinesOf(old(slots[..nslots]), span, final)
      ensures forall j :: 0 <= j < nslots ==> slots[j] == old(slots[j]).(win := ZERO)
    {
      hide Balanced, Sound, Extremes, LinesOf;
      ghost var was, l0 := slots[..nslots], lines;
      LinesOfNone(was, span, final);
      var i := 0;
      while i < nslots
        invariant i <= nslots && AllBalanced()
        invariant lines == l0 + LinesOf(was[..i], span, final)
        invariant forall j :: i <= j < nslots ==> slots[j] == was[j]
        invariant forall j :: 0 <= j < i ==> slots[j] == was[j].(win := ZERO)
      {
        LinesNext(was, i, span, final);
        ghost var before := slots[..];
        FlushSlot(i, span, final);
        assert forall j :: 0 <= j < slots.Length && j != i ==> slots[j] == before[j];
        i := i + 1;
      }
      assert was[..nslots] == was;
    }

    method FlushSlot(i: nat, span: nat, final: bool)
      requires slots.Length == RATE_SLOTS && i < nslots <= RATE_SLOTS && AllBalanced()
      modifies this`lines, slots
      ensures AllBalanced()
      ensures slots[..] == old(slots[..])[i := old(slots[i]).(win := ZERO)]
      ensures lines == if old(slots[i]).win.count != 0
                       then old(lines) + [Line(i, old(slots[i]).win, span, final)] else old(lines)
    {
      var s := slots[i];
      if s.win.count != 0 {
        ghost var l := Line(i, s.win, span, final);
        forall j: nat
          ensures Printed(lines + [l], j) == if j == i then Added(Printed(lines, j), s.win) else Printed(lines, j)
        {
          PrintedAppend(lines, l, j);
        }
        lines := lines + [Line(i, s.win, span, final)];
      }
      slots[i] := s.(win := ZERO);
    }

    /** One completed interrupt URB: only the first slot of its endpoint, or a new one, takes note. A good
        report starts the shared window if there is none, and flushes it once a period has passed. */
    method OnIn(r: Report)
      requires Valid()
      modifies this`nslots, this`windowStart, this`lines, slots
      ensures Valid() && windowStart >= old(windowStart)
      ensures Snapshot() == StepMeter(rateNs, old(Snapshot()), r)
      ensures Totals() == StepTable(old(Totals()), r)
    {
      ghost var m := Snapshot();
      NoteTotals(m.slots, r);
      if !r.dirIn {
        return;
      }
      var good := Account(r);
      hide Note, IsGood;
      if good {
        RollTotals(rateNs, m.(slots := Note(m.slots, r)), r.ts);
        Roll(r.ts);
      }
    }

    /** The report enters its slot; false when there is none or the URB failed. */
    method Account(r: Report) returns (good: bool)
      requires Valid() && r.dirIn
      modifies this`nslots, slots
      ensures Valid() && slots[..nslots] == Note(old(slots[..nslots]), r) && good == IsGood(slots[..nslots], r)
    {
      ghost var was := slots[..nslots];
      var i := SlotGet(r);
      if i.None? {
        return false;
      }
      NoteOfFirst(was, slots[..nslots], i.value, r);
      hide Note, FirstOf, NoteReport, Balanced, Sound, Extremes;
      if r.status != 0 {
        NoteError(i.value);
        return false;
      }
      Record(i.value, r.ts);
      return true;
    }

    /** The shared window starts with the first report and rolls over when a period has passed. */
    method Roll(ts: u64)
      requires Valid()
      modifies this`windowStart, this`lines, slots
      ensures Valid() && windowStart >= old(windowStart)
      ensures Snapshot() == RollMeter(rateNs, old(Snapshot()), ts)
    {
      if windowStart == 0 {
        windowStart := ts;
      }
      if Sub64(ts, windowStart) >= rateNs {
        FlushWindow(ts, false);
      }
    }

    method NoteError(i: nat)
      requires Valid() && i < nslots
      modifies slots
      ensures Valid()
      ensures slots[..] == old(slots[..])[i := old(slots[i]).(errUrbs := old(slots[i]).errUrbs + 1)]
    {
      ErrorKeepsBalance(slots[i], lines, i);
      hide Balanced, Sound, Extremes;
      slots[i] := slots[i].(errUrbs := slots[i].errUrbs + 1);
    }

    method Record(i: nat, ts: u64)
      requires Valid() && i < nslots
      modifies slots
      ensures Valid()
      ensures slots[..] == old(slots[..])[i := NoteReport(old(slots[i]), ts)]
    {
      var s := slots[i];
      NoteKeepsBalance(s, lines, i, ts);
      hide Balanced, Sound, Extremes;
      if s.lastTs != 0 && ts > s.lastTs {
        NoteInterval(i, ts - s.lastTs);
      }
      var t := slots[i];
      slots[i] := t.(lastTs := ts, win := t.win.(count := t.win.count + 1),
                     total := t.total.(count := t.total.count + 1));
    }

    /** The time of the last report of any slot. */
    method LastReport() returns (now: u64)
      requires Valid()
      ensures now == Latest(slots[..nslots])
    {
      now := 0;
      ghost var ss := slots[..nslots];
      for i := 0 to nslots
        invariant now == Latest(ss[..i])
      {
        assert ss[..i + 1][..i] == ss[..i];
        if slots[i].lastTs > now {
          now := slots[i].lastTs;
        }
      }
      assert ss[..nslots] == ss;
    }

    /** At exit the open window is flushed up to the last report, unless it is too short. */
    method OnStop()
      requires Valid()
      modifies this`windowStart, this`lines, slots
      ensures Valid() && Totals() == old(Totals())
      ensures Snapshot() == StopMeter(rateNs, old(Snapshot()))
    {
      if windowStart == 0 {
        return;
      }
      var now := LastReport();
      if now > windowStart {
        FlushWindow(now, true);
      }
    }
  }

  /** The meter's state as a value. */
  datatype Snap = Snap(slots: seq<Slot>, start: u64, lines: seq<Line>)

  /** A good report at `ts` starts the shared window if there is none, and flushes every slot once a period has
      passed. */
  function RollMeter(rateNs: u64, m: Snap, ts: u64): Snap {
    var start := if m.start == 0 then ts else m.start;
    if 0 < start < ts && ts - start >= rateNs
    then Snap(AllBare(m.slots), ts, m.lines + LinesOf(m.slots, ts - start, false))
    else m.(start := start)
  }

  /** One URB is noted in its slot, and rolls the window if it is a good report. */
  function StepMeter(rateNs: u64, m: Snap, r: Report): Snap {
    var n := m.(slots := Note(m.slots, r));
    if IsGood(n.slots, r) then RollMeter(rateNs, n, r.ts) else n
  }

  lemma RollTotals(rateNs: u64, m: Snap, ts: u64)
    ensures AllBare(RollMeter(rateNs, m, ts).slots) == AllBare(m.slots)
  {
    AllBareTwice(m.slots);
  }

  /** At exit the open window is flushed up to the last report, unless it is shorter than a quarter period. */
  function StopMeter(rateNs: u64, m: Snap): Snap {
    var last := Latest(m.slots);
    if 0 < m.start < last && 4 * (last - m.start) >= rateNs
    then Snap(AllBare(m.slots), last, m.lines + LinesOf(m.slots, last - m.start, true))
    else m
  }

  function Latest(ss: seq<Slot>): u64 {
    if ss == [] then 0 else Max(ss[|ss| - 1].lastTs, Latest(ss[..|ss| - 1]))
  }

  /** A flush prints one line for every slot that saw a report. */
  function LinesOf(ss: seq<Slot>, span: nat, final: bool): seq<Line> {
    if ss == [] then []
    else
      var p, s := LinesOf(ss[..|ss| - 1], span, final), ss[|ss| - 1];
      if s.win.count != 0 then p + [Line(|ss| - 1, s.win, span, final)] else p
  }

  /** A slot's totals are its printed windows plus its open one. */
  ghost predicate Balanced(s: Slot, ls: seq<Line>, i: nat) {
    && s.total.count == Printed(ls, i).count + s.win.count
    && s.total.ivCount == Printed(ls, i).ivCount + s.win.ivCount
    && s.total.sumIv == Printed(ls, i).sumIv + s.win.sumIv
    && s.total.gaps == Printed(ls, i).gaps + s.win.gaps
    && (s.win.count == 0 ==> s.win == ZERO)
  }

  lemma NoteKeepsBalance(s: Slot, ls: seq<Line>, i: nat, ts: u64)
    requires Balanced(s, ls, i)
    ensures Balanced(NoteReport(s, ts), ls, i)
    ensures Sound(s) ==> Sound(NoteReport(s, ts))
  {
    if Sound(s) {
      ExtremesKept(s.win, Elapsed(s, ts));
      ExtremesKept(s.total, Elapsed(s, ts));
    }
  }

  lemma ErrorKeepsBalance(s: Slot, ls: seq<Line>, i: nat)
    requires Balanced(s, ls, i) && Sound(s)
    ensures Balanced(s.(errUrbs := s.errUrbs + 1), ls, i) && Sound(s.(errUrbs := s.errUrbs + 1))
  {
  }

  /** The extremes of the open window and of the totals are those of intervals, whatever the arrival order. */
  ghost predicate Sound(s: Slot) {
    Extremes(s.win) && Extremes(s.total)
  }

  predicate SameEndpoint(s: Slot, r: Report) {
    s.bus == r.bus && s.dev == r.dev && s.ep == r.ep
  }

  /** The first slot of the report's endpoint at or after `from`; the length when there is none. */
  function FirstOf(ss: seq<Slot>, r: Report, from: nat): (i: nat)
    requires from <= |ss|
    ensures from <= i <= |ss| && (i < |ss| ==> SameEndpoint(ss[i], r))
    ensures forall j :: from <= j < i ==> !SameEndpoint(ss[j], r)
    decreases |ss| - from
  {
    if from == |ss| || SameEndpoint(ss[from], r) then from else FirstOf(ss, r, from + 1)
  }

  lemma FirstIs(ss: seq<Slot>, r: Report, i: nat)
    requires i <= |ss| && (i < |ss| ==> SameEndpoint(ss[i], r)) && forall j :: 0 <= j < i ==> !SameEndpoint(ss[j], r)
    ensures FirstOf(ss, r, 0) == i
  {
  }

  /** What a report does to its own slot, flushing aside. */
  function Noted(s: Slot, r: Report): Slot {
    if r.status != 0 then s.(errUrbs := s.errUrbs + 1) else NoteReport(s, r.ts)
  }

  /** A slot without its open window. */
  function Bare(s: Slot): Slot {
    s.(win := ZERO)
  }

  function AllBare(ss: seq<Slot>): seq<Slot> {
    seq(|ss|, i requires 0 <= i < |ss| => Bare(ss[i]))
  }

  /** What a report does to the slots, flushing aside. */
  function Note(ss: seq<Slot>, r: Report): seq<Slot> {
    if !r.dirIn then ss
    else
      var i := FirstOf(ss, r, 0);
      if i < |ss| then ss[i := Noted(ss[i], r)]
      else if |ss| < RATE_SLOTS then ss + [Noted(NewSlot(r), r)]
      else ss
  }

  lemma NoteOfFirst(was: seq<Slot>, got: seq<Slot>, i: nat, r: Report)
    requires r.dirIn
    requires var f := FirstOf(was, r, 0);
      if f < |was| then i == f && got == was else |was| < RATE_SLOTS && i == |was| && got == was + [NewSlot(r)]
    ensures i < |got| && Note(was, r) == got[i := Noted(got[i], r)] && FirstOf(Note(was, r), r, 0) == i
  {
    FirstIs(Note(was, r), r, i);
  }

  /** The report is one of an endpoint with a slot, and did not fail. */
  predicate IsGood(ss: seq<Slot>, r: Report) {
    r.dirIn && r.status == 0 && FirstOf(ss, r, 0) < |ss|
  }

  /** The same with the open windows left out: flushing never shows in it. */
  function StepTable(ss: seq<Slot>, r: Report): seq<Slot> {
    AllBare(Note(ss, r))
  }

  lemma AllBareTwice(ss: seq<Slot>)
    ensures AllBare(AllBare(ss)) == AllBare(ss)
  {
  }

  /** Windows have no part in what a report adds to the rest of a slot. */
  lemma NoteTotals(ss: seq<Slot>, r: Report)
    ensures AllBare(Note(ss, r)) == StepTable(AllBare(ss), r)
  {
    var i := FirstOf(ss, r, 0);
    FirstIs(AllBare(ss), r, i);
    if r.dirIn && i < |ss| {
      NotedBare(ss[i], r);
    }
  }

  lemma NotedBare(s: Slot, r: Report)
    ensures Bare(Noted(Bare(s), r)) == Bare(Noted(s, r))
  {
  }

  /** The sums over all printed lines of one slot. */
  function Printed(ls: seq<Line>, i: nat): Counts {
    if ls == [] then ZERO
    else
      var p, l := Printed(ls[..|ls| - 1], i), ls[|ls| - 1];
      if l.slot == i then Added(p, l.win) else p
  }

  function Added(p: Counts, w: Counts): Counts {
    Counts(p.count + w.count, p.ivCount + w.ivCount, p.sumIv + w.sumIv, 0, 0, p.gaps + w.gaps)
  }

  lemma LinesOfNone(ss: seq<Slot>, span: nat, final: bool)
    ensures LinesOf(ss[..0], span, final) == []
  {
  }

  lemma LinesNext(ss: seq<Slot>, i: nat, span: nat, final: bool)
    requires i < |ss|
    ensures LinesOf(ss[..i + 1], span, final)
         == if ss[i].win.count != 0 then LinesOf(ss[..i], span, final) + [Line(i, ss[i].win, span, final)]
            else LinesOf(ss[..i], span, final)
  {
    assert ss[..i + 1][..i] == ss[..i];
  }

  lemma {:induction false} LinesAre(ss: seq<Slot>, span: nat, final: bool)
    ensures forall l :: l in LinesOf(ss, span, final) ==> l.slot < |ss| && l.span == span && l.final == final
  {
    if ss != [] {
      LinesAre(ss[..|ss| - 1], span, final);
    }
  }

  lemma PrintedAppend(ls: seq<Line>, l: Line, i: nat)
    ensures Printed(ls + [l], i) == if l.slot == i then Added(Printed(ls, i), l.win) else Printed(ls, i)
  {
    assert (ls + [l])[..|ls|] == ls;
  }

  lemma {:induction false} PrintedNone(ls: seq<Line>, i: nat)
    requires forall l :: l in ls ==> l.slot < i
    ensures Printed(ls, i) == ZERO
  {
    if ls != [] {
      PrintedNone(ls[..|ls| - 1], i);
    }
  }

  // ---- accounting over the successful reports of one slot ----

  function RunSlot(s: Slot, ts: seq<u64>): Slot {
    if ts == [] then s else NoteReport(RunSlot(s, ts[..|ts| - 1]), ts[|ts| - 1])
  }

  /** Time spent in silences longer than the gap threshold. */
  function GapTime(ts: seq<u64>): nat {
    if |ts| < 2 then 0
    else
      var iv: int := ts[|ts| - 1] as int - ts[|ts| - 2] as int;
      GapTime(ts[..|ts| - 1]) + if iv > GAP_NS then iv else 0
  }

  ghost predicate Rising(ts: seq<u64>) {
    (forall i :: 0 <= i < |ts| ==> 0 < ts[i]) && forall i, j :: 0 <= i < j < |ts| ==> ts[i] < ts[j]
  }

  ghost predicate Extremes(c: Counts) {
    && c.maxIv <= GAP_NS
    && (if c.ivCount == 0 then c.sumIv == 0 && c.minIv == 0 && c.maxIv == 0 else 0 < c.minIv <= c.maxIv)
    && c.minIv * c.ivCount <= c.sumIv <= c.maxIv * c.ivCount
  }

  lemma ExtremesKept(c: Counts, iv: nat)
    requires Extremes(c)
    ensures Extremes(AddReport(c, iv))
  {
    if 0 < iv <= GAP_NS {
      var d := AddReport(c, iv);
      var n := c.ivCount;
      OneMore(d.minIv, n);
      OneMore(d.maxIv, n);
      if n > 0 {
        MulMono(d.minIv, c.minIv, n);
        MulMono(c.maxIv, d.maxIv, n);
      }
    }
  }

  lemma OneMore(a: nat, n: nat)
    ensures a * (n + 1) == a * n + a
  {
  }

  lemma MulMono(a: nat, b: nat, n: nat)
    requires a <= b
    ensures a * n <= b * n
  {
    assert b * n == a * n + (b - a) * n;
  }

  /** One slot alone. For reports at rising times: every report after the first is an interval or a gap,
      intervals and gap time add up to the time from first to last, and the average interval lies between the
      extremes, which never exceed 50 ms. */
  lemma {:induction false} SlotAccounting(r: Report, ts: seq<u64>)
    requires Rising(ts) && ts != []
    ensures var s := RunSlot(NewSlot(r), ts); var c := s.total;
      && s.lastTs == ts[|ts| - 1]
      && c.count == |ts| == 1 + c.ivCount + c.gaps
      && c.sumIv + GapTime(ts) == ts[|ts| - 1] - ts[0]
      && Extremes(c)
  {
    var p := ts[..|ts| - 1];
    if p == [] {
      assert ts == [ts[0]];
    } else {
      SlotAccounting(r, p);
      var c := RunSlot(NewSlot(r), p).total;
      ExtremesKept(c, ts[|ts| - 1] - ts[|ts| - 2]);
    }
  }

  // ---- the meter over a run of all endpoints ----

  /** The slots after reports `rs`, of whatever endpoints, their open windows aside. */
  function RunTable(rs: seq<Report>): seq<Slot> {
    if rs == [] then [] else StepTable(RunTable(rs[..|rs| - 1]), rs[|rs| - 1])
  }

  predicate SameSource(a: Report, b: Report) {
    a.bus == b.bus && a.dev == b.dev && a.ep == b.ep
  }

  /** The incoming URBs of the endpoint of `e`, failed ones included. */
  function Own(rs: seq<Report>, e: Report): seq<Report> {
    if rs == [] then []
    else
      var p, r := Own(rs[..|rs| - 1], e), rs[|rs| - 1];
      if r.dirIn && SameSource(r, e) then p + [r] else p
  }

  /** One endpoint alone: its first URB creates the slot, every one is noted. */
  function OwnSlot(own: seq<Report>): Slot
    requires own != []
  {
    var r := own[|own| - 1];
    Bare(Noted(if |own| == 1 then NewSlot(r) else OwnSlot(own[..|own| - 1]), r))
  }

  ghost predicate Apart(ss: seq<Slot>) {
    forall i, j :: 0 <= i < j < |ss| ==> !(ss[i].bus == ss[j].bus && ss[i].dev == ss[j].dev && ss[i].ep == ss[j].ep)
  }

  lemma {:induction false} TableApart(rs: seq<Report>)
    ensures Apart(RunTable(rs)) && |RunTable(rs)| <= RATE_SLOTS
  {
    if rs != [] {
      TableApart(rs[..|rs| - 1]);
    }
  }

  /** An endpoint has a slot from its first incoming URB on, or never because all 16 were taken by then; what
      the slot has counted is unaffected by other endpoints and by flushes. */
  lemma {:induction false} EndpointRun(rs: seq<Report>, e: Report)
    ensures var ss, own := RunTable(rs), Own(rs, e); var i := FirstOf(ss, e, 0);
      if i < |ss| then own != [] && ss[i] == OwnSlot(own) else own == [] || |ss| >= 16
  {
    if rs != [] {
      var p, r := rs[..|rs| - 1], rs[|rs| - 1];
      EndpointRun(p, e);
      TableApart(p);
      EndpointStep(RunTable(p), Own(p, e), r, e);
    }
  }

  lemma EndpointStep(ss: seq<Slot>, own: seq<Report>, r: Report, e: Report)
    requires Apart(ss) && |ss| <= RATE_SLOTS
    requires var i := FirstOf(ss, e, 0);
      if i < |ss| then own != [] && ss[i] == OwnSlot(own) else own == [] || |ss| >= RATE_SLOTS
    ensures var t := StepTable(ss, r); var i := FirstOf(t, e, 0);
      var next := if r.dirIn && SameSource(r, e) then own + [r] else own;
      if i < |t| then next != [] && t[i] == OwnSlot(next) else next == [] || |t| >= RATE_SLOTS
  {
    var t := StepTable(ss, r);
    var i := FirstOf(ss, e, 0);
    if i < |ss| {
      FirstIs(t, e, i);
      if r.dirIn && SameSource(r, e) {
        FirstIs(ss, r, i);
        assert (own + [r])[..|own|] == own;
      }
    } else if r.dirIn && SameSource(r, e) {
      FirstIs(ss, r, |ss|);
      if |ss| < RATE_SLOTS {
        FirstIs(t, e, |ss|);
        assert own + [r] == [r];
      }
    } else if |t| > |ss| {
      FirstIs(t, e, |t|);
    } else {
      FirstIs(t, e, |ss|);
    }
  }

  /** The times of the reports among an endpoint's URBs: those that did not fail. */
  function Times(own: seq<Report>): seq<u64> {
    if own == [] then []
    else
      var p, r := Times(own[..|own| - 1]), own[|own| - 1];
      if r.status == 0 then p + [r.ts] else p
  }

  lemma {:induction false} OwnSlotRuns(own: seq<Report>)
    requires own != []
    ensures OwnSlot(own).total == RunSlot(NewSlot(own[0]), Times(own)).total
    ensures OwnSlot(own).lastTs == RunSlot(NewSlot(own[0]), Times(own)).lastTs
    ensures OwnSlot(own).errUrbs + |Times(own)| == |own|
  {
    var p, r := own[..|own| - 1], own[|own| - 1];
    if p == [] {
      assert Times(p) == [];
      assert Times(own) == if r.status == 0 then [r.ts] else [];
      if r.status == 0 {
        assert [r.ts][..0] == [];
      }
    } else {
      OwnSlotRuns(p);
      if r.status == 0 {
        assert Times(own)[..|Times(p)|] == Times(p);
      }
    }
  }

  /** The accounting of any endpoint with a slot, in any run with any other endpoints, failed URBs and
      flushes, provided its own reports come at rising times. */
  lemma EndpointAccounting(rs: seq<Report>, e: Report)
    requires FirstOf(RunTable(rs), e, 0) < |RunTable(rs)|
    requires Rising(Times(Own(rs, e))) && Times(Own(rs, e)) != []
    ensures var s, ts := RunTable(rs)[FirstOf(RunTable(rs), e, 0)], Times(Own(rs, e)); var c := s.total;
      && s.lastTs == ts[|ts| - 1] && s.errUrbs + |ts| == |Own(rs, e)|
      && c.count == |ts| == 1 + c.ivCount + c.gaps
      && c.sumIv + GapTime(ts) == ts[|ts| - 1] - ts[0]
      && Extremes(c)
  {
    EndpointRun(rs, e);
    OwnSlotRuns(Own(rs, e));
    SlotAccounting(Own(rs, e)[0], Times(Own(rs, e)));
  }

  /** Every printed line and every open window shows extremes of intervals, whatever the arrival order:
      min*n <= sum <= max*n, and max <= 50 ms. */
  lemma PrintedExtremes(m: Meter)
    requires m.Valid()
    ensures forall l :: l in m.lines ==> Extremes(l.win)
    ensures forall i :: 0 <= i < m.nslots ==> Extremes(m.slots[i].win) && Extremes(m.slots[i].total)
  {
  }

  /** And the printed lines account for it: what they say of the endpoint, plus the window still open, is one
      report more than its intervals and gaps, and its intervals and gap time add up to the time from its
      first to its last report. */
  lemma PrintedLinesAccount(m: Meter, rs: seq<Report>, e: Report)
    requires m.Valid() && m.Totals() == RunTable(rs)
    requires FirstOf(RunTable(rs), e, 0) < |RunTable(rs)|
    requires Rising(Times(Own(rs, e))) && Times(Own(rs, e)) != []
    ensures var i := FirstOf(RunTable(rs), e, 0); var ts := Times(Own(rs, e));
      var p, w := Printed(m.lines, i), m.slots[i].win;
      && p.count + w.count == |ts| == 1 + (p.ivCount + w.ivCount) + (p.gaps + w.gaps)
      && p.sumIv + w.sumIv + GapTime(ts) == ts[|ts| - 1] - ts[0]
  {
    EndpointAccounting(rs, e);
    var i := FirstOf(RunTable(rs), e, 0);
    assert m.Totals()[i] == Bare(m.slots[i]) && Balanced(m.slots[i], m.lines, i);
  }
}
