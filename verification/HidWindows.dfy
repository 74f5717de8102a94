/** What the printed rate lines say: every line covers a stretch of consecutive reports of its endpoint, the
    stretches follow each other without gap or overlap up to the open window, and counts, sums and extremes are
    those of the intervals in them. */
module HidWindows {
  import opened Base
  import opened HidRate

  // ---- the counts of a stretch of reports ----

  /** Time from report `i - 1` to report `i`, zero for the first one and for times that do not rise. */
  function StepAt(ts: seq<u64>, i: nat): nat
    requires i < |ts|
  {
    if 0 < i && ts[i - 1] != 0 && ts[i - 1] < ts[i] then ts[i] - ts[i - 1] else 0
  }

  /** What reports `a` up to `b` add up to. */
  function CountsOf(ts: seq<u64>, a: nat, b: nat): Counts
    requires a <= b <= |ts|
  {
    if a == b then ZERO else AddReport(CountsOf(ts, a, b - 1), StepAt(ts, b - 1))
  }

  /** The reports of the stretch that end an interval of at most 50 ms. */
  ghost function Intervals(ts: seq<u64>, a: nat, b: nat): set<nat>
    requires a <= b <= |ts|
  {
    set i: nat | a <= i < b && 0 < StepAt(ts, i) <= 50_000_000
  }

  /** The reports of the stretch that end a longer silence. */
  ghost function Silences(ts: seq<u64>, a: nat, b: nat): set<nat>
    requires a <= b <= |ts|
  {
    set i: nat | a <= i < b && StepAt(ts, i) > 50_000_000
  }

  /** Report `i` of the stretch ends an interval of length `iv`. */
  ghost predicate Attained(ts: seq<u64>, a: nat, b: nat, iv: nat)
    requires a <= b <= |ts|
  {
    exists i :: i in Intervals(ts, a, b) && StepAt(ts, i) == iv
  }

  lemma StretchGrows(ts: seq<u64>, a: nat, b: nat)
    requires a < b <= |ts|
    ensures var iv := StepAt(ts, b - 1);
      && Intervals(ts, a, b) == Intervals(ts, a, b - 1) + (if 0 < iv <= 50_000_000 then {b - 1} else {})
      && Silences(ts, a, b) == Silences(ts, a, b - 1) + (if iv > 50_000_000 then {b - 1} else {})
      && b - 1 !in Intervals(ts, a, b - 1) && b - 1 !in Silences(ts, a, b - 1)
  {
  }

  /** Counts that mean what they are called: reports, intervals of at most 50 ms, longer silences; and the least and
      the greatest interval are intervals of the stretch, with all others between them. */
  ghost predicate Means(ts: seq<u64>, a: nat, b: nat, c: Counts)
    requires a <= b <= |ts|
  {
    && c.count == b - a && c.ivCount == |Intervals(ts, a, b)| && c.gaps == |Silences(ts, a, b)|
    && (forall i :: i in Intervals(ts, a, b) ==> c.minIv <= StepAt(ts, i) <= c.maxIv)
    && (if c.ivCount == 0 then c.minIv == 0 && c.maxIv == 0 && c.sumIv == 0
        else 0 < c.minIv && Attained(ts, a, b, c.minIv) && Attained(ts, a, b, c.maxIv))
  }

  lemma {:induction false} CountsMean(ts: seq<u64>, a: nat, b: nat)
    requires a <= b <= |ts|
    ensures Means(ts, a, b, CountsOf(ts, a, b))
  {
    hide Means;
    if a == b {
      NothingMeans(ts, a);
    } else {
      CountsMean(ts, a, b - 1);
      var iv, c := StepAt(ts, b - 1), CountsOf(ts, a, b - 1);
      if 0 < iv <= 50_000_000 {
        IntervalMeans(ts, a, b, c);
      } else {
        NoIntervalMeans(ts, a, b, c);
      }
    }
  }

  lemma NothingMeans(ts: seq<u64>, a: nat)
    requires a <= |ts|
    ensures Means(ts, a, a, ZERO)
  {
    assert Intervals(ts, a, a) == {} && Silences(ts, a, a) == {};
  }

  lemma NoIntervalMeans(ts: seq<u64>, a: nat, b: nat, c: Counts)
    requires a < b <= |ts| && Means(ts, a, b - 1, c) && !(0 < StepAt(ts, b - 1) <= 50_000_000)
    ensures Means(ts, a, b, AddReport(c, StepAt(ts, b - 1)))
  {
    StretchGrows(ts, a, b);
    assert Intervals(ts, a, b) == Intervals(ts, a, b - 1);
    hide Intervals, Silences, StepAt;
  }

  lemma IntervalMeans(ts: seq<u64>, a: nat, b: nat, c: Counts)
    requires a < b <= |ts| && Means(ts, a, b - 1, c) && 0 < StepAt(ts, b - 1) <= 50_000_000
    ensures Means(ts, a, b, AddReport(c, StepAt(ts, b - 1)))
  {
    StretchGrows(ts, a, b);
    AttainedGrows(ts, a, b, c.minIv);
    AttainedGrows(ts, a, b, c.maxIv);
    if c.ivCount == 0 {
      assert Intervals(ts, a, b - 1) == {};
    }
    hide Intervals, Silences, StepAt, Attained;
  }

  lemma AttainedGrows(ts: seq<u64>, a: nat, b: nat, iv: nat)
    requires a < b <= |ts| && 0 < StepAt(ts, b - 1) <= 50_000_000
    ensures Attained(ts, a, b - 1, iv) ==> Attained(ts, a, b, iv)
    ensures Attained(ts, a, b, StepAt(ts, b - 1))
  {
    StretchGrows(ts, a, b);
    assert b - 1 in Intervals(ts, a, b);
  }

  lemma {:induction false} CountsOfPrefix(ts: seq<u64>, t: u64, a: nat, b: nat)
    requires a <= b <= |ts|
    ensures CountsOf(ts + [t], a, b) == CountsOf(ts, a, b)
  {
    if a < b {
      CountsOfPrefix(ts, t, a, b - 1);
      assert StepAt(ts + [t], b - 1) == StepAt(ts, b - 1);
    }
  }

  /** Time from report `i` to the next. */
  function Gap(ts: seq<u64>, i: nat): int
    requires i + 1 < |ts|
  {
    ts[i + 1] as int - ts[i] as int
  }

  /** Two consecutive reports are `iv` apart. */
  ghost predicate IsStep(ts: seq<u64>, iv: int) {
    exists i :: 0 <= i < |ts| - 1 && Gap(ts, i) == iv
  }

  /** Every step of at most 50 ms lies between `lo` and `hi`. */
  ghost predicate StepsWithin(ts: seq<u64>, lo: int, hi: int) {
    forall i :: 0 <= i < |ts| - 1 && Gap(ts, i) <= 50_000_000 ==> lo <= Gap(ts, i) <= hi
  }

  /** For rising times, in terms of the times themselves: the extremes of an endpoint's totals are steps between
      consecutive reports, and every step of at most 50 ms lies between them. */
  lemma ExtremesAttained(ts: seq<u64>)
    requires Rising(ts) && CountsOf(ts, 0, |ts|).ivCount > 0
    ensures var c := CountsOf(ts, 0, |ts|);
      IsStep(ts, c.minIv) && IsStep(ts, c.maxIv) && StepsWithin(ts, c.minIv, c.maxIv)
  {
    CountsMean(ts, 0, |ts|);
    MeansSteps(ts, CountsOf(ts, 0, |ts|));
  }

  lemma MeansSteps(ts: seq<u64>, c: Counts)
    requires Rising(ts) && Means(ts, 0, |ts|, c) && c.ivCount > 0
    ensures IsStep(ts, c.minIv) && IsStep(ts, c.maxIv) && StepsWithin(ts, c.minIv, c.maxIv)
  {
    AttainedIsStep(ts, c.minIv);
    AttainedIsStep(ts, c.maxIv);
    forall i | 0 <= i < |ts| - 1 && Gap(ts, i) <= 50_000_000 ensures c.minIv <= Gap(ts, i) <= c.maxIv {
      assert StepAt(ts, i + 1) == Gap(ts, i);
      assert i + 1 in Intervals(ts, 0, |ts|);
    }
  }

  lemma AttainedIsStep(ts: seq<u64>, iv: nat)
    requires Rising(ts)
    ensures Attained(ts, 0, |ts|, iv) ==> IsStep(ts, iv)
  {
    if Attained(ts, 0, |ts|, iv) {
      var x :| x in Intervals(ts, 0, |ts|) && StepAt(ts, x) == iv;
      assert Gap(ts, x - 1) == iv;
    }
  }

  /** Time in the silences of the stretch. */
  function SilenceTime(ts: seq<u64>, a: nat, b: nat): nat
    requires a <= b <= |ts|
  {
    if a == b then 0
    else SilenceTime(ts, a, b - 1) + if StepAt(ts, b - 1) > 50_000_000 then StepAt(ts, b - 1) else 0
  }

  /** For rising times the sum of a stretch and the time in its silences make up the time from the report before
      the stretch, or its first if there is none, to its last. */
  lemma {:induction false} SumTelescopes(ts: seq<u64>, a: nat, b: nat)
    requires Rising(ts) && a < b <= |ts|
    ensures CountsOf(ts, a, b).sumIv + SilenceTime(ts, a, b) == ts[b - 1] - ts[if a == 0 then 0 else a - 1]
  {
    assert CountsOf(ts, a, a) == ZERO && SilenceTime(ts, a, a) == 0;
    if a < b - 1 {
      SumTelescopes(ts, a, b - 1);
    }
  }

  // ---- a run of the meter ----

  function RunMeter(rateNs: u64, rs: seq<Report>): Snap {
    if rs == [] then Snap([], 0, []) else StepMeter(rateNs, RunMeter(rateNs, rs[..|rs| - 1]), rs[|rs| - 1])
  }

  /** A URB of the slot's endpoint. */
  function UrbOf(s: Slot): Report {
    Report(s.bus, s.dev, s.ep, s.vid, s.product, true, 0, 0)
  }

  /** The times of the good reports of the slot's endpoint. */
  function TimesOf(rs: seq<Report>, s: Slot): seq<u64> {
    Times(Own(rs, UrbOf(s)))
  }

  /** The slot's open window starts behind report `from`, its totals with the first. */
  ghost predicate SlotOk(ts: seq<u64>, s: Slot, from: nat) {
    && from <= |ts| && s.win == CountsOf(ts, from, |ts|) && s.total == CountsOf(ts, 0, |ts|)
    && s.lastTs == if ts == [] then 0 else ts[|ts| - 1]
  }

  /** The line covers the reports from number `from` on. */
  ghost predicate LineOk(ts: seq<u64>, l: Line, from: nat) {
    0 < l.win.count && from + l.win.count <= |ts| && l.win == CountsOf(ts, from, from + l.win.count)
  }

  /** Each line of a slot covers the reports behind those that the slot's earlier lines cover. */
  ghost predicate LineFollows(rs: seq<Report>, m: Snap, x: nat)
    requires x < |m.lines|
  {
    var l := m.lines[x];
    l.slot < |m.slots| && LineOk(TimesOf(rs, m.slots[l.slot]), l, Printed(m.lines[..x], l.slot).count)
  }

  /** And the open window covers the rest. */
  ghost predicate SlotFollows(rs: seq<Report>, m: Snap, j: nat)
    requires j < |m.slots|
  {
    SlotOk(TimesOf(rs, m.slots[j]), m.slots[j], Printed(m.lines, j).count)
  }

  ghost predicate Covered(rs: seq<Report>, m: Snap) {
    && AllBare(m.slots) == RunTable(rs)
    && (forall j :: 0 <= j < |m.slots| ==> SlotFollows(rs, m, j))
    && (forall x :: 0 <= x < |m.lines| ==> LineFollows(rs, m, x))
  }

  // ---- one report ----

  lemma OwnNext(rs: seq<Report>, r: Report, e: Report)
    ensures Times(Own(rs + [r], e))
         == if r.dirIn && SameSource(r, e) && r.status == 0 then Times(Own(rs, e)) + [r.ts] else Times(Own(rs, e))
  {
    assert (rs + [r])[..|rs|] == rs;
    var own := Own(rs, e);
    assert (own + [r])[..|own|] == own;
  }

  lemma NotedOk(ts: seq<u64>, s: Slot, from: nat, r: Report)
    requires SlotOk(ts, s, from)
    ensures SlotOk(if r.status == 0 then ts + [r.ts] else ts, Noted(s, r), from)
  {
    if r.status == 0 {
      var us := ts + [r.ts];
      CountsOfPrefix(ts, r.ts, from, |ts|);
      CountsOfPrefix(ts, r.ts, 0, |ts|);
      assert StepAt(us, |ts|) == Elapsed(s, r.ts);
    }
  }

  lemma LineStays(ts: seq<u64>, t: u64, l: Line, from: nat)
    requires LineOk(ts, l, from)
    ensures LineOk(ts + [t], l, from)
  {
    CountsOfPrefix(ts, t, from, from + l.win.count);
  }

  lemma SameSlotTimes(rs: seq<Report>, a: Slot, b: Slot)
    requires a.bus == b.bus && a.dev == b.dev && a.ep == b.ep
    ensures TimesOf(rs, a) == TimesOf(rs, b)
  {
    SameOwn(rs, UrbOf(a), UrbOf(b));
  }

  lemma {:induction false} SameOwn(rs: seq<Report>, a: Report, b: Report)
    requires SameSource(a, b)
    ensures Own(rs, a) == Own(rs, b)
  {
    if rs != [] {
      SameOwn(rs[..|rs| - 1], a, b);
    }
  }

  /** The slot that takes the report is the only one of its endpoint. */
  lemma OnlyTaker(rs: seq<Report>, m: Snap, r: Report, j: nat)
    requires AllBare(m.slots) == RunTable(rs) && j < |m.slots|
    ensures SameEndpoint(m.slots[j], r) <==> FirstOf(m.slots, r, 0) == j
  {
    TableApart(rs);
    var f := FirstOf(m.slots, r, 0);
    if SameEndpoint(m.slots[j], r) && f < j {
      assert AllBare(m.slots)[f] == Bare(m.slots[f]) && AllBare(m.slots)[j] == Bare(m.slots[j]);
    }
  }

  lemma SlotNoted(rs: seq<Report>, m: Snap, r: Report, j: nat)
    requires Covered(rs, m) && j < |m.slots|
    ensures j < |Note(m.slots, r)|
    ensures SlotFollows(rs + [r], m.(slots := Note(m.slots, r)), j)
  {
    var s, t := m.slots[j], Note(m.slots, r)[j];
    assert SlotFollows(rs, m, j);
    OnlyTaker(rs, m, r, j);
    OwnNext(rs, r, UrbOf(s));
    SameSlotTimes(rs + [r], s, t);
    if r.dirIn && FirstOf(m.slots, r, 0) == j {
      NotedOk(TimesOf(rs, s), s, Printed(m.lines, j).count, r);
    }
  }

  lemma SlotCreated(rs: seq<Report>, m: Snap, r: Report)
    requires Covered(rs, m) && |Note(m.slots, r)| > |m.slots|
    ensures |Note(m.slots, r)| == |m.slots| + 1
    ensures SlotFollows(rs + [r], m.(slots := Note(m.slots, r)), |m.slots|)
  {
    var n := |m.slots|;
    var t := Note(m.slots, r)[n];
    forall l | l in m.lines ensures l.slot < n {
      var x :| 0 <= x < |m.lines| && m.lines[x] == l;
      assert LineFollows(rs, m, x);
    }
    PrintedNone(m.lines, n);
    EndpointRun(rs, r);
    FirstIs(RunTable(rs), r, n);
    SameOwn(rs, r, UrbOf(t));
    OwnNext(rs, r, UrbOf(t));
    assert Times([]) == [];
    NotedOk([], NewSlot(r), 0, r);
  }

  lemma LineNoted(rs: seq<Report>, m: Snap, r: Report, x: nat)
    requires Covered(rs, m) && x < |m.lines|
    ensures LineFollows(rs + [r], m.(slots := Note(m.slots, r)), x)
  {
    assert LineFollows(rs, m, x);
    var l := m.lines[x];
    var s := m.slots[l.slot];
    OwnNext(rs, r, UrbOf(s));
    SameSlotTimes(rs + [r], s, Note(m.slots, r)[l.slot]);
    if r.dirIn && SameSource(r, UrbOf(s)) && r.status == 0 {
      LineStays(TimesOf(rs, s), r.ts, l, Printed(m.lines[..x], l.slot).count);
    }
  }

  lemma NoteCovers(rs: seq<Report>, m: Snap, r: Report)
    requires Covered(rs, m)
    ensures Covered(rs + [r], m.(slots := Note(m.slots, r)))
  {
    var n := m.(slots := Note(m.slots, r));
    assert (rs + [r])[..|rs|] == rs;
    NoteTotals(m.slots, r);
    forall j | 0 <= j < |n.slots| ensures SlotFollows(rs + [r], n, j) {
      if j < |m.slots| {
        SlotNoted(rs, m, r, j);
      } else {
        SlotCreated(rs, m, r);
      }
    }
    forall x | 0 <= x < |n.lines| ensures LineFollows(rs + [r], n, x) {
      LineNoted(rs, m, r, x);
    }
  }

  // ---- a flush ----

  /** A flush prints slots in order, each at most once and with its own window. */
  lemma {:induction false} LineAt(ss: seq<Slot>, span: nat, final: bool, y: nat)
    requires y < |LinesOf(ss, span, final)|
    ensures var ls := LinesOf(ss, span, final);
      && ls[y].slot < |ss| && ls[y].win == ss[ls[y].slot].win && ls[y].win.count != 0
      && forall z :: 0 <= z < y ==> ls[z].slot < ls[y].slot
  {
    var p := ss[..|ss| - 1];
    var ls := LinesOf(p, span, final);
    if y < |ls| {
      LineAt(p, span, final, y);
    } else {
      LinesAre(p, span, final);
      forall z | 0 <= z < y ensures ls[z].slot < |p| {
        assert ls[z] in ls;
      }
    }
  }

  lemma {:induction false} PrintedUnaffected(ls: seq<Line>, more: seq<Line>, j: nat)
    requires forall l :: l in more ==> l.slot != j
    ensures Printed(ls + more, j) == Printed(ls, j)
    decreases |more|
  {
    if more == [] {
      assert ls + more == ls;
    } else {
      PrintedUnaffected(ls, more[..|more| - 1], j);
      assert (ls + more)[..|ls + more| - 1] == ls + more[..|more| - 1];
    }
  }

  /** After a flush the lines of a slot cover its window, too. */
  lemma {:induction false} PrintedFlush(ls: seq<Line>, ss: seq<Slot>, span: nat, final: bool, j: nat)
    ensures Printed(ls + LinesOf(ss, span, final), j).count
         == Printed(ls, j).count + if j < |ss| then ss[j].win.count else 0
  {
    if ss == [] {
      assert ls + LinesOf(ss, span, final) == ls;
    } else {
      var p, s := ss[..|ss| - 1], ss[|ss| - 1];
      PrintedFlush(ls, p, span, final, j);
      var was := LinesOf(p, span, final);
      if s.win.count != 0 {
        var l := Line(|ss| - 1, s.win, span, final);
        assert ls + (was + [l]) == (ls + was) + [l];
        PrintedAppend(ls + was, l, j);
      }
    }
  }

  lemma SlotFlushed(rs: seq<Report>, m: Snap, span: nat, final: bool, start: u64, j: nat)
    requires Covered(rs, m) && j < |m.slots|
    ensures SlotFollows(rs, Snap(AllBare(m.slots), start, m.lines + LinesOf(m.slots, span, final)), j)
  {
    assert SlotFollows(rs, m, j);
    var s := m.slots[j];
    var ts := TimesOf(rs, s);
    CountsMean(ts, Printed(m.lines, j).count, |ts|);
    PrintedFlush(m.lines, m.slots, span, final, j);
    SameSlotTimes(rs, s, Bare(s));
    assert AllBare(m.slots)[j] == Bare(s) && CountsOf(ts, |ts|, |ts|) == ZERO;
  }

  lemma LineFlushed(rs: seq<Report>, m: Snap, span: nat, final: bool, start: u64, x: nat)
    requires Covered(rs, m) && x < |m.lines + LinesOf(m.slots, span, final)|
    ensures LineFollows(rs, Snap(AllBare(m.slots), start, m.lines + LinesOf(m.slots, span, final)), x)
  {
    var more := LinesOf(m.slots, span, final);
    var all := m.lines + more;
    if x < |m.lines| {
      assert LineFollows(rs, m, x);
      assert all[..x] == m.lines[..x];
      var j := m.lines[x].slot;
      SameSlotTimes(rs, m.slots[j], Bare(m.slots[j]));
    } else {
      var y := x - |m.lines|;
      LineAt(m.slots, span, final, y);
      var j := more[y].slot;
      assert all[..x] == m.lines + more[..y];
      forall l | l in more[..y] ensures l.slot != j {
        var z :| 0 <= z < y && more[z] == l;
      }
      PrintedUnaffected(m.lines, more[..y], j);
      assert SlotFollows(rs, m, j);
      var ts := TimesOf(rs, m.slots[j]);
      CountsMean(ts, Printed(m.lines, j).count, |ts|);
      SameSlotTimes(rs, m.slots[j], Bare(m.slots[j]));
    }
  }

  lemma FlushCovers(rs: seq<Report>, m: Snap, span: nat, final: bool, start: u64)
    requires Covered(rs, m)
    ensures Covered(rs, Snap(AllBare(m.slots), start, m.lines + LinesOf(m.slots, span, final)))
  {
    var n := Snap(AllBare(m.slots), start, m.lines + LinesOf(m.slots, span, final));
    AllBareTwice(m.slots);
    forall j | 0 <= j < |n.slots| ensures SlotFollows(rs, n, j) {
      SlotFlushed(rs, m, span, final, start, j);
    }
    forall x | 0 <= x < |n.lines| ensures LineFollows(rs, n, x) {
      LineFlushed(rs, m, span, final, start, x);
    }
  }

  // ---- whole runs ----

  /** In every run the lines of an endpoint, and its open window behind them, cover all its good reports: each
      exactly once, in order, and with the counts of just those reports. */
  lemma {:induction false} WindowsCover(rateNs: u64, rs: seq<Report>)
    ensures Covered(rs, RunMeter(rateNs, rs))
  {
    if rs != [] {
      var p, r := rs[..|rs| - 1], rs[|rs| - 1];
      WindowsCover(rateNs, p);
      assert p + [r] == rs;
      StepCovers(rateNs, p, RunMeter(rateNs, p), r);
    }
  }

  lemma StepCovers(rateNs: u64, rs: seq<Report>, m: Snap, r: Report)
    requires Covered(rs, m)
    ensures Covered(rs + [r], StepMeter(rateNs, m, r))
  {
    hide Covered, Note, LinesOf, AllBare, IsGood;
    NoteCovers(rs, m, r);
    var n := m.(slots := Note(m.slots, r));
    var start := if n.start == 0 then r.ts else n.start;
    if 0 < start < r.ts && r.ts - start >= rateNs {
      FlushCovers(rs + [r], n, r.ts - start, false, r.ts);
    } else {
      StartIsFree(rs + [r], n, start);
    }
  }

  lemma StartIsFree(rs: seq<Report>, m: Snap, start: u64)
    requires Covered(rs, m)
    ensures Covered(rs, m.(start := start))
  {
    var n := m.(start := start);
    forall j | 0 <= j < |n.slots| ensures SlotFollows(rs, n, j) { assert SlotFollows(rs, m, j); }
    forall x | 0 <= x < |n.lines| ensures LineFollows(rs, n, x) { assert LineFollows(rs, m, x); }
  }

  /** The final flush included. */
  lemma StopCovers(rateNs: u64, rs: seq<Report>)
    ensures Covered(rs, StopMeter(rateNs, RunMeter(rateNs, rs)))
  {
    hide Covered, RunMeter, LinesOf, AllBare, Latest;
    WindowsCover(rateNs, rs);
    var m := RunMeter(rateNs, rs);
    FlushCovers(rs, m, Max(0, Latest(m.slots) - m.start), true, Latest(m.slots));
  }

  /** What one printed line says: for a stretch of consecutive good reports of its endpoint, how many reports,
      intervals and silences there were, and the least and greatest interval, which did occur. */
  lemma PrintedLineMeans(rateNs: u64, rs: seq<Report>, x: nat) returns (a: nat)
    requires x < |StopMeter(rateNs, RunMeter(rateNs, rs)).lines|
    ensures var m := StopMeter(rateNs, RunMeter(rateNs, rs)); var l := m.lines[x];
      && l.slot < |m.slots|
      && var ts, b := TimesOf(rs, m.slots[l.slot]), a + l.win.count;
      && a < b <= |ts| && a == Printed(m.lines[..x], l.slot).count
      && Means(ts, a, b, l.win)
  {
    var m := StopMeter(rateNs, RunMeter(rateNs, rs));
    StopCovers(rateNs, rs);
    assert LineFollows(rs, m, x);
    var l := m.lines[x];
    a := Printed(m.lines[..x], l.slot).count;
    CountsMean(TimesOf(rs, m.slots[l.slot]), a, a + l.win.count);
  }

  /** The extremes printed in the summary of an endpoint: for rising times, steps between its reports. */
  lemma EndpointExtremes(rateNs: u64, rs: seq<Report>, j: nat)
    requires j < |RunMeter(rateNs, rs).slots|
    requires var s := RunMeter(rateNs, rs).slots[j]; Rising(TimesOf(rs, s)) && s.total.ivCount > 0
    ensures var s := RunMeter(rateNs, rs).slots[j]; var ts := TimesOf(rs, s);
      && IsStep(ts, s.total.minIv) && IsStep(ts, s.total.maxIv) && StepsWithin(ts, s.total.minIv, s.total.maxIv)
  {
    WindowsCover(rateNs, rs);
    assert SlotFollows(rs, RunMeter(rateNs, rs), j);
    ExtremesAttained(TimesOf(rs, RunMeter(rateNs, rs).slots[j]));
  }

  // ---- when windows close ----

  /** A window closes as soon as it is a period old and not before: after a good report the open window started
      less than a period before it; if that report printed anything, the window was at least a period old, every
      line shows its age, and the next one starts with the report. The start never goes back. */
  lemma WindowsRoll(rateNs: u64, m: Snap, r: Report)
    requires 0 < rateNs && IsGood(Note(m.slots, r), r)
    ensures var n := StepMeter(rateNs, m, r);
      && m.start <= n.start && (r.ts > 0 ==> 0 < n.start) && r.ts < n.start + rateNs
      && (m.start == 0 ==> n.start == r.ts && n.lines == m.lines)
      && (m.start < r.ts < m.start + rateNs ==> m.start == 0 || (n.start == m.start && n.lines == m.lines))
      && (0 < m.start && m.start + rateNs <= r.ts ==>
            n.start == r.ts && forall j :: 0 <= j < |n.slots| ==> n.slots[j].win == ZERO)
      && m.lines <= n.lines
      && forall x :: |m.lines| <= x < |n.lines| ==>
           n.lines[x].span == r.ts - m.start >= rateNs && !n.lines[x].final
  {
    var n := m.(slots := Note(m.slots, r));
    LinesAre(n.slots, if m.start <= r.ts then r.ts - m.start else 0, false);
    var x := StepMeter(rateNs, m, r).lines;
    forall y | |m.lines| <= y < |x| ensures x[y] in x[|m.lines|..] {
      assert x[y] == x[|m.lines|..][y - |m.lines|];
    }
  }

  /** The last report of any slot. */
  lemma {:induction false} LatestMeans(ss: seq<Slot>)
    ensures forall j :: 0 <= j < |ss| ==> ss[j].lastTs <= Latest(ss)
    ensures ss != [] ==> exists j :: 0 <= j < |ss| && ss[j].lastTs == Latest(ss)
  {
    if ss != [] {
      var p, n := ss[..|ss| - 1], |ss| - 1;
      LatestMeans(p);
      if p != [] {
        var j :| 0 <= j < |p| && p[j].lastTs == Latest(p);
        assert ss[j].lastTs == Latest(ss) || ss[n].lastTs == Latest(ss);
      } else {
        assert ss[n].lastTs == Latest(ss);
      }
    }
  }
}
