/** The assembler refines a pure cut of the packet sequence, and conserves what it is given. */
module UvcCut {
  import opened Base
  import opened UvcFrames

  /** A closed frame: its payloads, and every packet whose status was charged to it. */
  datatype Piece = Piece(pays: seq<Payload>, charged: seq<Packet>)

  /** The packets so far, cut into closed frames, an open frame, and the packets not yet charged. */
  datatype Cut = Cut(closed: seq<Piece>, open: seq<Payload>, pending: seq<Packet>)

  function Close(c: Cut): Cut {
    Cut(c.closed + [Piece(c.open, c.pending)], [], [])
  }

  function CutPayload(c: Cut, p: Payload): Cut {
    var d := if c.open != [] && c.open[0].fid != p.fid then Close(c) else c;
    var e := d.(open := d.open + [p]);
    if p.eof then Close(e) else e
  }

  /** One more packet: its status is charged before its payload is looked at. */
  function CutNext(c: Cut, k: Packet): Cut {
    var d := c.(pending := c.pending + [k]);
    if k.payload.Some? then CutPayload(d, k.payload.value) else d
  }

  function CutAll(ks: seq<Packet>): Cut {
    if ks == [] then Cut([], [], []) else CutNext(CutAll(ks[..|ks| - 1]), ks[|ks| - 1])
  }

  // ---- what the cut is ----

  function Payloads(ks: seq<Packet>): seq<Payload> {
    if ks == [] then []
    else
      var k := ks[|ks| - 1];
      Payloads(ks[..|ks| - 1]) + if k.payload.Some? then [k.payload.value] else []
  }

  function Join(segs: seq<seq<Payload>>): seq<Payload> {
    if segs == [] then [] else Join(segs[..|segs| - 1]) + segs[|segs| - 1]
  }

  function JoinCharged(ps: seq<Piece>): seq<Packet> {
    if ps == [] then [] else JoinCharged(ps[..|ps| - 1]) + ps[|ps| - 1].charged
  }

  function Segments(ps: seq<Piece>): seq<seq<Payload>> {
    seq(|ps|, i requires 0 <= i < |ps| => ps[i].pays)
  }

  /** All of one frame id, and no end of frame before the last. */
  ghost predicate Whole(seg: seq<Payload>) {
    && (forall i :: 0 <= i < |seg| ==> seg[i].fid == seg[0].fid)
    && (forall i :: 0 <= i < |seg| - 1 ==> !seg[i].eof)
  }

  predicate EndsWithEof(seg: seq<Payload>) {
    seg != [] && seg[|seg| - 1].eof
  }

  /** A segment without an end of frame is followed by a payload of the other frame id. */
  ghost predicate Chained(segs: seq<seq<Payload>>, open: seq<Payload>) {
    forall j :: 0 <= j < |segs| && !EndsWithEof(segs[j]) ==> Toggled(segs[j], Next(segs, open, j))
  }

  ghost predicate Toggled(seg: seq<Payload>, next: seq<Payload>) {
    seg != [] && next != [] && next[0].fid != seg[0].fid
  }

  function Next(segs: seq<seq<Payload>>, open: seq<Payload>, j: nat): seq<Payload>
    requires j < |segs|
  {
    if j + 1 < |segs| then segs[j + 1] else open
  }

  ghost predicate AllWhole(segs: seq<seq<Payload>>) {
    forall j :: 0 <= j < |segs| ==> segs[j] != [] && Whole(segs[j])
  }

  /** The segmentation the payload header bits call for: frames are maximal runs of one frame id that end
      at an end-of-frame bit; a frame without one is followed by a payload of the other id. */
  ghost predicate IsCut(pays: seq<Payload>, segs: seq<seq<Payload>>, open: seq<Payload>) {
    && Join(segs) + open == pays
    && AllWhole(segs) && Whole(open) && !EndsWithEof(open)
    && Chained(segs, open)
  }

  lemma SegmentsAppend(ps: seq<Piece>, p: Piece)
    ensures Segments(ps + [p]) == Segments(ps) + [p.pays]
  {
  }

  lemma ChainClose(segs: seq<seq<Payload>>, open: seq<Payload>, next: seq<Payload>)
    requires Chained(segs, open) && open != [] && (EndsWithEof(open) || Toggled(open, next))
    ensures Chained(segs + [open], next)
  {
    var t := segs + [open];
    forall j | 0 <= j < |t| && !EndsWithEof(t[j]) ensures Toggled(t[j], Next(t, next, j)) {
      if j < |segs| {
        assert t[j] == segs[j] && Next(t, next, j) == Next(segs, open, j);
      }
    }
  }

  lemma ChainExtend(segs: seq<seq<Payload>>, open: seq<Payload>, p: Payload)
    requires Chained(segs, open)
    ensures Chained(segs, open + [p])
  {
    forall j | 0 <= j < |segs| && !EndsWithEof(segs[j]) ensures Toggled(segs[j], Next(segs, open + [p], j)) {
      assert Toggled(segs[j], Next(segs, open, j));
    }
  }

  datatype Split = Split(segs: seq<seq<Payload>>, open: seq<Payload>)

  function CloseSplit(s: Split): Split {
    Split(s.segs + [s.open], [])
  }

  function ExtendSplit(s: Split, p: Payload): Split {
    var d := if s.open != [] && s.open[0].fid != p.fid then CloseSplit(s) else s;
    var e := Split(d.segs, d.open + [p]);
    if p.eof then CloseSplit(e) else e
  }

  /** The open frame takes one more payload of its own id. */
  lemma ExtendOpen(pays: seq<Payload>, s: Split, p: Payload)
    requires Join(s.segs) + s.open == pays && AllWhole(s.segs) && Whole(s.open) && !EndsWithEof(s.open)
    requires Chained(s.segs, s.open + [p]) && (s.open == [] || s.open[0].fid == p.fid)
    ensures var d := Split(s.segs, s.open + [p]); var e := if p.eof then CloseSplit(d) else d;
      IsCut(pays + [p], e.segs, e.open)
  {
    var open := s.open + [p];
    assert Join(s.segs) + open == pays + [p];
    WholeExtend(s.open, p);
    if p.eof {
      CloseIsCut(pays + [p], s.segs, open);
    }
  }

  lemma WholeExtend(open: seq<Payload>, p: Payload)
    requires Whole(open) && !EndsWithEof(open) && (open == [] || open[0].fid == p.fid)
    ensures Whole(open + [p])
  {
  }

  lemma CloseIsCut(pays: seq<Payload>, segs: seq<seq<Payload>>, open: seq<Payload>)
    requires Join(segs) + open == pays && AllWhole(segs) && Whole(open) && EndsWithEof(open) && Chained(segs, open)
    ensures IsCut(pays, segs + [open], [])
  {
    JoinAppend(segs, open);
    ChainClose(segs, open, []);
  }

  lemma JoinAppend(segs: seq<seq<Payload>>, seg: seq<Payload>)
    ensures Join(segs + [seg]) == Join(segs) + seg
  {
    assert (segs + [seg])[..|segs|] == segs;
  }

  lemma ExtendCut(pays: seq<Payload>, s: Split, p: Payload)
    requires IsCut(pays, s.segs, s.open)
    ensures var d := ExtendSplit(s, p); IsCut(pays + [p], d.segs, d.open)
  {
    hide *;
    CutParts(pays, s);
    if s.open != [] && s.open[0].fid != p.fid {
      ToggleParts(s, p);
      assert [] + [p] == [p];
      ExtendOpen(pays, CloseSplit(s), p);
      ToggledSplit(s, p);
    } else {
      ChainExtend(s.segs, s.open, p);
      ExtendOpen(pays, s, p);
      SameSplit(s, p);
    }
  }

  lemma CutParts(pays: seq<Payload>, s: Split)
    requires IsCut(pays, s.segs, s.open)
    ensures Join(s.segs) + s.open == pays && AllWhole(s.segs) && Whole(s.open) && !EndsWithEof(s.open)
    ensures Chained(s.segs, s.open)
  {
  }

  lemma ToggleParts(s: Split, p: Payload)
    requires AllWhole(s.segs) && Whole(s.open) && Chained(s.segs, s.open)
    requires s.open != [] && s.open[0].fid != p.fid
    ensures var c := CloseSplit(s);
      && c.open == [] && AllWhole(c.segs) && Whole(c.open) && !EndsWithEof(c.open) && Chained(c.segs, [p])
      && Join(c.segs) + c.open == Join(s.segs) + s.open
  {
    JoinAppend(s.segs, s.open);
    assert Toggled(s.open, [p]);
    ChainClose(s.segs, s.open, [p]);
    hide Chained, Toggled, Join;
  }

  lemma ToggledSplit(s: Split, p: Payload)
    requires s.open != [] && s.open[0].fid != p.fid
    ensures var e := Split(CloseSplit(s).segs, CloseSplit(s).open + [p]);
      ExtendSplit(s, p) == if p.eof then CloseSplit(e) else e
  {
  }

  lemma SameSplit(s: Split, p: Payload)
    requires s.open == [] || s.open[0].fid == p.fid
    ensures var e := Split(s.segs, s.open + [p]); ExtendSplit(s, p) == if p.eof then CloseSplit(e) else e
  {
  }

  lemma CutPayloadSplits(c: Cut, p: Payload)
    ensures var d := CutPayload(c, p);
      Split(Segments(d.closed), d.open) == ExtendSplit(Split(Segments(c.closed), c.open), p)
  {
    SegmentsAppend(c.closed, Piece(c.open, c.pending));
    var d := if c.open != [] && c.open[0].fid != p.fid then Close(c) else c;
    SegmentsAppend(d.closed, Piece(d.open + [p], d.pending));
  }

  /** The machine's cut is a segmentation in that sense. */
  lemma {:induction false} CutIsSegmentation(ks: seq<Packet>)
    ensures IsCut(Payloads(ks), Segments(CutAll(ks).closed), CutAll(ks).open)
  {
    if ks != [] {
      var k := ks[|ks| - 1];
      CutIsSegmentation(ks[..|ks| - 1]);
      var c := CutAll(ks[..|ks| - 1]);
      if k.payload.Some? {
        ExtendCut(Payloads(ks[..|ks| - 1]), Split(Segments(c.closed), c.open), k.payload.value);
        CutPayloadSplits(c.(pending := c.pending + [k]), k.payload.value);
      }
    }
  }

  // ---- and there is only one ----

  /** Undo one payload that stands alone in the open frame. */
  function Reopened(segs: seq<seq<Payload>>): Split {
    if segs == [] || EndsWithEof(segs[|segs| - 1]) then Split(segs, [])
    else Split(segs[..|segs| - 1], segs[|segs| - 1])
  }

  lemma ReopenedIsCut(pays: seq<Payload>, segs: seq<seq<Payload>>, p: Payload)
    requires Join(segs) == pays && AllWhole(segs) && Chained(segs, [p])
    ensures var r := Reopened(segs); IsCut(pays, r.segs, r.open)
    ensures Reopened(segs).open != [] ==> Reopened(segs).open[0].fid != p.fid
    ensures Reopened(segs).open == [] ==> Reopened(segs).segs == segs
    ensures Reopened(segs).open != [] ==> CloseSplit(Reopened(segs)).segs == segs
  {
    if segs == [] || EndsWithEof(segs[|segs| - 1]) {
      ClosedChain(segs, [p], []);
      hide Chained, Join;
      assert Join(segs) + [] == pays;
    } else {
      var last := |segs| - 1;
      assert Toggled(segs[last], Next(segs, [p], last));
      assert Join(segs[..last]) + segs[last] == pays;
      OpenChain(segs, [p]);
      hide Chained, Join;
      assert segs == segs[..last] + [segs[last]];
    }
  }

  /** Behind an end of frame anything may follow. */
  lemma ClosedChain(segs: seq<seq<Payload>>, open: seq<Payload>, other: seq<Payload>)
    requires Chained(segs, open) && (segs == [] || EndsWithEof(segs[|segs| - 1]))
    ensures Chained(segs, other)
  {
    forall j | 0 <= j < |segs| && !EndsWithEof(segs[j]) ensures Toggled(segs[j], Next(segs, other, j)) {
      assert Next(segs, other, j) == Next(segs, open, j);
    }
  }

  lemma OpenChain(segs: seq<seq<Payload>>, open: seq<Payload>)
    requires Chained(segs, open) && segs != []
    ensures Chained(segs[..|segs| - 1], segs[|segs| - 1])
  {
    var last := |segs| - 1;
    forall j | 0 <= j < last && !EndsWithEof(segs[j]) ensures Toggled(segs[j], Next(segs[..last], segs[last], j)) {
      assert Toggled(segs[j], Next(segs, open, j));
    }
  }

  /** The open frame without its last payload. */
  lemma ShrinkOpen(pays: seq<Payload>, segs: seq<seq<Payload>>, open: seq<Payload>) returns (s: Split)
    requires open != [] && Join(segs) + open == pays && AllWhole(segs) && Whole(open) && Chained(segs, open)
    ensures IsCut(pays[..|pays| - 1], s.segs, s.open) && open[|open| - 1] == pays[|pays| - 1]
    ensures (if s.open != [] && s.open[0].fid != open[|open| - 1].fid then CloseSplit(s).segs else s.segs) == segs
    ensures (if s.open != [] && s.open[0].fid != open[|open| - 1].fid then [] else s.open) + [open[|open| - 1]] == open
  {
    var q, p, rest := pays[..|pays| - 1], open[|open| - 1], open[..|open| - 1];
    assert Join(segs) + rest == q;
    assert open == rest + [p];
    if rest == [] {
      assert Join(segs) == q;
      ReopenedIsCut(q, segs, p);
      s := Reopened(segs);
    } else {
      s := Split(segs, rest);
      forall j | 0 <= j < |segs| && !EndsWithEof(segs[j]) ensures Toggled(segs[j], Next(segs, rest, j)) {
        assert Toggled(segs[j], Next(segs, open, j));
      }
    }
  }

  lemma PredecessorCut(pays: seq<Payload>, segs: seq<seq<Payload>>, open: seq<Payload>) returns (s: Split)
    requires IsCut(pays, segs, open) && pays != []
    ensures IsCut(pays[..|pays| - 1], s.segs, s.open)
    ensures ExtendSplit(s, pays[|pays| - 1]) == Split(segs, open)
  {
    if open != [] {
      s := ShrinkOpen(pays, segs, open);
    } else {
      var last := |segs| - 1;
      assert segs != [];
      assert EndsWithEof(segs[last]) || Toggled(segs[last], Next(segs, open, last));
      forall j | 0 <= j < last && !EndsWithEof(segs[j]) ensures Toggled(segs[j], Next(segs[..last], segs[last], j)) {
        assert Toggled(segs[j], Next(segs, open, j));
      }
      assert segs == segs[..last] + [segs[last]];
      s := ShrinkOpen(pays, segs[..last], segs[last]);
    }
  }

  /** Two segmentations of the same payloads agree, so the header bits alone determine the frames. */
  lemma {:induction false} CutIsUnique(pays: seq<Payload>, a: Split, b: Split)
    requires IsCut(pays, a.segs, a.open) && IsCut(pays, b.segs, b.open)
    ensures a == b
    decreases |pays|
  {
    if pays == [] {
      EmptyCut(a);
      EmptyCut(b);
    } else {
      var x := PredecessorCut(pays, a.segs, a.open);
      var y := PredecessorCut(pays, b.segs, b.open);
      CutIsUnique(pays[..|pays| - 1], x, y);
    }
  }

  lemma JoinNonEmpty(segs: seq<seq<Payload>>)
    requires segs != [] && AllWhole(segs)
    ensures Join(segs) != []
  {
    assert segs[|segs| - 1] != [];
  }

  lemma EmptyCut(a: Split)
    requires IsCut([], a.segs, a.open)
    ensures a == Split([], [])
  {
    if a.segs != [] {
      JoinNonEmpty(a.segs);
    }
  }

  // ---- the assembler refines the cut ----

  function BadCount(ks: seq<Packet>): nat {
    if ks == [] then 0 else BadCount(ks[..|ks| - 1]) + if ks[|ks| - 1].bad then 1 else 0
  }

  function ByteCount(pays: seq<Payload>): nat {
    if pays == [] then 0 else ByteCount(pays[..|pays| - 1]) + pays[|pays| - 1].bytes
  }

  function AnyErr(pays: seq<Payload>): bool {
    exists i :: 0 <= i < |pays| && pays[i].err
  }

  function LastPts(pays: seq<Payload>): u32 {
    if pays == [] then 0
    else if pays[|pays| - 1].pts.Some? then pays[|pays| - 1].pts.value else LastPts(pays[..|pays| - 1])
  }

  function LastScr(pays: seq<Payload>): (u32, nat) {
    if pays == [] then (0, 0)
    else if pays[|pays| - 1].scr.Some? then pays[|pays| - 1].scr.value else LastScr(pays[..|pays| - 1])
  }

  /** What a frame should say about the payloads it is made of and the packets charged to it. */
  function CoreOf(p: Piece): Core
    requires p.pays != []
  {
    var eof := p.pays[|p.pays| - 1].eof;
    Core(Trunc32(ByteCount(p.pays)), Trunc32(|p.pays|), Trunc32(BadCount(p.charged)),
         LastPts(p.pays), LastScr(p.pays).0, LastScr(p.pays).1,
         !eof || AnyErr(p.pays) || BadCount(p.charged) > 0, eof, p.pays[0].fid)
  }

  /** The assembly state holds the open frame and the charges pending against it. */
  ghost predicate Holds(st: State, c: Cut) {
    && st.bytes == Trunc32(ByteCount(c.open)) && st.packets == Trunc32(|c.open|)
    && st.errPackets == Trunc32(BadCount(c.pending))
    && st.pts == LastPts(c.open) && (st.stc, st.sof) == LastScr(c.open)
    && st.sawErr == (AnyErr(c.open) || BadCount(c.pending) > 0)
    && st.active == (c.open != []) && (c.open != [] ==> st.haveFid && st.fid == c.open[0].fid)
  }

  ghost predicate Emitted(out: seq<Frame>, closed: seq<Piece>) {
    && |out| == |closed|
    && forall j :: 0 <= j < |out| ==> closed[j].pays != [] && out[j].core == CoreOf(closed[j])
  }

  lemma HoldsCharge(st: State, c: Cut, k: Packet)
    requires Holds(st, c)
    ensures Holds(Charged(st, k.bad), c.(pending := c.pending + [k]))
  {
    assert (c.pending + [k])[..|c.pending|] == c.pending;
  }

  lemma AnyErrAppend(pays: seq<Payload>, p: Payload)
    ensures AnyErr(pays + [p]) == (AnyErr(pays) || p.err)
  {
    var o := pays + [p];
    if AnyErr(pays) {
      var i :| 0 <= i < |pays| && pays[i].err;
      assert o[i].err;
    }
    assert o[|o| - 1] == p;
  }

  lemma HoldsGather(st: State, c: Cut, p: Payload)
    requires Holds(st, c) && st.active && st.fid == p.fid
    ensures Holds(Gathered(st, p), c.(open := c.open + [p]))
  {
    assert (c.open + [p])[..|c.open|] == c.open;
    AnyErrAppend(c.open, p);
  }

  /** The first payload of a frame; pending charges stay with it. */
  lemma HoldsOpen(st: State, c: Cut, p: Payload, now: u64)
    requires Holds(st, c) && c.open == []
    ensures Holds(Gathered(Opened(st, p.fid, now), p), c.(open := [p]))
  {
    assert [p][..0] == [];
    AnyErrAppend([], p);
    assert [] + [p] == [p];
  }

  lemma HoldsClose(st: State, c: Cut, now: u64)
    requires Holds(st, c) && c.open != []
    ensures Holds(Closed(st, now), Close(c))
    ensures FrameOf(st, c.open[|c.open| - 1].eof, now).core == CoreOf(Piece(c.open, c.pending))
  {
  }

  /** The cut after the boundary, if any, in front of payload `p`. */
  function CutBoundary(c: Cut, p: Payload): Cut {
    if c.open != [] && c.open[0].fid != p.fid then Close(c) else c
  }

  lemma BoundaryRefines(st: State, c: Cut, p: Payload, now: u64)
    requires Holds(st, c) && !EndsWithEof(c.open)
    ensures var s := Boundary(st, p, now); var d := CutBoundary(c, p);
      && Holds(Gathered(s.st, p), d.(open := d.open + [p]))
      && c.closed <= d.closed && Emitted(s.out, d.closed[|c.closed|..])
  {
    assert [] + [p] == [p];
    if c.open != [] && c.open[0].fid != p.fid {
      HoldsClose(st, c, now);
      HoldsOpen(Closed(st, now), Close(c), p, now);
    } else if c.open == [] {
      HoldsOpen(st, c, p, now);
    } else {
      HoldsGather(st, c, p);
    }
  }

  lemma AcceptRefines(st: State, c: Cut, p: Payload, now: u64)
    requires Holds(st, c) && !EndsWithEof(c.open)
    ensures var s := Accept(st, p, now); var d := CutPayload(c, p);
      && Holds(s.st, d)
      && c.closed <= d.closed && Emitted(s.out, d.closed[|c.closed|..])
  {
    BoundaryRefines(st, c, p, now);
    var b, d := Boundary(st, p, now), CutBoundary(c, p);
    var e := d.(open := d.open + [p]);
    if p.eof {
      HoldsClose(Gathered(b.st, p), e, now);
      assert Close(e).closed[|c.closed|..] == d.closed[|c.closed|..] + [Piece(e.open, e.pending)];
    }
  }

  function Untimed(ps: seq<Timed>): seq<Packet> {
    if ps == [] then [] else Untimed(ps[..|ps| - 1]) + [ps[|ps| - 1].k]
  }

  lemma EmittedConcat(a: seq<Frame>, b: seq<Frame>, was: seq<Piece>, now: seq<Piece>)
    requires Emitted(a, was) && was <= now && Emitted(b, now[|was|..])
    ensures Emitted(a + b, now)
  {
  }

  lemma PacketRefines(s: Step, c: Cut, k: Packet, now: u64)
    requires Holds(s.st, c) && Emitted(s.out, c.closed) && !EndsWithEof(c.open)
    ensures var x := StepPacket(s.st, k, now); var d := CutNext(c, k);
      Holds(x.st, d) && Emitted(s.out + x.out, d.closed)
  {
    HoldsCharge(s.st, c, k);
    var d := c.(pending := c.pending + [k]);
    if k.payload.Some? {
      var p := k.payload.value;
      AcceptRefines(Charged(s.st, k.bad), d, p, now);
      EmittedConcat(s.out, Accept(Charged(s.st, k.bad), p, now).out, c.closed, CutPayload(d, p).closed);
    } else {
      assert s.out + [] == s.out;
    }
  }

  /** Refinement: the frames a stream emits are exactly the closed pieces of the cut of its packets, and the
      state it keeps is the open one. Every field but the times is a function of the packets alone. */
  lemma {:induction false} AssemblerRefinesCut(ps: seq<Timed>)
    ensures var s := RunPackets(Idle(), ps); var c := CutAll(Untimed(ps));
      Holds(s.st, c) && Emitted(s.out, c.closed)
  {
    hide *;
    if ps == [] {
      NothingHeld(ps);
    } else {
      var q, x := ps[..|ps| - 1], ps[|ps| - 1];
      AssemblerRefinesCut(q);
      CutIsSegmentation(Untimed(q));
      OpenHasNoEof(Untimed(q), CutAll(Untimed(q)));
      PacketRefines(RunPackets(Idle(), q), CutAll(Untimed(q)), x.k, x.now);
      RunOneMore(Idle(), q, x);
      CutOneMore(q, x);
      assert ps == q + [x];
    }
  }

  lemma NothingHeld(ps: seq<Timed>)
    requires ps == []
    ensures Holds(RunPackets(Idle(), ps).st, CutAll(Untimed(ps)))
    ensures Emitted(RunPackets(Idle(), ps).out, CutAll(Untimed(ps)).closed)
  {
  }

  lemma OpenHasNoEof(ks: seq<Packet>, c: Cut)
    requires IsCut(Payloads(ks), Segments(c.closed), c.open)
    ensures !EndsWithEof(c.open)
  {
  }

  lemma CutOneMore(ps: seq<Timed>, x: Timed)
    ensures CutAll(Untimed(ps + [x])) == CutNext(CutAll(Untimed(ps)), x.k)
  {
    assert (ps + [x])[..|ps|] == ps;
    var ks := Untimed(ps);
    assert (ks + [x.k])[..|ks|] == ks;
  }

  /** Grouping and timing of the URBs change no field of a frame but its times. */
  lemma RegroupingInvariant(a: seq<Timed>, b: seq<Timed>)
    requires Untimed(a) == Untimed(b)
    ensures var x, y := RunPackets(Idle(), a).out, RunPackets(Idle(), b).out;
      |x| == |y| && forall j :: 0 <= j < |x| ==> x[j].core == y[j].core
  {
    AssemblerRefinesCut(a);
    AssemblerRefinesCut(b);
  }

  // ---- what the fields of a frame are ----

  /** Byte and error counts are sums: nothing for nothing, its own bytes for one payload and one for one bad
      packet, and the sum over two parts. */
  lemma CountsAdd(a: seq<Payload>, b: seq<Payload>, p: Payload, ks: seq<Packet>, ls: seq<Packet>, k: Packet)
    ensures ByteCount([]) == 0 && ByteCount([p]) == p.bytes && ByteCount(a + b) == ByteCount(a) + ByteCount(b)
    ensures BadCount([]) == 0 && BadCount([k]) == (if k.bad then 1 else 0)
    ensures BadCount(ks + ls) == BadCount(ks) + BadCount(ls)
  {
    assert [p][..0] == [] && [k][..0] == [];
    assert ByteCount([p][..0]) == 0 && BadCount([k][..0]) == 0;
    ByteCountConcat(a, b);
    BadCountConcat(ks, ls);
  }

  /** A frame's clock fields are those of the last payload that carries them, zero when none does; both parts of
      the clock reference come from the same payload. */
  lemma {:induction false} ClocksAreLast(pays: seq<Payload>, i: nat)
    requires i < |pays|
    ensures pays[i].pts.Some? && (forall j :: i < j < |pays| ==> pays[j].pts == None) ==>
      LastPts(pays) == pays[i].pts.value
    ensures pays[i].scr.Some? && (forall j :: i < j < |pays| ==> pays[j].scr == None) ==>
      LastScr(pays) == pays[i].scr.value
    ensures (forall j :: 0 <= j < |pays| ==> pays[j].pts == None) ==> LastPts(pays) == 0
    ensures (forall j :: 0 <= j < |pays| ==> pays[j].scr == None) ==> LastScr(pays) == (0, 0)
  {
    var last := |pays| - 1;
    var p := pays[..last];
    if i < last {
      ClocksAreLast(p, i);
    } else if last > 0 {
      ClocksAreLast(p, 0);
    }
  }

  // ---- conservation ----

  lemma ChargeNext(c: Cut, k: Packet, q: seq<Packet>)
    requires JoinCharged(c.closed) + c.pending == q
    ensures var d := CutNext(c, k); JoinCharged(d.closed) + d.pending == q + [k]
  {
    var d := c.(pending := c.pending + [k]);
    assert JoinCharged(c.closed) + (c.pending + [k]) == (JoinCharged(c.closed) + c.pending) + [k];
    if k.payload.Some? {
      ChargesKept(d, k.payload.value);
    }
  }

  /** Every packet is charged exactly once, in order, to a closed frame or to the one being gathered. */
  lemma {:induction false} ChargesPartition(ks: seq<Packet>)
    ensures JoinCharged(CutAll(ks).closed) + CutAll(ks).pending == ks
  {
    if ks != [] {
      var q, k := ks[..|ks| - 1], ks[|ks| - 1];
      ChargesPartition(q);
      ChargeNext(CutAll(q), k, q);
      assert ks == q + [k];
    }
  }

  lemma CloseCharges(c: Cut)
    ensures JoinCharged(Close(c).closed) + Close(c).pending == JoinCharged(c.closed) + c.pending
  {
    assert Close(c).closed[..|c.closed|] == c.closed;
  }

  lemma ChargesKept(c: Cut, p: Payload)
    ensures var d := CutPayload(c, p);
      JoinCharged(d.closed) + d.pending == JoinCharged(c.closed) + c.pending
  {
    CloseCharges(c);
    var d := if c.open != [] && c.open[0].fid != p.fid then Close(c) else c;
    CloseCharges(d.(open := d.open + [p]));
  }

  function SumBytes(out: seq<Frame>): nat {
    if out == [] then 0 else SumBytes(out[..|out| - 1]) + out[|out| - 1].core.bytes
  }

  function SumPackets(out: seq<Frame>): nat {
    if out == [] then 0 else SumPackets(out[..|out| - 1]) + out[|out| - 1].core.packets
  }

  function SumErrPackets(out: seq<Frame>): nat {
    if out == [] then 0 else SumErrPackets(out[..|out| - 1]) + out[|out| - 1].core.errPackets
  }

  /** No 32-bit counter overflows within one frame. */
  ghost predicate Fits(c: Cut) {
    && (forall j :: 0 <= j < |c.closed| ==>
          ByteCount(c.closed[j].pays) < TWO32 && |c.closed[j].pays| < TWO32 && BadCount(c.closed[j].charged) < TWO32)
    && ByteCount(c.open) < TWO32 && |c.open| < TWO32 && BadCount(c.pending) < TWO32
  }

  lemma {:induction false} ByteCountConcat(a: seq<Payload>, b: seq<Payload>)
    ensures ByteCount(a + b) == ByteCount(a) + ByteCount(b)
    decreases |b|
  {
    if b == [] {
      assert a + b == a;
    } else {
      ByteCountConcat(a, b[..|b| - 1]);
      assert (a + b)[..|a + b| - 1] == a + b[..|b| - 1];
    }
  }

  lemma {:induction false} BadCountConcat(a: seq<Packet>, b: seq<Packet>)
    ensures BadCount(a + b) == BadCount(a) + BadCount(b)
    decreases |b|
  {
    if b == [] {
      assert a + b == a;
    } else {
      BadCountConcat(a, b[..|b| - 1]);
      assert (a + b)[..|a + b| - 1] == a + b[..|b| - 1];
    }
  }

  lemma JoinSegmentsStep(closed: seq<Piece>)
    requires closed != []
    ensures Join(Segments(closed)) == Join(Segments(closed[..|closed| - 1])) + closed[|closed| - 1].pays
  {
    assert Segments(closed)[..|closed| - 1] == Segments(closed[..|closed| - 1]);
  }

  lemma CoreExact(p: Piece)
    requires p.pays != []
    ensures ByteCount(p.pays) < TWO32 ==> CoreOf(p).bytes == ByteCount(p.pays)
    ensures |p.pays| < TWO32 ==> CoreOf(p).packets == |p.pays|
    ensures BadCount(p.charged) < TWO32 ==> CoreOf(p).errPackets == BadCount(p.charged)
  {
  }

  lemma {:induction false} BytesMatch(out: seq<Frame>, closed: seq<Piece>)
    requires Emitted(out, closed) && forall j :: 0 <= j < |closed| ==> ByteCount(closed[j].pays) < TWO32
    ensures SumBytes(out) == ByteCount(Join(Segments(closed)))
  {
    hide CoreOf, ByteCount;
    if out == [] {
      assert Join(Segments(closed)) == [];
      NoBytes();
    } else {
      var last := |out| - 1;
      BytesMatch(out[..last], closed[..last]);
      JoinSegmentsStep(closed);
      ByteCountConcat(Join(Segments(closed[..last])), closed[last].pays);
      CoreExact(closed[last]);
    }
  }

  lemma NoBytes()
    ensures ByteCount([]) == 0
  {
  }

  lemma {:induction false} PacketsMatch(out: seq<Frame>, closed: seq<Piece>)
    requires Emitted(out, closed) && forall j :: 0 <= j < |closed| ==> |closed[j].pays| < TWO32
    ensures SumPackets(out) == |Join(Segments(closed))|
  {
    if out != [] {
      var last := |out| - 1;
      PacketsMatch(out[..last], closed[..last]);
      JoinSegmentsStep(closed);
      CoreExact(closed[last]);
    }
  }

  lemma {:induction false} ErrPacketsMatch(out: seq<Frame>, closed: seq<Piece>)
    requires Emitted(out, closed) && forall j :: 0 <= j < |closed| ==> BadCount(closed[j].charged) < TWO32
    ensures SumErrPackets(out) == BadCount(JoinCharged(closed))
  {
    if out != [] {
      var last := |out| - 1;
      ErrPacketsMatch(out[..last], closed[..last]);
      BadCountConcat(JoinCharged(closed[..last]), closed[last].charged);
      CoreExact(closed[last]);
    }
  }

  lemma CutConserves(ks: seq<Packet>)
    ensures var c := CutAll(ks); var segs := Join(Segments(c.closed));
      && ByteCount(segs) + ByteCount(c.open) == ByteCount(Payloads(ks))
      && |segs| + |c.open| == |Payloads(ks)|
      && BadCount(JoinCharged(c.closed)) + BadCount(c.pending) == BadCount(ks)
  {
    var c := CutAll(ks);
    CutIsSegmentation(ks);
    ChargesPartition(ks);
    ByteCountConcat(Join(Segments(c.closed)), c.open);
    BadCountConcat(JoinCharged(c.closed), c.pending);
  }

  lemma PendingExact(st: State, c: Cut)
    requires Holds(st, c) && ByteCount(c.open) < TWO32 && |c.open| < TWO32 && BadCount(c.pending) < TWO32
    ensures st.bytes == ByteCount(c.open) && st.packets == |c.open| && st.errPackets == BadCount(c.pending)
  {
  }

  lemma ConservedBy(s: Step, c: Cut)
    requires Holds(s.st, c) && Emitted(s.out, c.closed) && Fits(c)
    ensures SumBytes(s.out) + s.st.bytes == ByteCount(Join(Segments(c.closed))) + ByteCount(c.open)
    ensures SumPackets(s.out) + s.st.packets == |Join(Segments(c.closed))| + |c.open|
    ensures SumErrPackets(s.out) + s.st.errPackets == BadCount(JoinCharged(c.closed)) + BadCount(c.pending)
  {
    PendingExact(s.st, c);
    BytesMatch(s.out, c.closed);
    PacketsMatch(s.out, c.closed);
    ErrPacketsMatch(s.out, c.closed);
  }

  /** Conservation: emitted plus pending bytes, packets and error packets are the stream's payload bytes,
      well-formed packets and bad-status descriptors. */
  lemma Conservation(ps: seq<Timed>)
    requires Fits(CutAll(Untimed(ps)))
    ensures var s := RunPackets(Idle(), ps); var ks := Untimed(ps);
      && SumBytes(s.out) + s.st.bytes == ByteCount(Payloads(ks))
      && SumPackets(s.out) + s.st.packets == |Payloads(ks)|
      && SumErrPackets(s.out) + s.st.errPackets == BadCount(ks)
  {
    AssemblerRefinesCut(ps);
    CutConserves(Untimed(ps));
    ConservedBy(RunPackets(Idle(), ps), CutAll(Untimed(ps)));
  }
}
