/** What `errored` and `err_packets` say about a frame, against what `include/usbtrace/uvc.h` says they mean:
    where the two differ, and exactly when the flag is the documented one. */
module UvcErrored {
  import opened Base
  import opened UvcFrames
  import opened UvcCut
  import opened UvcCharge

  /** The bad packets from `a` up to `b` that carry a payload, or those that carry none. */
  function BadIn(ks: seq<Packet>, a: nat, b: nat, data: bool): nat
    requires a <= b <= |ks|
  {
    if a == b then 0
    else BadIn(ks, a, b - 1, data) + if ks[b - 1].bad && ks[b - 1].payload.Some? == data then 1 else 0
  }

  lemma {:induction false} BadInSplit(ks: seq<Packet>, a: nat, b: nat, c: nat, data: bool)
    requires a <= b <= c <= |ks|
    ensures BadIn(ks, a, c, data) == BadIn(ks, a, b, data) + BadIn(ks, b, c, data)
  {
    if b < c {
      BadInSplit(ks, a, b, c - 1, data);
    }
  }

  lemma {:induction false} BadCountIs(ks: seq<Packet>, a: nat, b: nat)
    requires a <= b <= |ks|
    ensures BadCount(ks[a..b]) == BadIn(ks, a, b, true) + BadIn(ks, a, b, false)
  {
    if a < b {
      BadCountIs(ks, a, b - 1);
      assert ks[a..b][..b - 1 - a] == ks[a..b - 1];
    }
  }

  /** No payload, no bad packet with one. */
  lemma {:induction false} NoData(ks: seq<Packet>, a: nat, b: nat)
    requires a <= b <= |ks| && |Payloads(ks[..a])| >= |Payloads(ks[..b])|
    ensures BadIn(ks, a, b, true) == 0 && |Payloads(ks[..a])| == |Payloads(ks[..b])|
  {
    if a < b {
      PayloadsNext(ks, b - 1);
      PayloadsGrow(ks, a, b - 1);
      NoData(ks, a, b - 1);
    }
  }

  lemma PacketOfOwn(ks: seq<Packet>, i: nat)
    requires i < |ks| && ks[i].payload.Some?
    ensures var n := |Payloads(ks[..i])|; n < |Payloads(ks)| && PacketOf(ks, n) == i
  {
    PayloadsNext(ks, i);
    PayloadsGrow(ks, i + 1, |ks|);
    assert ks[..|ks|] == ks;
    var n := |Payloads(ks[..i])|;
    var r := PacketOf(ks, n);
    PayloadsNext(ks, r);
    if r < i {
      PayloadsGrow(ks, r + 1, i);
    } else if i < r {
      PayloadsGrow(ks, i + 1, r);
    }
  }

  /** Between two consecutive payloads nothing carries data. */
  lemma NoDataBetween(ks: seq<Packet>, n: nat)
    requires n < |Payloads(ks)|
    ensures n == 0 ==> BadIn(ks, 0, PacketOf(ks, 0), true) == 0
    ensures n > 0 ==>
      PacketOf(ks, n - 1) < PacketOf(ks, n) && BadIn(ks, PacketOf(ks, n - 1) + 1, PacketOf(ks, n), true) == 0
  {
    if n == 0 {
      NoData(ks, 0, PacketOf(ks, 0));
    } else {
      PacketOfOrder(ks, n - 1, n);
      PayloadsNext(ks, PacketOf(ks, n - 1));
      NoData(ks, PacketOf(ks, n - 1) + 1, PacketOf(ks, n));
    }
  }

  /** Frame `j` lies within the packets, and so does what closes it and its predecessor. */
  ghost predicate Framed(ks: seq<Packet>, segs: seq<seq<Payload>>, j: nat) {
    && j < |segs| && segs[j] != [] && Starts(segs, j) + |segs[j]| <= |Payloads(ks)|
    && Closer(segs, j) < |Payloads(ks)|
    && (j > 0 ==> Starts(segs, j - 1) + |segs[j - 1]| == Starts(segs, j) && segs[j - 1] != [])
  }

  lemma CutIsFramed(ks: seq<Packet>, c: Cut, j: nat)
    requires IsChargedCut(ks, c) && j < |c.closed|
    ensures Framed(ks, Segments(c.closed), j)
    ensures forall i :: 0 <= i < |c.closed| ==> Closer(Segments(c.closed), i) < |Payloads(ks)|
  {
    var segs := Segments(c.closed);
    assert ChargedUpTo(ks, c, j);
    forall i | 0 <= i < |c.closed| ensures Closer(segs, i) < |Payloads(ks)| {
      assert ChargedUpTo(ks, c, i);
    }
    if j > 0 {
      StartsNext(segs, j - 1);
    }
    assert segs[j] != [] && (j > 0 ==> segs[j - 1] != []);
    StartsWithin(segs, j);
  }

  lemma {:induction false} StartsWithin(segs: seq<seq<Payload>>, j: nat)
    requires j < |segs|
    ensures Starts(segs, j) + |segs[j]| <= |Join(segs)|
  {
    StartsNext(segs, j);
    if j + 1 < |segs| {
      StartsWithin(segs[..|segs| - 1], j);
      assert segs[..|segs| - 1][..j] == segs[..j];
    } else {
      assert segs[..j + 1] == segs;
    }
  }

  function FirstPacket(ks: seq<Packet>, segs: seq<seq<Payload>>, j: nat): nat
    requires Framed(ks, segs, j)
  {
    PacketOf(ks, Starts(segs, j))
  }

  function LastPacket(ks: seq<Packet>, segs: seq<seq<Payload>>, j: nat): nat
    requires Framed(ks, segs, j)
  {
    PacketOf(ks, Starts(segs, j) + |segs[j]| - 1)
  }

  function ChargeFrom(ks: seq<Packet>, segs: seq<seq<Payload>>, j: nat): nat
    requires Framed(ks, segs, j)
  {
    if j == 0 then 0 else PacketOf(ks, Closer(segs, j - 1)) + 1
  }

  function ChargeTo(ks: seq<Packet>, segs: seq<seq<Payload>>, j: nat): nat
    requires Framed(ks, segs, j)
  {
    PacketOf(ks, Closer(segs, j)) + 1
  }

  /** The previous frame lost its end and the first packet of this one, which revealed it, was bad. */
  predicate LateFirst(ks: seq<Packet>, segs: seq<seq<Payload>>, j: nat)
    requires Framed(ks, segs, j)
  {
    j > 0 && !EndsWithEof(segs[j - 1]) && ks[FirstPacket(ks, segs, j)].bad
  }

  /** This frame lost its end, and the packet that revealed it was bad. */
  predicate LateCloser(ks: seq<Packet>, segs: seq<seq<Payload>>, j: nat)
    requires Framed(ks, segs, j)
  {
    !EndsWithEof(segs[j]) && ks[PacketOf(ks, Closer(segs, j))].bad
  }

  /** The bad packets among those that carried the frame. */
  function OwnBad(ks: seq<Packet>, segs: seq<seq<Payload>>, j: nat): nat
    requires Framed(ks, segs, j)
  {
    FrameRange(ks, segs, j);
    BadIn(ks, FirstPacket(ks, segs, j), LastPacket(ks, segs, j) + 1, true)
  }

  /** The bad packets without a payload among those charged to the frame. */
  function StrayBad(ks: seq<Packet>, segs: seq<seq<Payload>>, j: nat): nat
    requires Framed(ks, segs, j)
  {
    FrameRange(ks, segs, j);
    BadIn(ks, ChargeFrom(ks, segs, j), ChargeTo(ks, segs, j), false)
  }

  lemma FrameRange(ks: seq<Packet>, segs: seq<seq<Payload>>, j: nat)
    requires Framed(ks, segs, j)
    ensures FirstPacket(ks, segs, j) <= LastPacket(ks, segs, j)
    ensures ChargeFrom(ks, segs, j) <= LastPacket(ks, segs, j) + 1 <= ChargeTo(ks, segs, j)
  {
    hide Payloads, Starts;
    var e := Starts(segs, j) + |segs[j]|;
    PacketOfMonotone(ks, Starts(segs, j), e - 1);
    PacketOfMonotone(ks, e - 1, Closer(segs, j));
    if j > 0 {
      PacketOfMonotone(ks, Closer(segs, j - 1), e - 1);
    }
  }

  lemma FrontCharges(ks: seq<Packet>, segs: seq<seq<Payload>>, j: nat)
    requires Framed(ks, segs, j)
    ensures var l := LastPacket(ks, segs, j) + 1;
      && ChargeFrom(ks, segs, j) <= l && FirstPacket(ks, segs, j) <= l
      && BadIn(ks, ChargeFrom(ks, segs, j), l, true) + (if LateFirst(ks, segs, j) then 1 else 0) == OwnBad(ks, segs, j)
  {
    var a, f, l := ChargeFrom(ks, segs, j), FirstPacket(ks, segs, j), LastPacket(ks, segs, j) + 1;
    FrameRange(ks, segs, j);
    hide Payloads, Starts;
    if j > 0 && !EndsWithEof(segs[j - 1]) {
      BadInSplit(ks, f, f + 1, l, true);
      assert BadIn(ks, f, f, true) == 0;
    } else {
      NoDataBetween(ks, Starts(segs, j));
      BadInSplit(ks, a, f, l, true);
    }
  }

  lemma BackCharges(ks: seq<Packet>, segs: seq<seq<Payload>>, j: nat)
    requires Framed(ks, segs, j)
    ensures var l, b := LastPacket(ks, segs, j) + 1, ChargeTo(ks, segs, j);
      l <= b && BadIn(ks, l, b, true) == if LateCloser(ks, segs, j) then 1 else 0
  {
    FrameRange(ks, segs, j);
    if EndsWithEof(segs[j]) {
      assert ChargeTo(ks, segs, j) == LastPacket(ks, segs, j) + 1;
    } else {
      var n := Closer(segs, j);
      assert LastPacket(ks, segs, j) == PacketOf(ks, n - 1);
      hide Payloads, Starts;
      ClosingPacket(ks, n);
    }
  }

  lemma ClosingPacket(ks: seq<Packet>, n: nat)
    requires 0 < n < |Payloads(ks)|
    ensures var a, b := PacketOf(ks, n - 1) + 1, PacketOf(ks, n);
      a <= b && BadIn(ks, a, b + 1, true) == if ks[b].bad then 1 else 0
  {
    NoDataBetween(ks, n);
  }

  lemma ChargedSlice(ks: seq<Packet>, c: Cut, j: nat)
    requires IsChargedCut(ks, c) && j < |c.closed| && Framed(ks, Segments(c.closed), j)
    ensures ChargeFrom(ks, Segments(c.closed), j) <= ChargeTo(ks, Segments(c.closed), j)
    ensures c.closed[j].charged == ks[ChargeFrom(ks, Segments(c.closed), j)..ChargeTo(ks, Segments(c.closed), j)]
  {
    var segs := Segments(c.closed);
    FrameRange(ks, segs, j);
    var a, b := ChargeFrom(ks, segs, j), ChargeTo(ks, segs, j);
    assert ChargedUpTo(ks, c, j) && (j > 0 ==> ChargedUpTo(ks, c, j - 1));
    assert c.closed[..j + 1][..j] == c.closed[..j];
    assert JoinCharged(c.closed[..j + 1]) == JoinCharged(c.closed[..j]) + c.closed[j].charged;
    assert JoinCharged(c.closed[..j]) == ks[..a] && JoinCharged(c.closed[..j + 1]) == ks[..b];
    hide *;
    assert ks[..a] + ks[a..b] == ks[..b];
    Cancel(ks[..a], c.closed[j].charged, ks[a..b]);
  }

  /** How `err_packets` differs from its documentation ("of the packets that carried the frame, how many had
      errors"): it also has the bad packets without data, and the one that revealed the frame's lost end, and
      it lacks the frame's own first packet when that revealed the lost end of the frame before. */
  lemma ErrPacketsOfFrame(ks: seq<Packet>, c: Cut, j: nat)
    requires IsChargedCut(ks, c) && j < |c.closed|
    ensures var segs := Segments(c.closed);
      && Framed(ks, segs, j)
      && BadCount(c.closed[j].charged) + (if LateFirst(ks, segs, j) then 1 else 0)
      == OwnBad(ks, segs, j) + StrayBad(ks, segs, j) + if LateCloser(ks, segs, j) then 1 else 0
  {
    var segs := Segments(c.closed);
    CutIsFramed(ks, c, j);
    ChargedSlice(ks, c, j);
    FrontCharges(ks, segs, j);
    BackCharges(ks, segs, j);
    var a, b := ChargeFrom(ks, segs, j), ChargeTo(ks, segs, j);
    BadCountIs(ks, a, b);
    BadInSplit(ks, a, LastPacket(ks, segs, j) + 1, b, true);
  }

  /** Packet `i` carried a payload of frame `j`. */
  predicate CarriedBy(ks: seq<Packet>, segs: seq<seq<Payload>>, j: nat, i: nat)
    requires j < |segs|
  {
    && i < |ks| && ks[i].payload.Some?
    && Starts(segs, j) <= |Payloads(ks[..i])| < Starts(segs, j) + |segs[j]|
  }

  /** `errored` as documented: no clean end of frame, or a packet that carried the frame had an error or the
      ERR bit. */
  ghost predicate DocErrored(ks: seq<Packet>, segs: seq<seq<Payload>>, j: nat)
    requires j < |segs|
  {
    !EndsWithEof(segs[j]) || AnyErr(segs[j]) || exists i: nat :: CarriedBy(ks, segs, j, i) && ks[i].bad
  }

  lemma {:induction false} BadInExists(ks: seq<Packet>, a: nat, b: nat, data: bool)
    requires a <= b <= |ks|
    ensures BadIn(ks, a, b, data) > 0 <==> exists i :: a <= i < b && ks[i].bad && ks[i].payload.Some? == data
  {
    if a < b {
      BadInExists(ks, a, b - 1, data);
    }
  }

  lemma OwnBadIsCarried(ks: seq<Packet>, segs: seq<seq<Payload>>, j: nat)
    requires Framed(ks, segs, j)
    ensures OwnBad(ks, segs, j) > 0 <==> exists i: nat :: CarriedBy(ks, segs, j, i) && ks[i].bad
  {
    var f, l := FirstPacket(ks, segs, j), LastPacket(ks, segs, j);
    FrameRange(ks, segs, j);
    BadInExists(ks, f, l + 1, true);
    forall i: nat | i < |ks| && ks[i].payload.Some? ensures CarriedBy(ks, segs, j, i) <==> f <= i <= l {
      PacketOfOwn(ks, i);
      PayloadsNext(ks, i);
      PayloadsNext(ks, l);
      if i <= l { PayloadsGrow(ks, i, l); }
      if f <= i { PayloadsGrow(ks, f, i); }
      if i < f { PayloadsGrow(ks, i + 1, f); }
      if l < i { PayloadsGrow(ks, l + 1, i); }
    }
  }

  /** When the flag is what the documentation says: whenever the frame lost its end or has the ERR bit, or a
      bad packet of its own is charged to it; and otherwise exactly when a bad packet without data is charged
      to it just in case its own first packet was charged away. */
  lemma ErroredAsDocumentedIff(ks: seq<Packet>, c: Cut, j: nat)
    requires IsChargedCut(ks, c) && j < |c.closed|
    ensures var segs := Segments(c.closed);
      && c.closed[j].pays == segs[j] != [] && Framed(ks, segs, j)
      && (CoreOf(c.closed[j]).errored == DocErrored(ks, segs, j) <==>
            || !EndsWithEof(segs[j]) || AnyErr(segs[j])
            || OwnBad(ks, segs, j) > (if LateFirst(ks, segs, j) then 1 else 0)
            || (StrayBad(ks, segs, j) > 0 <==> LateFirst(ks, segs, j)))
  {
    ErrPacketsOfFrame(ks, c, j);
    OwnBadIsCarried(ks, Segments(c.closed), j);
    FrontCharges(ks, Segments(c.closed), j);
  }

  /** The same for the frames a stream emits. */
  lemma FrameErroredIff(ps: seq<Timed>, j: nat)
    requires j < |RunPackets(Idle(), ps).out|
    ensures var ks := Untimed(ps); var segs := Segments(CutAll(ks).closed);
      && Framed(ks, segs, j)
      && (RunPackets(Idle(), ps).out[j].core.errored == DocErrored(ks, segs, j) <==>
            || !EndsWithEof(segs[j]) || AnyErr(segs[j])
            || OwnBad(ks, segs, j) > (if LateFirst(ks, segs, j) then 1 else 0)
            || (StrayBad(ks, segs, j) > 0 <==> LateFirst(ks, segs, j)))
  {
    AssemblerRefinesCut(ps);
    CutIsCharged(Untimed(ps));
    ErroredAsDocumentedIff(Untimed(ps), CutAll(Untimed(ps)), j);
  }

  lemma CutOfTwo(k0: Packet, k1: Packet)
    ensures CutAll([k0, k1]) == CutNext(CutNext(Cut([], [], []), k0), k1)
    ensures Payloads([k0]) == if k0.payload.Some? then [k0.payload.value] else []
  {
    assert [k0, k1][..1] == [k0] && [k0][..0] == [];
    assert CutAll([k0]) == CutNext(CutAll([]), k0);
  }

  lemma ToggleEofCut(p: Payload, q: Payload)
    requires !p.eof && q.eof && p.fid != q.fid
    ensures var ks := [Packet(false, Some(p)), Packet(true, Some(q))];
      CutAll(ks).closed == [Piece([p], ks), Piece([q], [])]
  {
    var k0, k1 := Packet(false, Some(p)), Packet(true, Some(q));
    CutOfTwo(k0, k1);
    assert [] + [p] == [p] && [] + [k0] == [k0] && [k0] + [k1] == [k0, k1];
    ToggleCut(Cut([], [p], [k0]), k1);
    assert [] + [Piece([p], [k0, k1])] + [Piece([q], [])] == [Piece([p], [k0, k1]), Piece([q], [])];
  }

  lemma SecondCarries(p: Payload, q: Payload)
    ensures CarriedBy([Packet(false, Some(p)), Packet(true, Some(q))], [[p], [q]], 1, 1)
  {
    var k0, k1 := Packet(false, Some(p)), Packet(true, Some(q));
    CutOfTwo(k0, k1);
    var segs := [[p], [q]];
    assert segs[..1] == [[p]] && [[p]][..0] == [];
    assert Join([[p]]) == [p];
    assert [k0, k1][..1] == [k0];
  }

  lemma Unblamed(q: Payload)
    requires q.eof && !q.err
    ensures !CoreOf(Piece([q], [])).errored
  {
  }

  /** Two packets whose second frame hides an error: the bad packet is its only one, but it also reveals the
      lost end of the first frame and is charged there. */
  lemma HiddenError(p: Payload, q: Payload)
    requires !p.eof && q.eof && !q.err && p.fid != q.fid
    ensures var ks := [Packet(false, Some(p)), Packet(true, Some(q))]; var c := CutAll(ks);
      && c.closed == [Piece([p], ks), Piece([q], [])]
      && !CoreOf(c.closed[1]).errored && DocErrored(ks, Segments(c.closed), 1)
  {
    ToggleEofCut(p, q);
    SecondCarries(p, q);
    Unblamed(q);
    hide CutAll, CarriedBy, CoreOf;
    assert Segments(CutAll([Packet(false, Some(p)), Packet(true, Some(q))]).closed) == [[p], [q]];
  }

  /** And two whose only frame is flagged although the packet that carried it was good: a lost packet without
      data came before it. */
  lemma BorrowedError(p: Payload)
    requires p.eof && !p.err
    ensures var ks := [Packet(true, None), Packet(false, Some(p))]; var c := CutAll(ks);
      && c.closed == [Piece([p], ks)]
      && CoreOf(c.closed[0]).errored && !DocErrored(ks, Segments(c.closed), 0)
  {
    var k0, k1 := Packet(true, None), Packet(false, Some(p));
    var ks := [k0, k1];
    CutOfTwo(k0, k1);
    assert [] + [p] == [p] && [] + [k0] == [k0] && [k0] + [k1] == ks;
    assert [] + [Piece([p], ks)] == [Piece([p], ks)];
    assert ks[..1] == [k0] && [k0][..0] == [];
    assert BadCount([k0]) == 1;
    assert BadCount(ks) == BadCount(ks[..1]);
    var segs := Segments(CutAll(ks).closed);
    assert segs == [[p]];
    assert forall i: nat :: CarriedBy(ks, segs, 0, i) ==> i == 1;
  }
}
