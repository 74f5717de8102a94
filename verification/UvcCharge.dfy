/** To which frame each packet's status is charged: where a frame's charges end is fixed by the payload
    headers, so the cut together with its charges is unique. */
module UvcCharge {
  import opened Base
  import opened UvcFrames
  import opened UvcCut

  /** The packet that carried payload number `n`. */
  function PacketOf(ks: seq<Packet>, n: nat): (r: nat)
    requires n < |Payloads(ks)|
    ensures r < |ks| && ks[r].payload == Some(Payloads(ks)[n]) && |Payloads(ks[..r])| == n
  {
    var q := ks[..|ks| - 1];
    if n < |Payloads(q)| then
      var r := PacketOf(q, n);
      assert q[..r] == ks[..r];
      r
    else |ks| - 1
  }

  lemma PacketOfAppend(ks: seq<Packet>, k: Packet, n: nat)
    requires n < |Payloads(ks)|
    ensures Payloads(ks) <= Payloads(ks + [k]) && PacketOf(ks + [k], n) == PacketOf(ks, n)
  {
    assert (ks + [k])[..|ks|] == ks;
  }

  lemma PacketOfLast(ks: seq<Packet>, k: Packet)
    requires k.payload.Some?
    ensures Payloads(ks + [k]) == Payloads(ks) + [k.payload.value] && PacketOf(ks + [k], |Payloads(ks)|) == |ks|
  {
    assert (ks + [k])[..|ks|] == ks;
  }

  lemma PayloadsNext(ks: seq<Packet>, i: nat)
    requires i < |ks|
    ensures |Payloads(ks[..i + 1])| == |Payloads(ks[..i])| + if ks[i].payload.Some? then 1 else 0
  {
    assert ks[..i + 1][..i] == ks[..i];
  }

  lemma {:induction false} PayloadsGrow(ks: seq<Packet>, a: nat, b: nat)
    requires a <= b <= |ks|
    ensures |Payloads(ks[..a])| <= |Payloads(ks[..b])|
  {
    if a < b {
      PayloadsGrow(ks, a, b - 1);
      PayloadsNext(ks, b - 1);
    }
  }

  lemma PacketOfOrder(ks: seq<Packet>, n: nat, m: nat)
    requires n < m < |Payloads(ks)|
    ensures PacketOf(ks, n) < PacketOf(ks, m)
  {
    if PacketOf(ks, m) <= PacketOf(ks, n) {
      PayloadsGrow(ks, PacketOf(ks, m), PacketOf(ks, n));
    }
  }

  lemma PacketOfMonotone(ks: seq<Packet>, n: nat, m: nat)
    requires n <= m < |Payloads(ks)|
    ensures PacketOf(ks, n) <= PacketOf(ks, m)
  {
    if n < m {
      PacketOfOrder(ks, n, m);
    }
  }

  /** Number of the first payload of frame `j`. */
  function Starts(segs: seq<seq<Payload>>, j: nat): nat
    requires j <= |segs|
  {
    |Join(segs[..j])|
  }

  /** Number of the payload that closes frame `j`: its own last one when that carries the end of frame, else
      the first one of the next frame, whose frame id toggled. */
  function Closer(segs: seq<seq<Payload>>, j: nat): nat
    requires j < |segs|
  {
    Starts(segs, j) + |segs[j]| - if EndsWithEof(segs[j]) then 1 else 0
  }

  lemma StartsNext(segs: seq<seq<Payload>>, j: nat)
    requires j < |segs|
    ensures Starts(segs, j + 1) == Starts(segs, j) + |segs[j]|
  {
    assert segs[..j + 1][..j] == segs[..j];
  }

  lemma StartsPrefix(a: seq<seq<Payload>>, b: seq<seq<Payload>>, j: nat)
    requires a <= b && j <= |a|
    ensures Starts(b, j) == Starts(a, j)
  {
    assert b[..j] == a[..j];
  }

  /** The charges of the frames up to `j` are all packets up to the one that closes frame `j`. */
  ghost predicate ChargedUpTo(ks: seq<Packet>, c: Cut, j: nat)
    requires j < |c.closed|
  {
    var n := Closer(Segments(c.closed), j);
    n < |Payloads(ks)| && JoinCharged(c.closed[..j + 1]) == ks[..PacketOf(ks, n) + 1]
  }

  /** A cut of packets into frames and charges, described by the packets alone: the payloads are segmented as
      their headers call for, and every packet is charged, in order, to the first frame that is closed by it
      or by a later one; the packets behind the last closing one are pending. */
  ghost predicate IsChargedCut(ks: seq<Packet>, c: Cut) {
    && IsCut(Payloads(ks), Segments(c.closed), c.open)
    && JoinCharged(c.closed) + c.pending == ks
    && forall j :: 0 <= j < |c.closed| ==> ChargedUpTo(ks, c, j)
  }

  // ---- the machine's cut is one ----

  lemma SegmentsPrefix(a: seq<Piece>, b: seq<Piece>)
    requires a <= b
    ensures Segments(a) <= Segments(b)
  {
  }

  lemma ChargedKept(q: seq<Packet>, k: Packet, c: Cut, d: Cut, j: nat)
    requires c.closed <= d.closed && j < |c.closed| && ChargedUpTo(q, c, j)
    ensures ChargedUpTo(q + [k], d, j)
  {
    SegmentsPrefix(c.closed, d.closed);
    StartsPrefix(Segments(c.closed), Segments(d.closed), j);
    var n := Closer(Segments(c.closed), j);
    PacketOfAppend(q, k, n);
    assert Closer(Segments(d.closed), j) == n;
    assert d.closed[..j + 1] == c.closed[..j + 1];
    hide Closer, Segments, JoinCharged, Payloads;
    assert (q + [k])[..PacketOf(q, n) + 1] == q[..PacketOf(q, n) + 1];
  }

  lemma JoinChargedAppend(ps: seq<Piece>, p: Piece)
    ensures JoinCharged(ps + [p]) == JoinCharged(ps) + p.charged
  {
    assert (ps + [p])[..|ps|] == ps;
  }

  /** A frame closed just now by the payload of the last packet. */
  lemma ChargedNow(q: seq<Packet>, k: Packet, ps: seq<Piece>, p: Piece, d: Cut)
    requires k.payload.Some? && ps + [p] <= d.closed && JoinCharged(ps) + p.charged == q + [k]
    requires |Join(Segments(ps))| + |p.pays| == |Payloads(q)| + if EndsWithEof(p.pays) then 1 else 0
    ensures ChargedUpTo(q + [k], d, |ps|)
  {
    var j := |ps|;
    SegmentsAppend(ps, p);
    SegmentsPrefix(ps + [p], d.closed);
    StartsPrefix(Segments(ps + [p]), Segments(d.closed), j);
    assert Segments(ps + [p])[..j] == Segments(ps);
    PacketOfLast(q, k);
    assert d.closed[..j + 1] == ps + [p];
    JoinChargedAppend(ps, p);
    assert (q + [k])[..|q| + 1] == q + [k];
  }

  lemma ToggleCut(c: Cut, k: Packet)
    requires k.payload.Some? && c.open != [] && c.open[0].fid != k.payload.value.fid
    ensures var p := k.payload.value; var lost := c.closed + [Piece(c.open, c.pending + [k])];
      CutNext(c, k).closed == if p.eof then lost + [Piece([p], [])] else lost
  {
    assert [] + [k.payload.value] == [k.payload.value];
  }

  /** A toggle closes the open frame. */
  lemma ToggleCharges(q: seq<Packet>, k: Packet, c: Cut)
    requires IsChargedCut(q, c) && k.payload.Some? && c.open != [] && c.open[0].fid != k.payload.value.fid
    ensures ChargedUpTo(q + [k], CutNext(c, k), |c.closed|)
  {
    ToggleCut(c, k);
    assert JoinCharged(c.closed) + (c.pending + [k]) == (JoinCharged(c.closed) + c.pending) + [k];
    hide CutNext, ChargedUpTo, JoinCharged;
    ChargedNow(q, k, c.closed, Piece(c.open, c.pending + [k]), CutNext(c, k));
  }

  lemma AllCharged(q: seq<Packet>, k: Packet, c: Cut)
    requires IsChargedCut(q, c)
    ensures var ps := c.closed + [Piece(c.open, c.pending + [k])];
      JoinCharged(ps) == q + [k] && Join(Segments(ps)) == Payloads(q)
  {
    var lost := Piece(c.open, c.pending + [k]);
    JoinChargedAppend(c.closed, lost);
    SegmentsAppend(c.closed, lost);
    JoinAppend(Segments(c.closed), c.open);
    assert JoinCharged(c.closed) + lost.charged == (JoinCharged(c.closed) + c.pending) + [k];
  }

  /** Its packet may close the next frame, too; nothing is left to charge to that one. */
  lemma ToggleEofCharges(q: seq<Packet>, k: Packet, c: Cut)
    requires IsChargedCut(q, c) && k.payload.Some? && c.open != [] && c.open[0].fid != k.payload.value.fid
    requires k.payload.value.eof
    ensures ChargedUpTo(q + [k], CutNext(c, k), |c.closed| + 1)
  {
    ToggleCut(c, k);
    AllCharged(q, k, c);
    hide CutNext, ChargedUpTo, JoinCharged, Join, IsChargedCut, Segments, Payloads;
    var ps := c.closed + [Piece(c.open, c.pending + [k])];
    assert JoinCharged(ps) + [] == q + [k];
    ChargedNow(q, k, ps, Piece([k.payload.value], []), CutNext(c, k));
  }

  lemma EofCharges(q: seq<Packet>, k: Packet, c: Cut)
    requires IsChargedCut(q, c) && k.payload.Some? && k.payload.value.eof
    requires c.open == [] || c.open[0].fid == k.payload.value.fid
    ensures ChargedUpTo(q + [k], CutNext(c, k), |c.closed|)
  {
    var p, pending := k.payload.value, c.pending + [k];
    assert JoinCharged(c.closed) + pending == (JoinCharged(c.closed) + c.pending) + [k];
    ChargedNow(q, k, c.closed, Piece(c.open + [p], pending), CutNext(c, k));
  }

  /** What the last packet closed is charged up to that packet. */
  lemma ChargedNew(q: seq<Packet>, k: Packet, c: Cut, j: nat)
    requires IsChargedCut(q, c) && |c.closed| <= j < |CutNext(c, k).closed|
    ensures ChargedUpTo(q + [k], CutNext(c, k), j)
  {
    assert k.payload.Some?;
    if c.open != [] && c.open[0].fid != k.payload.value.fid {
      ToggleCut(c, k);
      hide *;
      if j == |c.closed| {
        ToggleCharges(q, k, c);
      } else {
        ToggleEofCharges(q, k, c);
      }
    } else {
      assert k.payload.value.eof && j == |c.closed|;
      hide *;
      EofCharges(q, k, c);
    }
  }

  lemma ChargedNext(q: seq<Packet>, k: Packet, c: Cut)
    requires IsChargedCut(q, c)
    ensures var d := CutNext(c, k); forall j :: 0 <= j < |d.closed| ==> ChargedUpTo(q + [k], d, j)
  {
    var d := CutNext(c, k);
    assert c.closed <= d.closed;
    hide CutNext;
    forall j | 0 <= j < |d.closed| ensures ChargedUpTo(q + [k], d, j) {
      if j < |c.closed| {
        ChargedKept(q, k, c, d, j);
      } else {
        ChargedNew(q, k, c, j);
      }
    }
  }

  /** The machine's cut is a segmentation of the payloads, with the charges ending where frames are closed. */
  lemma {:induction false} CutIsCharged(ks: seq<Packet>)
    ensures IsChargedCut(ks, CutAll(ks))
  {
    CutIsSegmentation(ks);
    ChargesPartition(ks);
    if ks != [] {
      var q, k := ks[..|ks| - 1], ks[|ks| - 1];
      CutIsCharged(q);
      ChargedNext(q, k, CutAll(q));
      assert ks == q + [k];
    }
  }

  // ---- and there is only one ----

  lemma Cancel(p: seq<Packet>, a: seq<Packet>, b: seq<Packet>)
    requires p + a == p + b
    ensures a == b
  {
    assert a == (p + a)[|p|..] && b == (p + b)[|p|..];
  }

  lemma {:induction false} SameCharges(a: seq<Piece>, b: seq<Piece>)
    requires Segments(a) == Segments(b) && |a| == |b|
    requires forall j :: 0 <= j <= |a| ==> JoinCharged(a[..j]) == JoinCharged(b[..j])
    ensures a == b
  {
    if a != [] {
      var n := |a| - 1;
      forall j | 0 <= j <= n ensures JoinCharged(a[..n][..j]) == JoinCharged(b[..n][..j]) {
        assert a[..n][..j] == a[..j] && b[..n][..j] == b[..j];
      }
      assert Segments(a[..n]) == Segments(a)[..n] && Segments(b[..n]) == Segments(b)[..n];
      SameCharges(a[..n], b[..n]);
      assert a[..n + 1] == a && b[..n + 1] == b;
      Cancel(JoinCharged(a[..n]), a[n].charged, b[n].charged);
      assert a[n].pays == Segments(a)[n] && b[n].pays == Segments(b)[n];
    }
  }

  /** The packets admit only one such cut: frames, charges, open frame and pending charges. */
  lemma ChargedCutIsUnique(ks: seq<Packet>, a: Cut, b: Cut)
    requires IsChargedCut(ks, a) && IsChargedCut(ks, b)
    ensures a == b
  {
    CutIsUnique(Payloads(ks), Split(Segments(a.closed), a.open), Split(Segments(b.closed), b.open));
    assert |a.closed| == |Segments(a.closed)| == |b.closed|;
    forall j | 0 <= j <= |a.closed| ensures JoinCharged(a.closed[..j]) == JoinCharged(b.closed[..j]) {
      if j > 0 {
        assert ChargedUpTo(ks, a, j - 1) && ChargedUpTo(ks, b, j - 1);
        hide Segments, Closer, Payloads, JoinCharged, IsChargedCut;
      }
    }
    hide *;
    SameCharges(a.closed, b.closed);
    Cancel(JoinCharged(a.closed), a.pending, b.pending);
  }
}
