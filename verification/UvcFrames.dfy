/** The wire-frame assembler of one UVC stream as a value: packet decoding, the per-packet step, and the
    frames it emits. */
module UvcFrames {
  import opened Base

  const UVC_FID: nat := 0x01
  const UVC_EOF: nat := 0x02
  const UVC_PTS: nat := 0x04
  const UVC_SCR: nat := 0x08
  const UVC_ERR: nat := 0x40
  const MAX_ISOC_PKTS: nat := 32

  predicate Flag(b: byte, mask: nat)
    requires mask > 0
  {
    (b / mask) % 2 == 1
  }

  /** An isochronous packet descriptor as read from the URB, with the bytes that can be read from its offset
      in the transfer buffer on. */
  datatype Desc = Desc(readable: bool, status: int, actual: u32, off: u32, mem: seq<byte>)

  datatype Payload = Payload(
    fid: nat, eof: bool, err: bool, bytes: u32, pts: Option<u32>, scr: Option<(u32, nat)>)

  /** A readable descriptor: whether its status is non-zero, and its payload when the header is well formed. */
  datatype Packet = Packet(bad: bool, payload: Option<Payload>)

  function Le32(a: byte, b: byte, c: byte, d: byte): u32 {
    a + 0x100 * b + 0x1_0000 * c + 0x100_0000 * d
  }

  function Le16(a: byte, b: byte): nat {
    a + 0x100 * b
  }

  /** The twelve header bytes the parser looks at, the last ten zero when the buffer has no room for them. */
  function Header(d: Desc, tblen: u32): Option<seq<byte>>
    ensures Header(d, tblen).Some? ==> |Header(d, tblen).value| == 12
  {
    if Trunc32(d.off + 2) > tblen then None
    else if Trunc32(d.off + 12) <= tblen then
      if |d.mem| < 12 then None else Some(d.mem[..12])
    else if |d.mem| < 2 then None
    else Some(d.mem[..2] + [0, 0, 0, 0, 0, 0, 0, 0, 0, 0])
  }

  /** A payload header of a packet of `actual` bytes; `None` unless its length is from two up to the packet's. */
  function ParseHeader(h: seq<byte>, actual: u32): Option<Payload>
    requires |h| == 12
  {
    var hlen, bfh := h[0], h[1];
    if hlen < 2 || hlen > actual then None
    else Some(Payload(
      bfh % 2, Flag(bfh, UVC_EOF), Flag(bfh, UVC_ERR), actual - hlen,
      if Flag(bfh, UVC_PTS) && hlen >= 6 then Some(Le32(h[2], h[3], h[4], h[5])) else None,
      if Flag(bfh, UVC_PTS) && Flag(bfh, UVC_SCR) && hlen >= 12
        then Some((Le32(h[6], h[7], h[8], h[9]), Le16(h[10], h[11]))) else None))
  }

  function DecodePayload(d: Desc, tblen: u32): Option<Payload> {
    if d.actual == 0 || Header(d, tblen).None? then None else ParseHeader(Header(d, tblen).value, d.actual)
  }

  function Decode(d: Desc, tblen: u32): Option<Packet> {
    if d.readable then Some(Packet(d.status != 0, DecodePayload(d, tblen))) else None
  }

  /** The per-stream assembly state. */
  datatype State = State(
    frameStart: u64, lastEnd: u64, bytes: u32, packets: u32, errPackets: u32,
    pts: u32, stc: u32, sof: nat, fid: nat, haveFid: bool, sawErr: bool, active: bool)

  function Idle(): State {
    State(0, 0, 0, 0, 0, 0, 0, 0, 0, false, false, false)
  }

  /** The fields of a frame that do not depend on when its packets were delivered. */
  datatype Core = Core(
    bytes: u32, packets: u32, errPackets: u32, pts: u32, stc: u32, sof: nat,
    errored: bool, eof: bool, fid: nat)

  datatype Frame = Frame(core: Core, endTs: u64, duration: u32, interval: u32)

  /** `uint32_t` counters wrap. */
  function Add32(a: u32, b: u32): u32 {
    if a + b < TWO32 then a + b else a + b - TWO32
  }

  function FrameOf(st: State, eof: bool, now: u64): Frame {
    Frame(Core(st.bytes, st.packets, st.errPackets, st.pts, st.stc, st.sof, !eof || st.sawErr, eof, st.fid),
          now, Trunc32(Sub64(now, st.frameStart)), if st.lastEnd != 0 then Trunc32(Sub64(now, st.lastEnd)) else 0)
  }

  function Closed(st: State, now: u64): State {
    st.(lastEnd := now, bytes := 0, packets := 0, errPackets := 0, pts := 0, stc := 0, sof := 0,
        sawErr := false, active := false)
  }

  function Opened(st: State, fid: nat, now: u64): State {
    st.(active := true, haveFid := true, fid := fid, frameStart := now)
  }

  function Charged(st: State, bad: bool): State {
    if bad then st.(sawErr := true, errPackets := Add32(st.errPackets, 1)) else st
  }

  predicate Toggles(st: State, p: Payload) {
    st.active && st.haveFid && p.fid != st.fid
  }

  function Gathered(st: State, p: Payload): State {
    st.(bytes := Add32(st.bytes, p.bytes), packets := Add32(st.packets, 1), sawErr := st.sawErr || p.err,
        pts := if p.pts.Some? then p.pts.value else st.pts,
        stc := if p.scr.Some? then p.scr.value.0 else st.stc,
        sof := if p.scr.Some? then p.scr.value.1 else st.sof)
  }

  datatype Step = Step(st: State, out: seq<Frame>)

  /** The frame boundary, if any, in front of a payload. */
  function Boundary(st: State, p: Payload, now: u64): Step {
    if Toggles(st, p) then Step(Opened(Closed(st, now), p.fid, now), [FrameOf(st, false, now)])
    else if !st.active then Step(Opened(st, p.fid, now), [])
    else Step(st, [])
  }

  /** The frame boundary, if any, behind it. */
  function Finish(s: Step, p: Payload, now: u64): Step {
    if p.eof then Step(Closed(s.st, now), s.out + [FrameOf(s.st, true, now)]) else s
  }

  function Accept(st: State, p: Payload, now: u64): Step {
    var s := Boundary(st, p, now);
    Finish(Step(Gathered(s.st, p), s.out), p, now)
  }

  /** One readable packet: its status is charged first, to whatever frame is open at that moment. */
  function StepPacket(st: State, k: Packet, now: u64): Step {
    var c := Charged(st, k.bad);
    if k.payload.None? then Step(c, []) else Accept(c, k.payload.value, now)
  }

  datatype Timed = Timed(k: Packet, now: u64)

  function RunPackets(st: State, ps: seq<Timed>): Step {
    if ps == [] then Step(st, [])
    else
      var s := RunPackets(st, ps[..|ps| - 1]);
      var x := StepPacket(s.st, ps[|ps| - 1].k, ps[|ps| - 1].now);
      Step(x.st, s.out + x.out)
  }

  /** One completed URB of the stream. */
  datatype Urb = Urb(hasBuffer: bool, npkts: int, tblen: u32, descs: seq<Desc>)

  /** The packets the parser looks at: at most 32, none without a buffer; unreadable descriptors are skipped. */
  function UrbPackets(u: Urb): seq<Packet> {
    if u.hasBuffer then DecodeAll(Take(u.descs, Max(0, Min(u.npkts, MAX_ISOC_PKTS))), u.tblen) else []
  }

  function DecodeAll(ds: seq<Desc>, tblen: u32): seq<Packet> {
    if ds == [] then []
    else
      var p := DecodeAll(ds[..|ds| - 1], tblen);
      var k := Decode(ds[|ds| - 1], tblen);
      if k.Some? then p + [k.value] else p
  }

  function Stamp(ks: seq<Packet>, now: u64): seq<Timed> {
    seq(|ks|, i requires 0 <= i < |ks| => Timed(ks[i], now))
  }

  lemma RunOneMore(st: State, ps: seq<Timed>, x: Timed)
    ensures var s := RunPackets(st, ps); var y := StepPacket(s.st, x.k, x.now);
      RunPackets(st, ps + [x]) == Step(y.st, s.out + y.out)
  {
    assert (ps + [x])[..|ps|] == ps;
  }

  // ---- which descriptors are read ----

  /** The packets are the readable descriptors, in order and once each: packet `a` is descriptor `idx[a]`, bad
      exactly when its status is not zero, with the payload of that descriptor. */
  ghost predicate ReadFrom(ks: seq<Packet>, ds: seq<Desc>, tblen: u32, idx: seq<nat>) {
    && |idx| == |ks| && Increasing(idx)
    && forall a :: 0 <= a < |ks| ==>
         && idx[a] < |ds| && (ks[a].bad <==> ds[idx[a]].status != 0)
         && ks[a].payload == DecodePayload(ds[idx[a]], tblen)
  }

  lemma {:induction false} DecodeSelects(ds: seq<Desc>, tblen: u32) returns (idx: seq<nat>)
    ensures ReadFrom(DecodeAll(ds, tblen), ds, tblen, idx)
    ensures forall i: nat :: i in idx <==> i < |ds| && ds[i].readable
  {
    if ds == [] {
      idx := [];
    } else {
      var last := |ds| - 1;
      idx := DecodeSelects(ds[..last], tblen);
      hide DecodePayload, DecodeAll;
      DecodeLast(ds, tblen);
      if ds[last].readable {
        ghost var p := idx;
        ReadOneMore(DecodeAll(ds[..last], tblen), ds, tblen, p);
        idx := p + [last];
        assert forall i: nat :: i in idx <==> i in p || i == last;
      } else {
        ReadStill(DecodeAll(ds[..last], tblen), ds, tblen, idx);
      }
    }
  }

  lemma DecodeLast(ds: seq<Desc>, tblen: u32)
    requires ds != []
    ensures var p, d := DecodeAll(ds[..|ds| - 1], tblen), ds[|ds| - 1];
      DecodeAll(ds, tblen) == if d.readable then p + [Packet(d.status != 0, DecodePayload(d, tblen))] else p
  {
  }

  lemma ReadOneMore(ks: seq<Packet>, ds: seq<Desc>, tblen: u32, idx: seq<nat>)
    requires ds != [] && ReadFrom(ks, ds[..|ds| - 1], tblen, idx)
    ensures var d := ds[|ds| - 1];
      ReadFrom(ks + [Packet(d.status != 0, DecodePayload(d, tblen))], ds, tblen, idx + [|ds| - 1])
  {
    hide DecodePayload;
  }

  lemma ReadStill(ks: seq<Packet>, ds: seq<Desc>, tblen: u32, idx: seq<nat>)
    requires ds != [] && ReadFrom(ks, ds[..|ds| - 1], tblen, idx)
    ensures ReadFrom(ks, ds, tblen, idx)
  {
    hide DecodePayload;
  }

  /** No packet is skipped and none is added: an URB's packets are its readable descriptors among the first 32 of
      the announced number, and none without a transfer buffer. */
  lemma UrbSelects(u: Urb) returns (idx: seq<nat>)
    ensures ReadFrom(UrbPackets(u), u.descs, u.tblen, idx)
    ensures forall i: nat :: i in idx <==>
      u.hasBuffer && i < u.npkts && i < 32 && i < |u.descs| && u.descs[i].readable
  {
    if u.hasBuffer {
      var ds := Take(u.descs, Max(0, Min(u.npkts, MAX_ISOC_PKTS)));
      idx := DecodeSelects(ds, u.tblen);
      hide DecodePayload, DecodeAll;
      assert forall i :: 0 <= i < |ds| ==> ds[i] == u.descs[i];
    } else {
      idx := [];
    }
  }

  lemma RunNothing(st: State)
    ensures RunPackets(st, []) == Step(st, [])
  {
  }

  lemma {:induction false} RunConcat(st: State, a: seq<Timed>, b: seq<Timed>)
    ensures var s := RunPackets(st, a); var x := RunPackets(s.st, b);
      RunPackets(st, a + b) == Step(x.st, s.out + x.out)
    decreases |b|
  {
    hide *;
    var s := RunPackets(st, a);
    if b == [] {
      RunNothing(s.st);
      assert a + b == a && s.out + [] == s.out;
    } else {
      var p, x := b[..|b| - 1], b[|b| - 1];
      RunConcat(st, a, p);
      RunOneMore(st, a + p, x);
      RunOneMore(s.st, p, x);
      var t := RunPackets(s.st, p);
      Reassociate(s.out, t.out, StepPacket(t.st, x.k, x.now).out);
      assert a + b == (a + p) + [x] && b == p + [x];
    }
  }
}
