/** The assembler as the probe runs it: a bounded table of stream states, one URB completion at a time, and
    what a run of it shows of each stream. */
module UvcAssembler {
  import opened Base
  import opened UvcFrames
  import opened UvcCut

  const MAX_STREAMS: nat := 64

  /** Key of a stream: bus, device and endpoint number packed into 32 bits. */
  function StreamKey(bus: bv32, dev: bv32, ep: bv32): bv32 {
    (bus << 16) | (dev << 8) | ep
  }

  /** Streams do not share a key: bus numbers fit in 16 bits, USB device numbers in 7 and endpoint numbers
      in 4. */
  lemma StreamKeyInjective(b1: bv32, d1: bv32, e1: bv32, b2: bv32, d2: bv32, e2: bv32)
    requires b1 < 0x10000 && d1 < 128 && e1 < 16 && b2 < 0x10000 && d2 < 128 && e2 < 16
    ensures StreamKey(b1, d1, e1) == StreamKey(b2, d2, e2) ==> b1 == b2 && d1 == d2 && e1 == e2
  {
    StreamKeyParts(b1, d1, e1);
    StreamKeyParts(b2, d2, e2);
  }

  lemma StreamKeyParts(bus: bv32, dev: bv32, ep: bv32)
    requires bus < 0x10000 && dev < 128 && ep < 16
    ensures var k := StreamKey(bus, dev, ep);
      k >> 16 == bus && (k >> 8) & 0xff == dev && k & 0xff == ep
  {
  }

  class Stream {
    var frameStart: u64
    var lastEnd: u64
    var bytes: u32
    var packets: u32
    var errPackets: u32
    var pts: u32
    var stc: u32
    var sof: nat
    var fid: nat
    var haveFid: bool
    var sawErr: bool
    var active: bool

    ghost function Value(): State
      reads this
    {
      State(frameStart, lastEnd, bytes, packets, errPackets, pts, stc, sof, fid, haveFid, sawErr, active)
    }

    constructor ()
      ensures Value() == Idle()
    {
      frameStart, lastEnd, bytes, packets, errPackets, pts, stc, sof, fid := 0, 0, 0, 0, 0, 0, 0, 0, 0;
      haveFid, sawErr, active := false, false, false;
    }

    method EmitFrame(eof: bool, now: u64) returns (f: Frame)
      modifies this
      ensures f == FrameOf(old(Value()), eof, now) && Value() == Closed(old(Value()), now)
    {
      var interval: u32 := 0;
      if lastEnd != 0 {
        interval := Trunc32(Sub64(now, lastEnd));
      }
      f := Frame(Core(bytes, packets, errPackets, pts, stc, sof, !eof || sawErr, eof, fid),
                 now, Trunc32(Sub64(now, frameStart)), interval);
      lastEnd := now;
      bytes, packets, errPackets, pts, stc, sof := 0, 0, 0, 0, 0, 0;
      sawErr := false;
      active := false;
    }

    method Open(f: nat, now: u64)
      modifies this
      ensures Value() == Opened(old(Value()), f, now)
    {
      active, haveFid, fid, frameStart := true, true, f, now;
    }

    method Gather(p: Payload)
      modifies this
      ensures Value() == Gathered(old(Value()), p)
    {
      bytes := Add32(bytes, p.bytes);
      packets := Add32(packets, 1);
      if p.err {
        sawErr := true;
      }
      if p.pts.Some? {
        pts := p.pts.value;
      }
      if p.scr.Some? {
        stc, sof := p.scr.value.0, p.scr.value.1;
      }
    }

    /** The payload of one packet. */
    method OnPayload(p: Payload, now: u64) returns (out: seq<Frame>)
      modifies this
      ensures Step(Value(), out) == Accept(old(Value()), p, now)
    {
      out := [];
      if !active {
        Open(p.fid, now);
      } else if haveFid && p.fid != fid {
        var f := EmitFrame(false, now);
        out := [f];
        Open(p.fid, now);
      }
      Gather(p);
      if p.eof {
        var f := EmitFrame(true, now);
        out := out + [f];
      }
    }

    method OnPacket(d: Desc, tblen: u32, now: u64) returns (out: seq<Frame>)
      requires d.readable
      modifies this
      ensures Step(Value(), out) == StepPacket(old(Value()), Decode(d, tblen).value, now)
    {
      out := [];
      if d.status != 0 {
        sawErr := true;
        errPackets := Add32(errPackets, 1);
      }
      if d.actual == 0 {
        return;
      }
      var h := Header(d, tblen);
      if h.None? {
        return;
      }
      if h.value[0] < 2 || h.value[0] > d.actual {
        return;
      }
      out := OnPayload(DecodePayload(d, tblen).value, now);
    }

    /** The packet loop over one URB. */
    method Parse(u: Urb, now: u64) returns (out: seq<Frame>)
      requires u.npkts <= |u.descs|
      modifies this
      ensures Step(Value(), out) == RunPackets(old(Value()), Stamp(UrbPackets(u), now))
    {
      out := [];
      if !u.hasBuffer {
        return;
      }
      ghost var st0 := Value();
      ghost var ps: seq<Timed> := [];
      var i := 0;
      while i < MAX_ISOC_PKTS && i < u.npkts
        invariant 0 <= i <= MAX_ISOC_PKTS && i <= Max(0, u.npkts)
        invariant ps == Stamp(DecodeAll(u.descs[..i], u.tblen), now)
        invariant Step(Value(), out) == RunPackets(st0, ps)
      {
        DecodeNext(u.descs, i, u.tblen, now);
        if u.descs[i].readable {
          ghost var x := Timed(Decode(u.descs[i], u.tblen).value, now);
          RunOneMore(st0, ps, x);
          ps := ps + [x];
          var more := OnPacket(u.descs[i], u.tblen, now);
          out := out + more;
        }
        i := i + 1;
      }
      assert Take(u.descs, Max(0, Min(u.npkts, MAX_ISOC_PKTS))) == u.descs[..i];
    }
  }

  lemma DecodeNext(ds: seq<Desc>, i: nat, tblen: u32, now: u64)
    requires i < |ds|
    ensures var was, next := Stamp(DecodeAll(ds[..i], tblen), now), Stamp(DecodeAll(ds[..i + 1], tblen), now);
      next == if ds[i].readable then was + [Timed(Decode(ds[i], tblen).value, now)] else was
  {
    assert ds[..i + 1][..i] == ds[..i];
  }

  datatype StreamId = StreamId(bits: bv32)

  /** One device's URB as the probe sees it. */
  datatype Completion = Completion(vid: nat, pid: nat, bus: bv32, dev: bv32, ep: bv32, urb: Urb, now: u64)
  {
    function Key(): StreamId {
      StreamId(StreamKey(bus, dev, ep))
    }
  }

  datatype Filter = Filter(vid: nat, pid: nat)
  {
    predicate Wants(c: Completion) {
      (vid == 0 || c.vid == vid) && (pid == 0 || c.pid == pid)
    }
  }

  datatype Tagged = Tagged(key: StreamId, frame: Frame)

  function TagAll(key: StreamId, fs: seq<Frame>): seq<Tagged> {
    seq(|fs|, i requires 0 <= i < |fs| => Tagged(key, fs[i]))
  }

  type Streams = map<StreamId, State>

  lemma UpdateTwice(m: Streams, key: StreamId, a: State, b: State)
    ensures m[key := a][key := b] == m[key := b] && m[key := a][key] == a
  {
  }

  function StateIn(m: Streams, key: StreamId): State {
    if key in m then m[key] else Idle()
  }

  /** The URB passes the filter, and its stream has a state or finds room for one. */
  predicate Admits(f: Filter, m: Streams, c: Completion) {
    f.Wants(c) && (c.Key() in m || |m| < MAX_STREAMS)
  }

  function StepUrb(st: State, c: Completion): Step {
    RunPackets(st, Stamp(UrbPackets(c.urb), c.now))
  }

  function StepStreams(f: Filter, m: Streams, c: Completion): Streams {
    if Admits(f, m, c) then m[c.Key() := StepUrb(StateIn(m, c.Key()), c).st] else m
  }

  function StepFrames(f: Filter, m: Streams, c: Completion): seq<Tagged> {
    if Admits(f, m, c) then TagAll(c.Key(), StepUrb(StateIn(m, c.Key()), c).out) else []
  }

  class Assembler {
    const filter: Filter
    var streams: map<StreamId, Stream>
    /** The frame events written so far. */
    var out: seq<Tagged>

    constructor (f: Filter)
      ensures Valid() && Table() == map[] && out == [] && filter == f
    {
      filter, streams, out := f, map[], [];
    }

    ghost predicate Valid()
      reads this
    {
      && |streams| <= MAX_STREAMS
      && forall a, b :: a in streams && b in streams && a != b ==> streams[a] != streams[b]
    }

    ghost function Table(): Streams
      reads this, streams.Values
    {
      map k | k in streams :: streams[k].Value()
    }

    /** One completed URB: its stream steps through the packets and every other stream is left alone. A URB
        that fails the filter, or a new stream when the table is full, changes nothing. */
    method ParseFrames(c: Completion)
      requires Valid() && c.urb.npkts <= |c.urb.descs|
      modifies this, if c.Key() in streams then {streams[c.Key()]} else {}
      ensures Valid()
      ensures Table() == StepStreams(filter, old(Table()), c)
      ensures out == old(out) + StepFrames(filter, old(Table()), c)
    {
      TableSize();
      if filter.vid != 0 && c.vid != filter.vid {
        return;
      }
      if filter.pid != 0 && c.pid != filter.pid {
        return;
      }
      hide StreamKey;
      var key := c.Key();
      if key !in streams && |streams| >= MAX_STREAMS {
        return;
      }
      ParseKnown(key, c.urb, c.now);
    }

    method ParseKnown(key: StreamId, u: Urb, now: u64)
      requires Valid() && (key in streams || |streams| < MAX_STREAMS) && u.npkts <= |u.descs|
      modifies this, if key in streams then {streams[key]} else {}
      ensures Valid()
      ensures var s := RunPackets(StateIn(old(Table()), key), Stamp(UrbPackets(u), now));
        Table() == old(Table())[key := s.st] && out == old(out) + TagAll(key, s.out)
    {
      hide RunPackets, Stamp, UrbPackets, TagAll;
      ghost var m := Table();
      ghost var s := RunPackets(StateIn(m, key), Stamp(UrbPackets(u), now));
      Ensure(key);
      UpdateTwice(m, key, StateIn(m, key), s.st);
      var more := ParseStream(key, u, now);
      hide StateIn;
      out := out + TagAll(key, more);
    }

    lemma TableSize()
      ensures |Table()| == |streams|
    {
      assert Table().Keys == streams.Keys;
      assert |Table().Keys| == |Table()| && |streams.Keys| == |streams|;
    }

    /** A new stream starts from the all-zero state. */
    method Ensure(key: StreamId)
      requires Valid() && (key in streams || |streams| < MAX_STREAMS)
      modifies this`streams
      ensures Valid() && key in streams
      ensures Table() == old(Table())[key := StateIn(old(Table()), key)]
      ensures key in old(streams) ==> streams == old(streams)
      ensures key !in old(streams) ==> fresh(streams[key])
    {
      if key !in streams {
        var st := new Stream();
        streams := streams[key := st];
      }
    }

    method ParseStream(key: StreamId, u: Urb, now: u64) returns (more: seq<Frame>)
      requires Valid() && key in streams && u.npkts <= |u.descs|
      modifies streams[key]
      ensures Valid()
      ensures var s := RunPackets(old(Table())[key], Stamp(UrbPackets(u), now));
        more == s.out && Table() == old(Table())[key := s.st]
    {
      more := streams[key].Parse(u, now);
    }
  }

  /** What the filter lets through: everything when it names neither number, and otherwise the devices with the
      number or numbers it names. */
  lemma FilterMeans(f: Filter, c: Completion)
    ensures f == Filter(0, 0) ==> f.Wants(c)
    ensures f.vid != 0 && f.pid == 0 ==> (f.Wants(c) <==> c.vid == f.vid)
    ensures f.vid == 0 && f.pid != 0 ==> (f.Wants(c) <==> c.pid == f.pid)
    ensures f.vid != 0 && f.pid != 0 ==> (f.Wants(c) <==> c.vid == f.vid && c.pid == f.pid)
  {
  }

  // ---- one stream alone ----

  /** One stream over a sequence of its URBs. */
  function RunUrbs(us: seq<Completion>): Step {
    if us == [] then Step(Idle(), [])
    else
      var s := RunUrbs(us[..|us| - 1]);
      var x := StepUrb(s.st, us[|us| - 1]);
      Step(x.st, s.out + x.out)
  }

  function TimedPackets(us: seq<Completion>): seq<Timed> {
    if us == [] then []
    else TimedPackets(us[..|us| - 1]) + Stamp(UrbPackets(us[|us| - 1].urb), us[|us| - 1].now)
  }

  function AllPackets(us: seq<Completion>): seq<Packet> {
    if us == [] then [] else AllPackets(us[..|us| - 1]) + UrbPackets(us[|us| - 1].urb)
  }

  lemma {:induction false} UrbsAreOneRun(us: seq<Completion>)
    ensures RunUrbs(us) == RunPackets(Idle(), TimedPackets(us)) && Untimed(TimedPackets(us)) == AllPackets(us)
  {
    if us != [] {
      var p, u := us[..|us| - 1], us[|us| - 1];
      UrbsAreOneRun(p);
      RunConcat(Idle(), TimedPackets(p), Stamp(UrbPackets(u.urb), u.now));
      UntimedConcat(TimedPackets(p), Stamp(UrbPackets(u.urb), u.now));
      UntimedStamp(UrbPackets(u.urb), u.now);
    }
  }

  lemma {:induction false} UntimedConcat(a: seq<Timed>, b: seq<Timed>)
    ensures Untimed(a + b) == Untimed(a) + Untimed(b)
    decreases |b|
  {
    if b == [] {
      assert a + b == a;
    } else {
      UntimedConcat(a, b[..|b| - 1]);
      assert (a + b)[..|a + b| - 1] == a + b[..|b| - 1];
    }
  }

  lemma {:induction false} UntimedStamp(ks: seq<Packet>, now: u64)
    ensures Untimed(Stamp(ks, now)) == ks
  {
    if ks != [] {
      UntimedStamp(ks[..|ks| - 1], now);
      assert Stamp(ks, now)[..|ks| - 1] == Stamp(ks[..|ks| - 1], now);
    }
  }

  // ---- the assembler over a run of all streams ----

  datatype Trace = Trace(streams: Streams, out: seq<Tagged>)

  /** What the assembler holds and has written after completions `cs`, of whatever streams. */
  function RunAssembler(f: Filter, cs: seq<Completion>): Trace {
    if cs == [] then Trace(map[], [])
    else
      var r := RunAssembler(f, cs[..|cs| - 1]);
      Trace(StepStreams(f, r.streams, cs[|cs| - 1]), r.out + StepFrames(f, r.streams, cs[|cs| - 1]))
  }

  /** The URBs of a stream that pass the filter. */
  function Own(f: Filter, cs: seq<Completion>, key: StreamId): seq<Completion> {
    if cs == [] then []
    else
      var p, c := Own(f, cs[..|cs| - 1], key), cs[|cs| - 1];
      if f.Wants(c) && c.Key() == key then p + [c] else p
  }

  function OfStream(out: seq<Tagged>, key: StreamId): seq<Frame> {
    if out == [] then []
    else
      var p, t := OfStream(out[..|out| - 1], key), out[|out| - 1];
      if t.key == key then p + [t.frame] else p
  }

  lemma {:induction false} OfStreamTagged(out: seq<Tagged>, own: StreamId, fs: seq<Frame>, key: StreamId)
    ensures OfStream(out + TagAll(own, fs), key) == if own == key then OfStream(out, key) + fs else OfStream(out, key)
    decreases |fs|
  {
    var t := out + TagAll(own, fs);
    if fs == [] {
      assert t == out && OfStream(out, key) + fs == OfStream(out, key);
    } else {
      var p := fs[..|fs| - 1];
      OfStreamTagged(out, own, p, key);
      assert t[..|t| - 1] == out + TagAll(own, p);
      assert t[|t| - 1] == Tagged(own, fs[|fs| - 1]);
      assert p + [fs[|fs| - 1]] == fs;
    }
  }

  /** A stream is tracked from its first URB that passes the filter, or never because the table was full by
      then. A tracked stream is unaffected by all others: its state and its frames are those of one run over
      the packets of its own URBs. */
  lemma StreamRun(f: Filter, cs: seq<Completion>, key: StreamId)
    ensures var r, own := RunAssembler(f, cs), Own(f, cs, key);
      if key in r.streams
      then own != [] && Step(r.streams[key], OfStream(r.out, key)) == RunPackets(Idle(), TimedPackets(own))
      else OfStream(r.out, key) == [] && (own == [] || |r.streams| >= 64)
  {
    StreamRunUrbs(f, cs, key);
    UrbsAreOneRun(Own(f, cs, key));
  }

  lemma {:induction false} StreamRunUrbs(f: Filter, cs: seq<Completion>, key: StreamId)
    ensures StreamIs(f, cs, key, RunAssembler(f, cs))
  {
    hide *;
    if cs == [] {
      NothingRun(f, key);
    } else {
      var p, c := cs[..|cs| - 1], cs[|cs| - 1];
      StreamRunUrbs(f, p, key);
      StreamNext(f, p, c, key);
      assert cs == p + [c];
    }
  }

  lemma NothingRun(f: Filter, key: StreamId)
    ensures StreamIs(f, [], key, RunAssembler(f, []))
  {
  }

  lemma StreamNext(f: Filter, p: seq<Completion>, c: Completion, key: StreamId)
    requires StreamIs(f, p, key, RunAssembler(f, p))
    ensures StreamIs(f, p + [c], key, RunAssembler(f, p + [c]))
  {
    var r := RunAssembler(f, p);
    assert (p + [c])[..|p|] == p;
    assert RunAssembler(f, p + [c]) == Trace(StepStreams(f, r.streams, c), r.out + StepFrames(f, r.streams, c));
    hide *;
    if Admits(f, r.streams, c) {
      StreamAdmitted(f, p, c, key, r);
    } else {
      StreamRefused(f, p, c, key, r);
    }
  }

  lemma StreamRefused(f: Filter, p: seq<Completion>, c: Completion, key: StreamId, r: Trace)
    requires StreamIs(f, p, key, r) && !Admits(f, r.streams, c)
    ensures StreamIs(f, p + [c], key, Trace(StepStreams(f, r.streams, c), r.out + StepFrames(f, r.streams, c)))
  {
    assert (p + [c])[..|p|] == p;
    assert r.out + [] == r.out;
    hide StepUrb, Completion.Key, Filter.Wants;
  }

  ghost predicate StreamIs(f: Filter, cs: seq<Completion>, key: StreamId, r: Trace) {
    var own := Own(f, cs, key);
    if key in r.streams then own != [] && Step(r.streams[key], OfStream(r.out, key)) == RunUrbs(own)
    else OfStream(r.out, key) == [] && (own == [] || |r.streams| >= MAX_STREAMS)
  }

  lemma StreamAdmitted(f: Filter, p: seq<Completion>, c: Completion, key: StreamId, r: Trace)
    requires StreamIs(f, p, key, r) && Admits(f, r.streams, c)
    ensures StreamIs(f, p + [c], key, Trace(StepStreams(f, r.streams, c), r.out + StepFrames(f, r.streams, c)))
  {
    OwnNext(f, p, c, key);
    OfStreamTagged(r.out, c.Key(), StepUrb(StateIn(r.streams, c.Key()), c).out, key);
    UrbNext(Own(f, p, key), c);
    hide Completion.Key, StepUrb, OfStream, TagAll, Own, RunUrbs;
    if c.Key() == key && key !in r.streams {
      assert Own(f, p, key) == [];
      NoUrbs();
    }
  }

  lemma OwnNext(f: Filter, p: seq<Completion>, c: Completion, key: StreamId)
    ensures Own(f, p + [c], key) == if f.Wants(c) && c.Key() == key then Own(f, p, key) + [c] else Own(f, p, key)
  {
    assert (p + [c])[..|p|] == p;
  }

  lemma UrbNext(own: seq<Completion>, c: Completion)
    ensures var s := RunUrbs(own); var x := StepUrb(s.st, c); RunUrbs(own + [c]) == Step(x.st, s.out + x.out)
  {
    assert (own + [c])[..|own|] == own;
  }

  lemma NoUrbs()
    ensures RunUrbs([]) == Step(Idle(), [])
  {
  }

  /** The frames of a stream are the unique segmentation of its packets, whatever URBs carried them and
      whatever the other streams do: two runs that give a stream the same packets give it the same frames,
      times aside. */
  lemma UrbGroupingInvariant(f: Filter, a: seq<Completion>, b: seq<Completion>, key: StreamId)
    requires key in RunAssembler(f, a).streams && key in RunAssembler(f, b).streams
    requires AllPackets(Own(f, a, key)) == AllPackets(Own(f, b, key))
    ensures var x, y := OfStream(RunAssembler(f, a).out, key), OfStream(RunAssembler(f, b).out, key);
      |x| == |y| && forall j :: 0 <= j < |x| ==> x[j].core == y[j].core
  {
    StreamRun(f, a, key);
    StreamRun(f, b, key);
    UrbsAreOneRun(Own(f, a, key));
    UrbsAreOneRun(Own(f, b, key));
    RegroupingInvariant(TimedPackets(Own(f, a, key)), TimedPackets(Own(f, b, key)));
  }

  /** Numbers as USB assigns them: 16-bit buses, 7-bit devices, 4-bit endpoints. */
  ghost predicate Numbered(cs: seq<Completion>) {
    forall i :: 0 <= i < |cs| ==> cs[i].bus < 0x10000 && cs[i].dev < 128 && cs[i].ep < 16
  }

  function OfEndpoint(f: Filter, cs: seq<Completion>, e: Completion): seq<Completion> {
    if cs == [] then []
    else
      var p, c := OfEndpoint(f, cs[..|cs| - 1], e), cs[|cs| - 1];
      if f.Wants(c) && c.bus == e.bus && c.dev == e.dev && c.ep == e.ep then p + [c] else p
  }

  lemma SameKey(c: Completion, e: Completion)
    requires c.bus < 0x10000 && c.dev < 128 && c.ep < 16 && e.bus < 0x10000 && e.dev < 128 && e.ep < 16
    ensures c.Key() == e.Key() <==> c.bus == e.bus && c.dev == e.dev && c.ep == e.ep
  {
    StreamKeyInjective(c.bus, c.dev, c.ep, e.bus, e.dev, e.ep);
  }

  /** Since keys are not shared, a stream's URBs are those of one endpoint of one device. */
  lemma {:induction false} StreamIsEndpoint(f: Filter, cs: seq<Completion>, e: Completion)
    requires Numbered(cs) && Numbered([e])
    ensures Own(f, cs, e.Key()) == OfEndpoint(f, cs, e)
  {
    if cs != [] {
      var c := cs[|cs| - 1];
      StreamIsEndpoint(f, cs[..|cs| - 1], e);
      assert e == [e][0];
      SameKey(c, e);
      hide Completion.Key;
    }
  }
}
