/** From the bytes on the wire to the byte total of the summary: nothing is lost or counted twice on the way
    through the streams, the frames and the tally. */
module UvcSummary {
  import opened Base
  import opened UvcFrames
  import opened UvcCut
  import opened UvcTiming
  import opened UvcAssembler

  /** The frames written, of all streams. */
  function Frames(out: seq<Tagged>): seq<Frame> {
    if out == [] then [] else Frames(out[..|out| - 1]) + [out[|out| - 1].frame]
  }

  function BytesOf(out: seq<Tagged>): StreamId -> int {
    key => SumBytes(OfStream(out, key))
  }

  lemma OfStreamLast(out: seq<Tagged>, key: StreamId)
    requires out != []
    ensures var p, t := out[..|out| - 1], out[|out| - 1];
      BytesOf(out)(key) == BytesOf(p)(key) + if t.key == key then t.frame.core.bytes else 0
  {
    var p, t := out[..|out| - 1], out[|out| - 1];
    if t.key == key {
      assert OfStream(out, key)[..|OfStream(p, key)|] == OfStream(p, key);
    }
  }

  /** Every frame's bytes are those of exactly one stream. */
  lemma {:induction false} FramesByStream(out: seq<Tagged>, keys: set<StreamId>)
    requires forall t :: t in out ==> t.key in keys
    ensures SumBytes(Frames(out)) == SumOver(keys, BytesOf(out))
  {
    if out == [] {
      forall key | key in keys ensures BytesOf(out)(key) == 0 {
        assert OfStream(out, key) == [];
      }
      SumOfNothing(keys, BytesOf(out));
    } else {
      var p, t := out[..|out| - 1], out[|out| - 1];
      FramesByStream(p, keys);
      assert Frames(out)[..|Frames(p)|] == Frames(p);
      assert t in out;
      forall key ensures BytesOf(out)(key) == BytesOf(p)(key) + if t.key == key then t.frame.core.bytes else 0 {
        OfStreamLast(out, key);
      }
      SumWithout(keys, BytesOf(out), t.key);
      SumWithout(keys, BytesOf(p), t.key);
      SumAgrees(keys - {t.key}, BytesOf(out), BytesOf(p));
    }
  }

  lemma {:induction false} SumOfNothing(keys: set<StreamId>, f: StreamId -> int)
    requires forall key :: key in keys ==> f(key) == 0
    ensures SumOver(keys, f) == 0
    decreases |keys|
  {
    if keys != {} {
      var x :| x in keys;
      SumWithout(keys, f, x);
      SumOfNothing(keys - {x}, f);
    }
  }

  lemma {:induction false} FramesHaveStreams(f: Filter, cs: seq<Completion>)
    ensures var r := RunAssembler(f, cs); forall t :: t in r.out ==> t.key in r.streams
  {
    if cs != [] {
      FramesHaveStreams(f, cs[..|cs| - 1]);
    }
  }

  /** No counter of the stream overflows within one frame. */
  ghost predicate StreamFits(f: Filter, cs: seq<Completion>, key: StreamId) {
    Fits(CutAll(AllPackets(Own(f, cs, key))))
  }

  /** The payload bytes a stream was sent, in URBs that pass the filter. */
  function SentTo(f: Filter, cs: seq<Completion>, key: StreamId): nat {
    ByteCount(Payloads(AllPackets(Own(f, cs, key))))
  }

  lemma StreamConserves(f: Filter, cs: seq<Completion>, key: StreamId)
    requires key in RunAssembler(f, cs).streams && StreamFits(f, cs, key)
    ensures var r := RunAssembler(f, cs);
      SumBytes(OfStream(r.out, key)) + r.streams[key].bytes == SentTo(f, cs, key)
  {
    StreamRun(f, cs, key);
    UrbsAreOneRun(Own(f, cs, key));
    Conservation(TimedPackets(Own(f, cs, key)));
  }

  /** The byte total of the summary plus the bytes of frames still open, over all streams, is what the tracked
      streams were sent. */
  lemma SummaryConserves(s: FrameStats, f: Filter, cs: seq<Completion>)
    requires s.Counts(Frames(RunAssembler(f, cs).out))
    requires forall key :: key in RunAssembler(f, cs).streams ==> StreamFits(f, cs, key)
    ensures var m := RunAssembler(f, cs).streams;
      s.bytes + SumOver(m.Keys, key => StateIn(m, key).bytes) == SumOver(m.Keys, key => SentTo(f, cs, key))
  {
    var r := RunAssembler(f, cs);
    var m := r.streams;
    FramesHaveStreams(f, cs);
    FramesByStream(r.out, m.Keys);
    forall key | key in m.Keys ensures SentTo(f, cs, key) == BytesOf(r.out)(key) + StateIn(m, key).bytes {
      StreamConserves(f, cs, key);
    }
    SumOfSums(m.Keys, BytesOf(r.out), key => StateIn(m, key).bytes, key => SentTo(f, cs, key));
  }
}
