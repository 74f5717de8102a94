/** Why the video driver dropped a frame: causes are tagged on a buffer while it is decoded and taken off
    when it completes. */
module UvcDrops {
  import opened Base
  import UvcFrames

  const MAX_TAGGED: nat := 64

  datatype Cause = SHORT | ISO | OTHER

  /** A buffer as the probes read it: its address (zero for null), whether it is a video capture buffer, and
      whether its stream passes the device filter. */
  datatype Buffer = Buffer(ptr: nat, isVideo: bool, passes: bool)

  /** What `uvc_queue_buffer_complete` finds: the queue, its drop flag, and the buffer's fill state. */
  datatype Completion = Completion(
    hasQueue: bool, dropCorrupted: bool, error: bool, bytesUsed: u32, maxSize: u32, compressed: bool)

  datatype Call =
    | Decode(b: Buffer, npkts: int, descs: seq<UvcFrames.Desc>)
    | Complete(b: Buffer, c: Completion)

  datatype Drop = Drop(ptr: nat, reason: set<Cause>)

  type Tags = map<nat, set<Cause>>

  function AddCause(m: Tags, ptr: nat, cause: Cause): Tags {
    MapUpdate(m, MAX_TAGGED, ptr, (if ptr in m then m[ptr] else {}) + {cause})
  }

  /** A readable descriptor with a negative status among those looked at. */
  predicate LostPacket(npkts: int, descs: seq<UvcFrames.Desc>) {
    exists i :: 0 <= i < |descs| && i < npkts && i < UvcFrames.MAX_ISOC_PKTS && descs[i].readable && descs[i].status < 0
  }

  predicate TagsIso(c: Call) {
    c.Decode? && c.b.ptr != 0 && c.b.isVideo && c.b.passes && LostPacket(c.npkts, c.descs)
  }

  predicate IsShort(c: Completion) {
    !c.compressed && c.maxSize != 0 && c.bytesUsed != c.maxSize
  }

  /** The completions that report a drop. */
  predicate Drops(c: Call) {
    c.Complete? && c.b.ptr != 0 && c.b.isVideo && c.c.hasQueue && c.b.passes && c.c.dropCorrupted && c.c.error
  }

  class Tagger {
    var causes: Tags
    /** The drop events written so far. */
    var out: seq<Drop>

    constructor ()
      ensures Valid() && causes == map[] && out == []
    {
      causes, out := map[], [];
    }

    /** No tag is ever put on a null buffer. */
    ghost predicate Valid()
      reads this
    {
      0 !in causes
    }

    method AddTo(ptr: nat, cause: Cause)
      modifies this`causes
      ensures causes == AddCause(old(causes), ptr, cause)
    {
      if ptr in causes {
        causes := causes[ptr := causes[ptr] + {cause}];
        return;
      }
      ghost var none: set<Cause> := {};
      assert none + {cause} == {cause};
      if |causes| < MAX_TAGGED {
        causes := causes[ptr := {cause}];
      }
    }

    method TakeTag(ptr: nat) returns (r: set<Cause>)
      modifies this`causes
      ensures r == (if ptr in old(causes) then old(causes)[ptr] else {}) && causes == old(causes) - {ptr}
    {
      r := {};
      if ptr in causes {
        r := causes[ptr];
        causes := causes - {ptr};
      }
    }

    method OnDecodeIsoc(b: Buffer, npkts: int, descs: seq<UvcFrames.Desc>)
      requires Valid() && npkts <= |descs|
      modifies this
      ensures Valid()
      ensures causes == StepTags(old(causes), Decode(b, npkts, descs)) && out == old(out)
    {
      if b.ptr == 0 || !b.isVideo || !b.passes {
        return;
      }
      var i := 0;
      while i < UvcFrames.MAX_ISOC_PKTS && i < npkts
        invariant 0 <= i <= UvcFrames.MAX_ISOC_PKTS && (i <= npkts || i == 0)
        invariant causes == old(causes) && out == old(out)
        invariant forall j :: 0 <= j < i ==> !(descs[j].readable && descs[j].status < 0)
      {
        if descs[i].readable && descs[i].status < 0 {
          AddTo(b.ptr, ISO);
          return;
        }
        i := i + 1;
      }
    }

    method OnQueueComplete(b: Buffer, c: Completion)
      requires Valid()
      modifies this
      ensures Valid()
      ensures causes == StepTags(old(causes), Complete(b, c))
      ensures out == old(out) + StepDrops(old(causes), Complete(b, c))
    {
      var reason := TakeTag(b.ptr);
      if b.ptr == 0 || !b.isVideo || !c.hasQueue || !b.passes {
        return;
      }
      if !c.dropCorrupted || !c.error {
        return;
      }
      if !c.compressed && c.maxSize != 0 && c.bytesUsed != c.maxSize {
        reason := reason + {SHORT};
      }
      if reason == {} {
        reason := {OTHER};
      }
      assert reason == Reason(old(causes), Complete(b, c));
      out := out + [Drop(b.ptr, reason)];
    }
  }

  function StepTags(m: Tags, c: Call): Tags {
    if TagsIso(c) then AddCause(m, c.b.ptr, ISO)
    else if c.Complete? then m - {c.b.ptr}
    else m
  }

  function Reason(m: Tags, c: Call): set<Cause>
    requires c.Complete?
  {
    var r := (if c.b.ptr in m then m[c.b.ptr] else {}) + (if IsShort(c.c) then {SHORT} else {});
    if r == {} then {OTHER} else r
  }

  function StepDrops(m: Tags, c: Call): seq<Drop> {
    if Drops(c) then [Drop(c.b.ptr, Reason(m, c))] else []
  }

  function TagsAt(cs: seq<Call>, n: nat): Tags
    requires n <= |cs|
  {
    if n == 0 then map[] else StepTags(TagsAt(cs, n - 1), cs[n - 1])
  }

  // ---- the trace's own view ----

  /** Since its previous completion, buffer `p` was decoded from a URB that lost a packet. */
  predicate LostSince(cs: seq<Call>, n: nat, p: nat)
    requires n <= |cs|
  {
    n > 0 &&
    if cs[n - 1].b.ptr != p then LostSince(cs, n - 1, p)
    else !cs[n - 1].Complete? && (TagsIso(cs[n - 1]) || LostSince(cs, n - 1, p))
  }

  lemma {:induction false} LostSinceMeaning(cs: seq<Call>, n: nat, p: nat)
    requires n <= |cs|
    ensures LostSince(cs, n, p) <==>
      exists i :: 0 <= i < n && TagsIso(cs[i]) && cs[i].b.ptr == p && NoneCompletes(cs, i, n, p)
  {
    if n > 0 {
      LostSinceMeaning(cs, n - 1, p);
      if LostSince(cs, n, p) {
        if TagsIso(cs[n - 1]) && cs[n - 1].b.ptr == p {
          assert NoneCompletes(cs, n - 1, n, p);
        } else {
          var i :| 0 <= i < n - 1 && TagsIso(cs[i]) && cs[i].b.ptr == p && NoneCompletes(cs, i, n - 1, p);
          assert NoneCompletes(cs, i, n, p);
        }
      }
      if i :| 0 <= i < n && TagsIso(cs[i]) && cs[i].b.ptr == p && NoneCompletes(cs, i, n, p) {
        assert i < n - 1 ==> NoneCompletes(cs, i, n - 1, p);
      }
    }
  }

  ghost predicate NoneCompletes(cs: seq<Call>, i: nat, n: nat, p: nat)
    requires n <= |cs|
  {
    forall j :: i < j < n ==> !(cs[j].Complete? && cs[j].b.ptr == p)
  }

  /** A tag is never stale: it is there only because of a loss since the buffer's last completion, and it
      says exactly that. */
  lemma {:induction false} TagsAreLosses(cs: seq<Call>, n: nat, p: nat)
    requires n <= |cs| && p in TagsAt(cs, n)
    ensures p != 0 && TagsAt(cs, n)[p] == {ISO} && LostSince(cs, n, p)
  {
    if n > 0 && p in TagsAt(cs, n - 1) {
      TagsAreLosses(cs, n - 1, p);
      assert {ISO} + {ISO} == {ISO};
    } else {
      var none: set<Cause> := {};
      assert none + {ISO} == {ISO};
    }
  }

  ghost function Lost(cs: seq<Call>, n: nat): set<nat>
    requires n <= |cs|
  {
    set i | 0 <= i < n && LostSince(cs, n, cs[i].b.ptr) :: cs[i].b.ptr
  }

  lemma {:induction false} LostIs(cs: seq<Call>, n: nat, p: nat)
    requires n <= |cs|
    ensures p in Lost(cs, n) <==> LostSince(cs, n, p)
  {
    if LostSince(cs, n, p) {
      LostSinceMeaning(cs, n, p);
    }
  }

  lemma LostGrows(cs: seq<Call>, n: nat)
    requires n < |cs|
    ensures Lost(cs, n + 1) == if TagsIso(cs[n]) then Lost(cs, n) + {cs[n].b.ptr}
                               else if cs[n].Complete? then Lost(cs, n) - {cs[n].b.ptr} else Lost(cs, n)
  {
    var was, next := Lost(cs, n), Lost(cs, n + 1);
    forall p ensures p in next <==> LostSince(cs, n + 1, p) { LostIs(cs, n + 1, p); }
    forall p ensures p in was <==> LostSince(cs, n, p) { LostIs(cs, n, p); }
  }

  ghost predicate Fits(cs: seq<Call>, n: nat)
    requires n <= |cs|
  {
    |Lost(cs, n)| <= 64
  }

  ghost predicate WithinCapacity(cs: seq<Call>) {
    forall n :: 0 <= n <= |cs| ==> Fits(cs, n)
  }

  ghost predicate InStep(cs: seq<Call>, n: nat)
    requires n <= |cs|
  {
    TagsAt(cs, n).Keys == Lost(cs, n)
  }

  lemma TagsStep(m: Tags, c: Call, before: set<nat>, after: set<nat>)
    requires m.Keys == before && |after| <= MAX_TAGGED
    requires after == if TagsIso(c) then before + {c.b.ptr} else if c.Complete? then before - {c.b.ptr} else before
    ensures StepTags(m, c).Keys == after
  {
    if TagsIso(c) && c.b.ptr !in before {
      assert |before + {c.b.ptr}| == |before| + 1 && |m| == |m.Keys|;
    }
  }

  lemma TaggedStep(cs: seq<Call>, n: nat)
    requires n < |cs| && InStep(cs, n) && Fits(cs, n + 1)
    ensures InStep(cs, n + 1)
  {
    LostGrows(cs, n);
    TagsStep(TagsAt(cs, n), cs[n], Lost(cs, n), Lost(cs, n + 1));
  }

  lemma NoneTagged(cs: seq<Call>)
    ensures InStep(cs, 0)
  {
    assert Lost(cs, 0) == {} && TagsAt(cs, 0).Keys == {};
  }

  /** While the table is large enough, the tagged buffers are exactly those that lost a packet. */
  lemma {:induction false} TaggedAreLost(cs: seq<Call>, n: nat)
    requires n <= |cs| && WithinCapacity(cs)
    ensures InStep(cs, n)
  {
    hide Lost, TagsAt, LostSince, Fits, InStep;
    if n == 0 {
      NoneTagged(cs);
    } else {
      TaggedAreLost(cs, n - 1);
      TaggedStep(cs, n - 1);
    }
  }

  /** Drop causes never leak between frames: while at most 64 buffers are tagged, a drop is blamed on lost
      packets exactly when the buffer lost one since its previous completion, on a short frame exactly when
      it is one, and on something else exactly when neither applies. The reason is never empty. */
  lemma DropReason(cs: seq<Call>, n: nat)
    requires n < |cs| && Drops(cs[n]) && WithinCapacity(cs)
    ensures var r := Reason(TagsAt(cs, n), cs[n]);
      && (ISO in r <==> LostSince(cs, n, cs[n].b.ptr))
      && (SHORT in r <==> IsShort(cs[n].c))
      && (OTHER in r <==> ISO !in r && SHORT !in r)
      && r != {}
  {
    if cs[n].b.ptr in TagsAt(cs, n) {
      TagsAreLosses(cs, n, cs[n].b.ptr);
    }
    TaggedAreLost(cs, n);
    LostIs(cs, n, cs[n].b.ptr);
  }

  /** With more buffers in play a cause can be missed, but none is ever invented. */
  lemma DropNeverBlamedFalsely(cs: seq<Call>, n: nat)
    requires n < |cs| && Drops(cs[n])
    ensures var r := Reason(TagsAt(cs, n), cs[n]);
      (ISO in r ==> LostSince(cs, n, cs[n].b.ptr)) && (OTHER in r <==> ISO !in r && SHORT !in r) && r != {}
  {
    if cs[n].b.ptr in TagsAt(cs, n) {
      TagsAreLosses(cs, n, cs[n].b.ptr);
    }
  }

  // ---- the summary ----

  function CountOf(ds: seq<Drop>, cause: Cause): nat {
    if ds == [] then 0
    else CountOf(ds[..|ds| - 1], cause) + if cause in ds[|ds| - 1].reason then 1 else 0
  }

  class DropStats {
    var received: nat
    var dropped: nat
    var short: nat
    var iso: nat
    var other: nat

    constructor ()
      ensures Counts([], 0)
    {
      received, dropped, short, iso, other := 0, 0, 0, 0, 0;
    }

    ghost predicate Counts(ds: seq<Drop>, frames: nat)
      reads this
    {
      && received == frames && dropped == |ds|
      && short == CountOf(ds, SHORT) && iso == CountOf(ds, ISO) && other == CountOf(ds, OTHER)
    }

    method TallyReceived(ghost ds: seq<Drop>, ghost frames: nat)
      requires Counts(ds, frames)
      modifies this
      ensures Counts(ds, frames + 1)
    {
      received := received + 1;
    }

    method TallyDrop(d: Drop, ghost ds: seq<Drop>, ghost frames: nat)
      requires Counts(ds, frames)
      modifies this
      ensures Counts(ds + [d], frames)
    {
      assert (ds + [d])[..|ds|] == ds;
      dropped := dropped + 1;
      if SHORT in d.reason {
        short := short + 1;
      }
      if ISO in d.reason {
        iso := iso + 1;
      }
      if OTHER in d.reason {
        other := other + 1;
      }
    }
  }

  function DropsUpTo(cs: seq<Call>, n: nat): seq<Drop>
    requires n <= |cs|
  {
    if n == 0 then [] else DropsUpTo(cs, n - 1) + StepDrops(TagsAt(cs, n - 1), cs[n - 1])
  }

  ghost predicate Bounded(ds: seq<Drop>) {
    |ds| <= CountOf(ds, SHORT) + CountOf(ds, ISO) + CountOf(ds, OTHER) <= 2 * |ds|
  }

  lemma BoundedAppend(ds: seq<Drop>, d: Drop)
    requires Bounded(ds) && d.reason != {} && (OTHER in d.reason <==> ISO !in d.reason && SHORT !in d.reason)
    ensures Bounded(ds + [d])
  {
    assert (ds + [d])[..|ds|] == ds;
  }

  lemma BoundedStep(cs: seq<Call>, n: nat)
    requires n < |cs| && Bounded(DropsUpTo(cs, n))
    ensures Bounded(DropsUpTo(cs, n + 1))
  {
    var ds := DropsUpTo(cs, n);
    if Drops(cs[n]) {
      DropNeverBlamedFalsely(cs, n);
      BoundedAppend(ds, Drop(cs[n].b.ptr, Reason(TagsAt(cs, n), cs[n])));
    } else {
      assert ds + [] == ds;
    }
  }

  /** Over any run the three causes add up to at least the number of drops and at most twice that. */
  lemma {:induction false} CausesBoundDrops(cs: seq<Call>, n: nat)
    requires n <= |cs|
    ensures Bounded(DropsUpTo(cs, n))
  {
    if n > 0 {
      CausesBoundDrops(cs, n - 1);
      BoundedStep(cs, n - 1);
    }
  }

  // ---- which completions are drops ----

  /** All drops reported over a run. */
  function AllDrops(cs: seq<Call>, n: nat): seq<Drop>
    requires n <= |cs|
  {
    if n == 0 then [] else AllDrops(cs, n - 1) + StepDrops(TagsAt(cs, n - 1), cs[n - 1])
  }

  /** The completion of a video buffer that its queue drops for an error. */
  predicate IsDropped(c: Call) {
    && c.Complete? && c.b.ptr != 0 && c.b.isVideo && c.b.passes
    && c.c.hasQueue && c.c.error && c.c.dropCorrupted
  }

  /** What a drop says of its completion: its buffer; and it is called short exactly when the stream is
      uncompressed, its size is known, and the buffer is not full. */
  predicate DropIs(d: Drop, c: Call) {
    && c.Complete? && d.ptr == c.b.ptr
    && (SHORT in d.reason <==> !c.c.compressed && c.c.maxSize > 0 && c.c.bytesUsed != c.c.maxSize)
  }

  /** The drops are those of the completions dropped among the first `n` calls, in order and once each. */
  ghost predicate Lists(cs: seq<Call>, n: nat, out: seq<Drop>, idx: seq<nat>) {
    && |idx| == |out| && Increasing(idx) && n <= |cs|
    && (forall a :: 0 <= a < |idx| ==> idx[a] < n && DropIs(out[a], cs[idx[a]]))
    && (forall i: nat :: i in idx <==> i < n && IsDropped(cs[i]))
  }

  lemma ListsOneMore(cs: seq<Call>, n: nat, out: seq<Drop>, idx: seq<nat>, d: Drop)
    requires Lists(cs, n, out, idx) && n < |cs| && IsDropped(cs[n]) && DropIs(d, cs[n])
    ensures Lists(cs, n + 1, out + [d], idx + [n])
  {
    hide IsDropped, DropIs;
    assert forall i: nat :: i in idx + [n] <==> i in idx || i == n;
  }

  lemma DropStep(cs: seq<Call>, n: nat)
    requires n < |cs|
    ensures var out := StepDrops(TagsAt(cs, n), cs[n]);
      if IsDropped(cs[n]) then |out| == 1 && DropIs(out[0], cs[n]) else out == []
  {
    if cs[n].b.ptr in TagsAt(cs, n) {
      TagsAreLosses(cs, n, cs[n].b.ptr);
    }
  }

  /** Over a run the drops reported are exactly those completions. Good buffers and buffers the queue keeps are
      never reported, compressed ones never called short. */
  lemma {:induction false} DropsSelect(cs: seq<Call>, n: nat) returns (idx: seq<nat>)
    requires n <= |cs|
    ensures Lists(cs, n, AllDrops(cs, n), idx)
  {
    hide *;
    NextDrops(cs, n);
    if n == 0 {
      idx := [];
    } else {
      idx := DropsSelect(cs, n - 1);
      DropStep(cs, n - 1);
      var was, out := AllDrops(cs, n - 1), StepDrops(TagsAt(cs, n - 1), cs[n - 1]);
      if IsDropped(cs[n - 1]) {
        ListsOneMore(cs, n - 1, was, idx, out[0]);
        assert was + out == was + [out[0]];
        idx := idx + [n - 1];
      } else {
        ListsStill(cs, n - 1, was, idx);
        assert was + [] == was;
      }
    }
  }

  lemma ListsStill(cs: seq<Call>, n: nat, out: seq<Drop>, idx: seq<nat>)
    requires Lists(cs, n, out, idx) && n < |cs| && !IsDropped(cs[n])
    ensures Lists(cs, n + 1, out, idx)
  {
    hide IsDropped, DropIs;
  }

  lemma NextDrops(cs: seq<Call>, n: nat)
    requires n <= |cs|
    ensures if n == 0 then AllDrops(cs, n) == [] && Lists(cs, 0, [], [])
            else AllDrops(cs, n) == AllDrops(cs, n - 1) + StepDrops(TagsAt(cs, n - 1), cs[n - 1])
  {
  }

  /** A readable descriptor with a negative status among the first 32 of the URB. */
  ghost predicate HasLoss(npkts: int, descs: seq<UvcFrames.Desc>) {
    exists i :: 0 <= i < |descs| && i < npkts && i < 32 && descs[i].readable && descs[i].status <= -1
  }

  lemma SameLoss(npkts: int, descs: seq<UvcFrames.Desc>)
    ensures LostPacket(npkts, descs) <==> HasLoss(npkts, descs)
  {
    if LostPacket(npkts, descs) {
      var i :| 0 <= i < |descs| && i < npkts && i < UvcFrames.MAX_ISOC_PKTS && descs[i].readable && descs[i].status < 0;
      assert descs[i].status <= -1;
    }
    if HasLoss(npkts, descs) {
      var i :| 0 <= i < |descs| && i < npkts && i < 32 && descs[i].readable && descs[i].status <= -1;
      assert descs[i].status < 0;
    }
  }

  lemma CauseAdded(m: Tags, ptr: nat)
    ensures var t := AddCause(m, ptr, ISO);
      if ptr in m || |m| < 64 then t.Keys == m.Keys + {ptr} && ISO in t[ptr] else t == m
  {
  }

  /** What a decode tags: its buffer, as lossy, when it is a capture buffer of the device watched and its URB has
      such a descriptor, as long as the table has room; nothing otherwise. */
  lemma DecodeTags(m: Tags, b: Buffer, npkts: int, descs: seq<UvcFrames.Desc>)
    ensures var t := StepTags(m, Decode(b, npkts, descs));
      if b.ptr != 0 && b.isVideo && b.passes && HasLoss(npkts, descs) && (b.ptr in m || |m| < 64)
      then t.Keys == m.Keys + {b.ptr} && ISO in t[b.ptr] else t == m
  {
    SameLoss(npkts, descs);
    CauseAdded(m, b.ptr);
    hide LostPacket, HasLoss, AddCause;
  }
}
