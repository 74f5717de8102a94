/** The payload header layout (USB Video Class 1.5, section 2.4.3.3) written the other way round, and the
    proof of what the parser reads back from it. */
module UvcHeader {
  import opened Base
  import opened UvcFrames

  /** Source clock reference: a 32-bit clock and a 16-bit frame-number token. */
  datatype Clock = Clock(stc: u32, sof: nat)

  /** The remaining bits of the flag byte, which the parser does not look at. */
  datatype Spare = Spare(reserved: bool, still: bool, endOfHeader: bool)

  /** What a header announces: the frame bits, and the clock fields that follow in this order. */
  datatype Fields = Fields(fid: bool, eof: bool, err: bool, pts: Option<u32>, scr: Option<Clock>, spare: Spare)

  function Bit(b: bool, mask: nat): nat {
    if b then mask else 0
  }

  /** The bytes the announced fields take; the header may be longer. */
  function Length(f: Fields): nat {
    2 + (if f.pts.Some? then 4 else 0) + if f.scr.Some? then 6 else 0
  }

  function Flags(f: Fields): byte {
    Bit(f.fid, 0x01) + Bit(f.eof, 0x02) + Bit(f.pts.Some?, 0x04) + Bit(f.scr.Some?, 0x08)
    + Bit(f.spare.reserved, 0x10) + Bit(f.spare.still, 0x20) + Bit(f.err, 0x40) + Bit(f.spare.endOfHeader, 0x80)
  }

  function Bytes32(x: u32): seq<byte> {
    [x % 256, x / 0x100 % 256, x / 0x1_0000 % 256, x / 0x100_0000]
  }

  function Bytes16(x: nat): seq<byte>
    requires x < 0x1_0000
  {
    [x % 256, x / 256]
  }

  function Encode(f: Fields, hlen: byte): seq<byte>
    requires f.scr.Some? ==> f.scr.value.sof < 0x1_0000
    ensures |Encode(f, hlen)| == Length(f)
  {
    [hlen, Flags(f)]
    + (if f.pts.Some? then Bytes32(f.pts.value) else [])
    + (if f.scr.Some? then Bytes32(f.scr.value.stc) + Bytes16(f.scr.value.sof) else [])
  }

  /** A transfer-buffer position that starts with a header of announced length `hlen`: the two flag bytes, and
      the announced fields as far as the header and the readable bytes reach. Behind them comes anything:
      padding when the header is longer than its fields, the payload when it is shorter. */
  ghost predicate Carries(mem: seq<byte>, f: Fields, hlen: byte) {
    && (f.scr.Some? ==> f.scr.value.sof < 0x1_0000)
    && |mem| >= 2 && mem[0] == hlen && mem[1] == Flags(f)
    && forall i :: 2 <= i < Min(Length(f), Min(hlen, |mem|)) ==> mem[i] == Encode(f, hlen)[i]
  }

  /** The binary digits of a byte. */
  lemma Digits(b: byte, r: seq<nat>)
    requires |r| == 8 && forall i :: 0 <= i < 8 ==> r[i] <= 1
    requires b == r[0] + 2 * r[1] + 4 * r[2] + 8 * r[3] + 16 * r[4] + 32 * r[5] + 64 * r[6] + 128 * r[7]
    ensures b % 2 == r[0] && b / 2 % 2 == r[1] && b / 4 % 2 == r[2] && b / 8 % 2 == r[3]
    ensures b / 16 % 2 == r[4] && b / 32 % 2 == r[5] && b / 64 % 2 == r[6] && b / 128 % 2 == r[7]
  {
    var q6 := r[6] + 2 * r[7];
    var q5 := r[5] + 2 * q6;
    var q4 := r[4] + 2 * q5;
    var q3 := r[3] + 2 * q4;
    var q2 := r[2] + 2 * q3;
    var q1 := r[1] + 2 * q2;
    assert b / 2 == q1 && b / 4 == q2 && b / 8 == q3 && b / 16 == q4 && b / 32 == q5 && b / 64 == q6 && b / 128 == r[7];
  }

  function Digit(b: bool): nat {
    if b then 1 else 0
  }

  lemma FlagBits(f: Fields)
    ensures var b := Flags(f);
      && b % 2 == Bit(f.fid, 1) && (Flag(b, UVC_EOF) <==> f.eof) && (Flag(b, UVC_ERR) <==> f.err)
      && (Flag(b, UVC_PTS) <==> f.pts.Some?) && (Flag(b, UVC_SCR) <==> f.scr.Some?)
  {
    Digits(Flags(f), [Digit(f.fid), Digit(f.eof), Digit(f.pts.Some?), Digit(f.scr.Some?), Digit(f.spare.reserved),
                      Digit(f.spare.still), Digit(f.err), Digit(f.spare.endOfHeader)]);
  }

  lemma Le32Inverse(x: u32)
    ensures var b := Bytes32(x); Le32(b[0], b[1], b[2], b[3]) == x
  {
    var y := x / 0x100;
    var z := y / 0x100;
    assert x / 0x1_0000 == z && x / 0x100_0000 == z / 0x100;
    assert x == 0x100 * y + x % 0x100 && y == 0x100 * z + y % 0x100 && z == 0x100 * (z / 0x100) + z % 0x100;
  }

  lemma Le16Inverse(x: nat)
    requires x < 0x1_0000
    ensures var b := Bytes16(x); Le16(b[0], b[1]) == x
  {
  }

  /** The transfer has room for the twelve bytes the parser would like to read. */
  predicate Room(d: Desc, tblen: u32) {
    Trunc32(d.off + 12) <= tblen
  }

  predicate Accepted(d: Desc, tblen: u32, hlen: byte) {
    && 2 <= hlen <= d.actual && Trunc32(d.off + 2) <= tblen
    && (Room(d, tblen) ==> 12 <= |d.mem|)
  }

  lemma ReadsPts(mem: seq<byte>, f: Fields, hlen: byte)
    requires Carries(mem, f, hlen) && |mem| >= 12 && hlen >= 6 && f.pts.Some?
    ensures Le32(mem[2], mem[3], mem[4], mem[5]) == f.pts.value
  {
    var e, b := Encode(f, hlen), Bytes32(f.pts.value);
    Le32Inverse(f.pts.value);
    assert e[2] == b[0] && e[3] == b[1] && e[4] == b[2] && e[5] == b[3];
  }

  lemma ReadsScr(mem: seq<byte>, f: Fields, hlen: byte)
    requires Carries(mem, f, hlen) && |mem| >= 12 && hlen >= 12 && f.pts.Some? && f.scr.Some?
    ensures Le32(mem[6], mem[7], mem[8], mem[9]) == f.scr.value.stc && Le16(mem[10], mem[11]) == f.scr.value.sof
  {
    var e, b, c := Encode(f, hlen), Bytes32(f.scr.value.stc), Bytes16(f.scr.value.sof);
    Le32Inverse(f.scr.value.stc);
    Le16Inverse(f.scr.value.sof);
    assert e[6] == b[0] && e[7] == b[1] && e[8] == b[2] && e[9] == b[3] && e[10] == c[0] && e[11] == c[1];
  }

  lemma CarriesFlags(mem: seq<byte>, f: Fields, hlen: byte)
    requires Carries(mem, f, hlen)
    ensures |mem| >= 2 && mem[0] == hlen && mem[1] == Flags(f)
  {
  }

  /** What the parser makes of the twelve bytes, in terms of the flags announced. */
  lemma ParsesFlags(h: seq<byte>, f: Fields, hlen: byte, actual: u32)
    requires |h| == 12 && h[0] == hlen && h[1] == Flags(f)
    ensures ParseHeader(h, actual).Some? <==> 2 <= hlen <= actual
    ensures 2 <= hlen <= actual ==> var p := ParseHeader(h, actual).value;
      && p.fid == Bit(f.fid, 1) && p.eof == f.eof && p.err == f.err && p.bytes == actual - hlen
      && p.pts == (if f.pts.Some? && hlen >= 6 then Some(Le32(h[2], h[3], h[4], h[5])) else None)
      && p.scr == (if f.pts.Some? && f.scr.Some? && hlen >= 12
                   then Some((Le32(h[6], h[7], h[8], h[9]), Le16(h[10], h[11]))) else None)
  {
    FlagBits(f);
    hide Flags, Flag, Le32, Le16;
  }

  lemma HeaderIs(d: Desc, tblen: u32)
    requires |d.mem| >= 2
    ensures Header(d, tblen).Some? <==> Trunc32(d.off + 2) <= tblen && (Room(d, tblen) ==> 12 <= |d.mem|)
    ensures Header(d, tblen).Some? ==> var h := Header(d, tblen).value;
      && |h| == 12 && h[0] == d.mem[0] && h[1] == d.mem[1]
      && (Room(d, tblen) ==> h == d.mem[..12])
      && (!Room(d, tblen) ==> forall k :: 2 <= k < 12 ==> h[k] == 0)
  {
  }

  lemma DecodeIs(d: Desc, tblen: u32)
    ensures DecodePayload(d, tblen)
         == if d.actual == 0 || Header(d, tblen).None? then None else ParseHeader(Header(d, tblen).value, d.actual)
  {
  }

  lemma AcceptedIs(d: Desc, tblen: u32, hlen: byte)
    requires |d.mem| >= 2
    ensures Accepted(d, tblen, hlen) <==> 2 <= hlen <= d.actual && Header(d, tblen).Some?
  {
  }

  lemma ZeroClock()
    ensures Le32(0, 0, 0, 0) == 0 && Le16(0, 0) == 0
  {
  }

  lemma ReadInFull(f: Fields, hlen: byte, h: seq<byte>, mem: seq<byte>)
    requires Carries(mem, f, hlen) && |mem| >= 12 && h == mem[..12] && f.pts.Some?
    ensures hlen >= 6 ==> Le32(h[2], h[3], h[4], h[5]) == f.pts.value
    ensures hlen >= 12 && f.scr.Some? ==>
      Le32(h[6], h[7], h[8], h[9]) == f.scr.value.stc && Le16(h[10], h[11]) == f.scr.value.sof
  {
    hide Carries, Flags, Flag, Encode, Le32, Le16;
    if hlen >= 6 {
      ReadsPts(mem, f, hlen);
    }
    if hlen >= 12 && f.scr.Some? {
      ReadsScr(mem, f, hlen);
    }
  }

  /** What is read for every flag combination, header length and room. A packet has a payload exactly when its
      header lies in the transfer, is readable, and has a length from two up to the packet's. The frame bits
      and the payload length are then always right. A presentation time is read exactly when one is announced
      and the header is long enough for it; a clock reference exactly when both are announced and the header
      is long enough for both. What is read is what was sent when there is room for twelve bytes, and zero
      otherwise. */
  lemma ParserReadsLayout(f: Fields, hlen: byte, d: Desc, tblen: u32)
    requires Carries(d.mem, f, hlen)
    ensures DecodePayload(d, tblen).Some? <==> Accepted(d, tblen, hlen)
    ensures Accepted(d, tblen, hlen) ==> var p := DecodePayload(d, tblen).value;
      && p.fid == Bit(f.fid, 1) && p.eof == f.eof && p.err == f.err && p.bytes == d.actual - hlen
      && p.pts == (if f.pts.Some? && hlen >= 6 then Some(if Room(d, tblen) then f.pts.value else 0) else None)
      && p.scr == (if f.pts.Some? && f.scr.Some? && hlen >= 12
                   then Some(if Room(d, tblen) then (f.scr.value.stc, f.scr.value.sof) else (0, 0)) else None)
  {
    hide *;
    CarriesFlags(d.mem, f, hlen);
    HeaderIs(d, tblen);
    DecodeIs(d, tblen);
    AcceptedIs(d, tblen, hlen);
    ZeroClock();
    if Header(d, tblen).Some? {
      var h := Header(d, tblen).value;
      ParsesFlags(h, f, hlen, d.actual);
      if Room(d, tblen) && f.pts.Some? {
        ReadInFull(f, hlen, h, d.mem);
      }
    }
  }

  /** What the parser should say about the clock fields of a header that is as long as it announces. */
  predicate ClockDelivered(f: Fields, p: Payload) {
    p.pts == f.pts && p.scr == if f.scr.Some? then Some((f.scr.value.stc, f.scr.value.sof)) else None
  }

  /** Exactly when every announced clock field is delivered, for a header that is as long as its fields call
      for: a clock reference must come with a presentation time, and the transfer must have room for twelve
      bytes unless the fields announced are zero. A header with a clock reference alone (eight bytes, legal
      in section 2.4.3.3) loses it. */
  lemma ClockDeliveredIff(f: Fields, hlen: byte, d: Desc, tblen: u32)
    requires Carries(d.mem, f, hlen) && Accepted(d, tblen, hlen) && hlen >= Length(f)
    ensures ClockDelivered(f, DecodePayload(d, tblen).value) <==>
      && (f.scr.Some? ==> f.pts.Some?)
      && (Room(d, tblen) || ((f.pts.Some? ==> f.pts.value == 0) && (f.scr.Some? ==> f.scr.value == Clock(0, 0))))
  {
    ParserReadsLayout(f, hlen, d, tblen);
  }

  /** A header of eight bytes with a clock reference alone: it is announced and sent, and not read. */
  lemma LoneClockIsLost(stc: u32, spare: Spare)
    ensures var f := Fields(true, false, false, None, Some(Clock(stc, 0)), spare);
      var d := Desc(true, 0, 20, 0, Encode(f, 8) + [0, 0, 0, 0]);
      && Carries(d.mem, f, 8) && DecodePayload(d, 20).Some?
      && DecodePayload(d, 20).value.scr == None && !ClockDelivered(f, DecodePayload(d, 20).value)
  {
    var f := Fields(true, false, false, None, Some(Clock(stc, 0)), spare);
    var d := Desc(true, 0, 20, 0, Encode(f, 8) + [0, 0, 0, 0]);
    ParserReadsLayout(f, 8, d, 20);
  }

  // ---- and every header is one of these ----

  function ByteAt(mem: seq<byte>, i: nat): byte {
    if i < |mem| then mem[i] else 0
  }

  function Le32At(mem: seq<byte>, i: nat): u32 {
    Le32(ByteAt(mem, i), ByteAt(mem, i + 1), ByteAt(mem, i + 2), ByteAt(mem, i + 3))
  }

  /** The fields the two flag bytes announce, read where the standard puts them. */
  function FieldsOf(mem: seq<byte>): Fields
    requires |mem| >= 2
  {
    var b := mem[1];
    var at := if Flag(b, 0x04) then 6 else 2;
    Fields(b % 2 == 1, Flag(b, 0x02), Flag(b, 0x40),
           if Flag(b, 0x04) then Some(Le32At(mem, 2)) else None,
           if Flag(b, 0x08) then Some(ClockAt(mem, at)) else None,
           Spare(Flag(b, 0x10), Flag(b, 0x20), Flag(b, 0x80)))
  }

  lemma DigitsOf(b: byte) returns (r: seq<nat>)
    ensures |r| == 8 && forall i :: 0 <= i < 8 ==> r[i] <= 1
    ensures b == r[0] + 2 * r[1] + 4 * r[2] + 8 * r[3] + 16 * r[4] + 32 * r[5] + 64 * r[6] + 128 * r[7]
  {
    var r0, q1 := b % 2, b / 2;
    var r1, q2 := q1 % 2, q1 / 2;
    var r2, q3 := q2 % 2, q2 / 2;
    var r3, q4 := q3 % 2, q3 / 2;
    var r4, q5 := q4 % 2, q4 / 2;
    var r5, q6 := q5 % 2, q5 / 2;
    var r6, r7 := q6 % 2, q6 / 2;
    r := [r0, r1, r2, r3, r4, r5, r6, r7];
  }

  lemma FlagsOf(b: byte)
    ensures b == Bit(b % 2 == 1, 0x01) + Bit(Flag(b, 0x02), 0x02) + Bit(Flag(b, 0x04), 0x04)
               + Bit(Flag(b, 0x08), 0x08) + Bit(Flag(b, 0x10), 0x10) + Bit(Flag(b, 0x20), 0x20)
               + Bit(Flag(b, 0x40), 0x40) + Bit(Flag(b, 0x80), 0x80)
  {
    var r := DigitsOf(b);
    Digits(b, r);
    assert Flag(b, 0x02) == (r[1] == 1) && Flag(b, 0x04) == (r[2] == 1) && Flag(b, 0x08) == (r[3] == 1);
    assert Flag(b, 0x10) == (r[4] == 1) && Flag(b, 0x20) == (r[5] == 1) && Flag(b, 0x40) == (r[6] == 1);
    assert Flag(b, 0x80) == (r[7] == 1);
    hide Flag;
    Weigh(r);
  }

  lemma Weigh(r: seq<nat>)
    requires |r| == 8 && forall i :: 0 <= i < 8 ==> r[i] <= 1
    ensures r[0] + 2 * r[1] + 4 * r[2] + 8 * r[3] + 16 * r[4] + 32 * r[5] + 64 * r[6] + 128 * r[7]
         == Bit(r[0] == 1, 0x01) + Bit(r[1] == 1, 0x02) + Bit(r[2] == 1, 0x04) + Bit(r[3] == 1, 0x08)
          + Bit(r[4] == 1, 0x10) + Bit(r[5] == 1, 0x20) + Bit(r[6] == 1, 0x40) + Bit(r[7] == 1, 0x80)
  {
    assert forall i :: 0 <= i < 8 ==> r[i] == 0 || r[i] == 1;
  }

  lemma Bytes32Inverse(a: byte, b: byte, c: byte, d: byte)
    ensures Bytes32(Le32(a, b, c, d)) == [a, b, c, d]
  {
    var x := Le32(a, b, c, d);
    assert x / 0x100 == b + 0x100 * c + 0x1_0000 * d;
    assert x / 0x1_0000 == c + 0x100 * d;
    assert x / 0x100_0000 == d;
  }

  lemma PtsLaidOut(mem: seq<byte>, i: nat)
    requires |mem| >= 2 && FieldsOf(mem).pts.Some? && 2 <= i < 6
    ensures Encode(FieldsOf(mem), mem[0])[i] == ByteAt(mem, i)
  {
    var f := FieldsOf(mem);
    Bytes32Inverse(ByteAt(mem, 2), ByteAt(mem, 3), ByteAt(mem, 4), ByteAt(mem, 5));
    hide Flags, Flag, Le32, Bytes32;
    assert Encode(f, mem[0])[2..6] == Bytes32(f.pts.value);
    assert Encode(f, mem[0])[i] == Encode(f, mem[0])[2..6][i - 2];
  }

  lemma ClockInverse(a: byte, b: byte, c: byte, d: byte, e: byte, f: byte)
    ensures Le16(e, f) < 0x1_0000 && Bytes32(Le32(a, b, c, d)) + Bytes16(Le16(e, f)) == [a, b, c, d, e, f]
  {
    Bytes32Inverse(a, b, c, d);
    assert Bytes16(Le16(e, f)) == [e, f];
  }

  lemma EncodedClock(f: Fields, hlen: byte, i: nat)
    requires f.scr.Some? && f.scr.value.sof < 0x1_0000 && i < 6
    ensures var at := if f.pts.Some? then 6 else 2;
      Encode(f, hlen)[at + i] == (Bytes32(f.scr.value.stc) + Bytes16(f.scr.value.sof))[i]
  {
    var at := if f.pts.Some? then 6 else 2;
    var c := Bytes32(f.scr.value.stc) + Bytes16(f.scr.value.sof);
    var front := [hlen, Flags(f)] + if f.pts.Some? then Bytes32(f.pts.value) else [];
    assert Encode(f, hlen) == front + c && |front| == at && |c| == 6;
    hide *;
    assert (front + c)[at + i] == c[i];
  }

  function ClockAt(mem: seq<byte>, at: nat): Clock {
    Clock(Le32At(mem, at), Le16(ByteAt(mem, at + 4), ByteAt(mem, at + 5)))
  }

  lemma ClockBytes(mem: seq<byte>, at: nat, i: nat)
    requires i < 6
    ensures var c := ClockAt(mem, at);
      c.sof < 0x1_0000 && (Bytes32(c.stc) + Bytes16(c.sof))[i] == ByteAt(mem, at + i)
  {
    var c := ClockAt(mem, at);
    var l := [ByteAt(mem, at), ByteAt(mem, at + 1), ByteAt(mem, at + 2), ByteAt(mem, at + 3),
              ByteAt(mem, at + 4), ByteAt(mem, at + 5)];
    assert c.stc == Le32(l[0], l[1], l[2], l[3]) && c.sof == Le16(l[4], l[5]);
    hide *;
    ClockInverse(l[0], l[1], l[2], l[3], l[4], l[5]);
    assert Bytes32(c.stc) + Bytes16(c.sof) == l;
  }

  lemma ScrLaidOut(mem: seq<byte>, i: nat)
    requires |mem| >= 2 && FieldsOf(mem).scr.Some?
    requires var at := if FieldsOf(mem).pts.Some? then 6 else 2; at <= i < at + 6
    ensures FieldsOf(mem).scr.value.sof < 0x1_0000 && Encode(FieldsOf(mem), mem[0])[i] == ByteAt(mem, i)
  {
    var f := FieldsOf(mem);
    var at := if f.pts.Some? then 6 else 2;
    assert f.scr.value == ClockAt(mem, at);
    hide *;
    ClockBytes(mem, at, i - at);
    EncodedClock(f, mem[0], i - at);
  }

  /** Every two readable bytes begin a header of this kind, so the theorems above speak of every packet. */
  lemma EveryHeaderIsLaidOut(mem: seq<byte>)
    requires |mem| >= 2
    ensures Carries(mem, FieldsOf(mem), mem[0])
  {
    var f := FieldsOf(mem);
    FlagsOf(mem[1]);
    assert Flags(f) == mem[1];
    hide Flags, Flag, Le32, Bytes32;
    forall i: nat | 2 <= i < Length(f) ensures Encode(f, mem[0])[i] == ByteAt(mem, i) {
      if f.pts.Some? && i < 6 {
        PtsLaidOut(mem, i);
      } else {
        ScrLaidOut(mem, i);
      }
    }
  }
}
