/** The bounded JSON string escaper, and a decoder that reads its output back (section 7 of RFC 8259). */
module JsonEscape {
  import opened Base

  /** The text of a C string: everything before the terminating zero. */
  type CText = s: seq<byte> | forall c :: c in s ==> c != 0

  const QUOTE: byte := 0x22
  const BACKSLASH: byte := 0x5c
  const LETTER_N: byte := 0x6e
  const LETTER_R: byte := 0x72
  const LETTER_T: byte := 0x74
  const LETTER_U: byte := 0x75

  function HexDigit(d: int): byte
    requires 0 <= d < 16
  {
    if d < 10 then 0x30 + d else 0x57 + d
  }

  function EscapeByte(c: byte): seq<byte> {
    if c == QUOTE || c == BACKSLASH then [BACKSLASH, c]
    else if c == 0x0a then [BACKSLASH, LETTER_N]
    else if c == 0x09 then [BACKSLASH, LETTER_T]
    else if c == 0x0d then [BACKSLASH, LETTER_R]
    else if c < 0x20 then [BACKSLASH, LETTER_U, 0x30, 0x30, HexDigit(c / 16), HexDigit(c % 16)]
    else [c]
  }

  function EscapeAll(s: seq<byte>): seq<byte> {
    if s == [] then [] else EscapeAll(s[..|s| - 1]) + EscapeByte(s[|s| - 1])
  }

  /** Bytes that must still be free, NUL included, before byte `c` is taken: two even for a plain byte. */
  function Demand(c: byte): nat {
    if |EscapeByte(c)| == 6 then 6 else 2
  }

  predicate Room(s: seq<byte>, i: nat, size: nat)
    requires i < |s|
  {
    |EscapeAll(s[..i])| + Demand(s[i]) < size
  }

  /** How many bytes from `i` on are taken: up to the first that lacks room. */
  function KeptFrom(s: seq<byte>, i: nat, size: nat): (k: nat)
    requires i <= |s|
    ensures i <= k <= |s|
    ensures forall j :: i <= j < k ==> Room(s, j, size)
    ensures k < |s| ==> !Room(s, k, size)
    decreases |s| - i
  {
    if i == |s| || !Room(s, i, size) then i else KeptFrom(s, i + 1, size)
  }

  function Kept(s: seq<byte>, size: nat): (k: nat)
    ensures k <= |s|
  {
    KeptFrom(s, 0, size)
  }

  /** Writes the bytes of one escape at offset `o`. */
  method Put(dst: array<byte>, o: nat, e: seq<byte>)
    requires o + |e| <= dst.Length
    modifies dst
    ensures dst[..o] == old(dst[..o]) && dst[o..o + |e|] == e && dst[o + |e|..] == old(dst[o + |e|..])
  {
    for i := 0 to |e|
      invariant forall k :: 0 <= k < o || o + i <= k < dst.Length ==> dst[k] == old(dst[k])
      invariant forall k :: 0 <= k < i ==> dst[o + k] == e[k]
    {
      dst[o + i] := e[i];
    }
  }

  /** Writes the escape of `c` at offset `o`, unless it is a six-byte one that no longer fits. */
  method PutByte(dst: array<byte>, o: nat, c: byte) returns (ok: bool, next: nat)
    requires o + 2 < dst.Length
    modifies dst
    ensures ok == (o + Demand(c) < dst.Length)
    ensures ok ==> next == o + |EscapeByte(c)| < dst.Length
    ensures ok ==> dst[..next] == old(dst[..o]) + EscapeByte(c) && dst[next..] == old(dst[next..])
    ensures !ok ==> dst[..] == old(dst[..])
  {
    ok := true;
    if c == QUOTE || c == BACKSLASH {
      Put(dst, o, [BACKSLASH, c]);
      next := o + 2;
    } else if c == 0x0a {
      Put(dst, o, [BACKSLASH, LETTER_N]);
      next := o + 2;
    } else if c == 0x09 {
      Put(dst, o, [BACKSLASH, LETTER_T]);
      next := o + 2;
    } else if c == 0x0d {
      Put(dst, o, [BACKSLASH, LETTER_R]);
      next := o + 2;
    } else if c < 0x20 {
      if o + 6 >= dst.Length {
        return false, o;
      }
      Put(dst, o, [BACKSLASH, LETTER_U, 0x30, 0x30, HexDigit(c / 16), HexDigit(c % 16)]);
      next := o + 6;
    } else {
      Put(dst, o, [c]);
      next := o + 1;
    }
    assert dst[..next] == dst[..o] + dst[o..next];
  }

  /** Escapes as much of `src` as fits into `dst` and terminates it. */
  method Escape(src: CText, dst: array<byte>)
    modifies dst
    ensures dst.Length == 0 ==> dst[..] == old(dst[..])
    ensures dst.Length > 0 ==>
      var out := EscapeAll(src[..Kept(src, dst.Length)]);
      && |out| < dst.Length && dst[..|out|] == out && dst[|out|] == 0
      && dst[|out| + 1..] == old(dst[|out| + 1..])
  {
    if dst.Length == 0 {
      return;
    }
    var o: nat, i: nat := 0, 0;
    ghost var was := dst[..];
    while i < |src| && o + 2 < dst.Length
      invariant i <= |src| && o < dst.Length
      invariant dst[..o] == EscapeAll(src[..i]) && dst[o..] == was[o..]
      invariant Kept(src, dst.Length) == KeptFrom(src, i, dst.Length)
    {
      EscapeStep(src, i);
      var ok, next := PutByte(dst, o, src[i]);
      if !ok {
        break;
      }
      o, i := next, i + 1;
    }
    dst[o] := 0;
  }

  lemma EscapeStep(s: seq<byte>, i: nat)
    requires i < |s|
    ensures EscapeAll(s[..i + 1]) == EscapeAll(s[..i]) + EscapeByte(s[i])
  {
    assert s[..i + 1][..i] == s[..i];
  }

  /** The escapes of the standard: a reverse solidus before a quotation mark or itself, and before n, t and r for line
      feed, tab and carriage return; any other control character as u and four hexadecimal digits; every other byte
      stands for itself. */
  lemma StandardEscapes(c: byte)
    ensures EscapeByte(0x22) == [0x5c, 0x22] && EscapeByte(0x5c) == [0x5c, 0x5c]
    ensures EscapeByte(0x0a) == [0x5c, 0x6e] && EscapeByte(0x09) == [0x5c, 0x74] && EscapeByte(0x0d) == [0x5c, 0x72]
    ensures 0x20 <= c && c != 0x22 && c != 0x5c ==> EscapeByte(c) == [c]
    ensures c < 0x20 && c != 0x0a && c != 0x09 && c != 0x0d ==>
      |EscapeByte(c)| == 6 && EscapeByte(c)[..2] == [0x5c, 0x75] && EscapeByte(c)[2] == EscapeByte(c)[3] == 0x30
  {
  }

  /** No control character survives. */
  lemma {:induction false} NoControls(s: seq<byte>)
    ensures forall b :: b in EscapeAll(s) ==> b >= 0x20
  {
    if s != [] {
      NoControls(s[..|s| - 1]);
    }
  }

  // ---- the inverse ----

  function HexValue(c: byte): Option<nat> {
    if 0x30 <= c <= 0x39 then Some(c - 0x30)
    else if 0x61 <= c <= 0x66 then Some(c - 0x57)
    else if 0x41 <= c <= 0x46 then Some(c - 0x37)
    else None
  }

  /** The UTF-8 bytes of a code unit (surrogates are not paired). */
  function Utf8(u: nat): seq<byte>
    requires u < 0x10000
  {
    if u < 0x80 then [u]
    else if u < 0x800 then [0xc0 + u / 64, 0x80 + u % 64]
    else [0xe0 + u / 4096, 0x80 + (u / 64) % 64, 0x80 + u % 64]
  }

  /** One item of a JSON string: the bytes it stands for, and how long it is. */
  datatype Item = Item(bytes: seq<byte>, len: nat)

  function DecodeItem(s: seq<byte>): (r: Option<Item>)
    requires s != []
    ensures r.Some? ==> 0 < r.value.len <= |s|
  {
    var c := s[0];
    if c == QUOTE || c < 0x20 then None
    else if c != BACKSLASH then Some(Item([c], 1))
    else if |s| < 2 then None
    else if s[1] == QUOTE || s[1] == BACKSLASH || s[1] == 0x2f then Some(Item([s[1]], 2))
    else if s[1] == 0x62 then Some(Item([8], 2))
    else if s[1] == 0x66 then Some(Item([12], 2))
    else if s[1] == LETTER_N then Some(Item([10], 2))
    else if s[1] == LETTER_R then Some(Item([13], 2))
    else if s[1] == LETTER_T then Some(Item([9], 2))
    else if s[1] == LETTER_U && |s| >= 6 then
      var a, b, c, d := HexValue(s[2]), HexValue(s[3]), HexValue(s[4]), HexValue(s[5]);
      if a.None? || b.None? || c.None? || d.None? then None
      else Some(Item(Utf8(a.value * 4096 + b.value * 256 + c.value * 16 + d.value), 6))
    else None
  }

  /** What a JSON string body denotes. A bare quote, a bare control byte and a cut escape are errors. */
  function Unescape(s: seq<byte>): Option<seq<byte>> {
    if s == [] then Some([])
    else
      var x := DecodeItem(s);
      if x.None? then None
      else
        var rest := Unescape(s[x.value.len..]);
        if rest.None? then None else Some(x.value.bytes + rest.value)
  }

  lemma ItemOfEscape(c: byte, rest: seq<byte>)
    requires c != 0
    ensures var e := EscapeByte(c); DecodeItem(e + rest) == Some(Item([c], |e|)) && (e + rest)[|e|..] == rest
  {
    var s := EscapeByte(c) + rest;
    if |EscapeByte(c)| == 6 {
      assert s[0] == BACKSLASH && s[1] == LETTER_U && s[2] == 0x30 && s[3] == 0x30;
      assert HexValue(s[4]) == Some(c / 16) && HexValue(s[5]) == Some(c % 16);
    }
  }

  lemma UnescapeItem(c: byte, rest: seq<byte>)
    requires c != 0
    ensures Unescape(EscapeByte(c) + rest)
         == if Unescape(rest).Some? then Some([c] + Unescape(rest).value) else None
  {
    ItemOfEscape(c, rest);
  }

  lemma {:induction false} UnescapeBefore(s: seq<byte>, rest: seq<byte>)
    requires forall c :: c in s ==> c != 0
    ensures Unescape(EscapeAll(s) + rest)
         == if Unescape(rest).Some? then Some(s + Unescape(rest).value) else None
  {
    if s == [] {
      assert EscapeAll(s) + rest == rest;
      assert Unescape(rest).Some? ==> s + Unescape(rest).value == Unescape(rest).value;
    } else {
      var p, c := s[..|s| - 1], s[|s| - 1];
      var e := EscapeByte(c);
      assert c in s && forall x :: x in p ==> x in s;
      UnescapeItem(c, rest);
      UnescapeBefore(p, e + rest);
      Reassociate(EscapeAll(p), e, rest);
      assert s == p + [c];
      if Unescape(rest).Some? {
        Reassociate(p, [c], Unescape(rest).value);
      }
    }
  }

  /** Round trip: for every text and every size the output is a well-formed JSON string body that denotes a
      prefix of the text. */
  lemma RoundTrip(src: CText, size: nat)
    ensures Unescape(EscapeAll(src[..Kept(src, size)])) == Some(src[..Kept(src, size)])
  {
    var p := src[..Kept(src, size)];
    UnescapeBefore(p, []);
    assert EscapeAll(p) + [] == EscapeAll(p) && p + [] == p;
  }

  lemma {:induction false} Multiples(per: nat, i: nat, n: nat)
    requires i < n
    ensures per * i + per <= per * n
  {
    OneMore(per, n - 1);
    if i < n - 1 {
      Multiples(per, i, n - 1);
    }
  }

  lemma OneMore(per: nat, n: nat)
    ensures per * (n + 1) == per * n + per
  {
  }

  lemma {:induction false} EscapeLength(s: seq<byte>, per: nat)
    requires forall c :: c in s ==> |EscapeByte(c)| <= per
    ensures |EscapeAll(s)| <= per * |s|
  {
    if s != [] {
      var p, c := s[..|s| - 1], s[|s| - 1];
      assert c in s && forall x :: x in p ==> x in s;
      EscapeLength(p, per);
      Multiples(per, |p|, |s|);
    }
  }

  /** Which texts survive whole, exactly: those where every byte finds its room. */
  lemma WholeIffRoom(src: CText, size: nat)
    ensures Unescape(EscapeAll(src[..Kept(src, size)])) == Some(src)
       <==> forall i :: 0 <= i < |src| ==> Room(src, i, size)
  {
    RoundTrip(src, size);
    assert Kept(src, size) == |src| ==> src[..Kept(src, size)] == src;
  }

  /** A buffer of six bytes per input byte plus one always suffices; two per byte do when every control
      character has a short escape. */
  lemma SufficientSize(src: CText, size: nat, per: nat)
    requires size >= per * |src| + 1
    requires per == 6 || (per == 2 && forall c :: c in src ==> c >= 0x20 || c == 0x09 || c == 0x0a || c == 0x0d)
    ensures Unescape(EscapeAll(src[..Kept(src, size)])) == Some(src)
  {
    forall i | 0 <= i < |src| ensures Room(src, i, size) {
      assert src[i] in src && forall c :: c in src[..i] ==> c in src;
      EscapeLength(src[..i], per);
      Multiples(per, i, |src|);
    }
    WholeIffRoom(src, size);
  }
}
