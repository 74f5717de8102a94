/** The template expander of the findings: bounded output, unbounded meaning. */
module Template {
  import opened Base

  const KEY_SIZE: nat := 16
  const VALUE_SIZE: nat := 64

  datatype Vars = Vars(vid: nat, pid: nat, bus: nat, dev: nat, count: int, windowMs: int, comm: Option<string>)

  function Digit(d: nat): char
    requires d < 16
  {
    "0123456789abcdef"[d]
  }

  /** `%u` and `%ld`. */
  function Dec(n: int): string
    decreases if n < 0 then 1 - n else n
  {
    if n < 0 then "-" + Dec(-n)
    else if n < 10 then [Digit(n)]
    else Dec(n / 10) + [Digit(n % 10)]
  }

  /** `%04x` of a 16-bit value. */
  function Hex4(n: nat): string {
    [Digit(n / 4096 % 16), Digit(n / 256 % 16), Digit(n / 16 % 16), Digit(n % 16)]
  }

  predicate Recognised(key: string) {
    || key == "vid" || key == "pid" || key == "bus" || key == "dev"
    || key == "count" || key == "window" || key == "comm"
  }

  /** The text a braced key is replaced by: a known variable's value, an unknown key itself. */
  function ValueOf(key: string, v: Vars): string {
    if key == "vid" then Hex4(v.vid)
    else if key == "pid" then Hex4(v.pid)
    else if key == "bus" then Dec(v.bus)
    else if key == "dev" then Dec(v.dev)
    else if key == "count" then Dec(v.count)
    else if key == "window" then Dec(v.windowMs)
    else if key == "comm" then (if v.comm.Some? then v.comm.value else "")
    else "{" + key + "}"
  }

  /** The value as it fits the 64-byte buffer it is formatted in. */
  function Value(key: string, v: Vars): string {
    Take(ValueOf(key, v), VALUE_SIZE - 1)
  }

  /** Index of the first closing brace at or after `i`; the length of `t` when there is none. */
  function Brace(t: string, i: nat): (e: nat)
    requires i <= |t|
    ensures i <= e <= |t| && (e < |t| ==> t[e] == '}')
    ensures forall j :: i <= j < e ==> t[j] != '}'
    decreases |t| - i
  {
    if i == |t| || t[i] == '}' then i else Brace(t, i + 1)
  }

  /** A key starts at `i`: an opening brace whose closing brace is at most 16 places on. */
  predicate KeyAt(t: string, i: nat)
    requires i < |t|
  {
    t[i] == '{' && Brace(t, i) < |t| && Brace(t, i) - i - 1 < KEY_SIZE
  }

  /** The unbounded expansion of the template from position `i`, `value` giving the text of each key. */
  function Expansion(t: string, i: nat, value: string -> string): string
    requires i <= |t|
    decreases |t| - i
  {
    if i == |t| then "" else Piece(t, i, value) + Expansion(t, After(t, i), value)
  }

  /** What position `i` turns into: the value of the key that starts there, or the character itself. */
  function Piece(t: string, i: nat, value: string -> string): string
    requires i < |t|
  {
    if KeyAt(t, i) then value(t[i + 1..Brace(t, i)]) else [t[i]]
  }

  function After(t: string, i: nat): (j: nat)
    requires i < |t|
    ensures i < j <= |t|
  {
    if KeyAt(t, i) then Brace(t, i) + 1 else i + 1
  }

  function Values(v: Vars): string -> string {
    key => Value(key, v)
  }

  /** `snprintf(out + o, size - o, "%s", val)`: as much as fits, then a terminator. */
  method Print(out: array<char>, o: nat, val: string)
    requires o < out.Length
    modifies out
    ensures var put := Take(val, out.Length - o - 1);
      out[..o] == old(out[..o]) && out[o..o + |put|] == put
  {
    var n := if |val| < out.Length - o - 1 then |val| else out.Length - o - 1;
    for i := 0 to n
      invariant out[..o] == old(out[..o]) && out[o..o + i] == val[..i]
    {
      out[o + i] := val[i];
    }
    assert val[..n] == Take(val, out.Length - o - 1);
    out[o + n] := '\0';
  }

  /** `out` holds the text `done`, as far as it fits. */
  ghost predicate Shows(out: array<char>, done: string)
    requires out.Length >= 1
    reads out
  {
    out[..Min(|done|, out.Length - 1)] == Take(done, out.Length - 1)
  }

  method PrintValue(out: array<char>, val: string, o: nat, ghost done: string)
    requires o == |done| && o + 1 < out.Length && Shows(out, done)
    modifies out
    ensures Shows(out, done + val)
  {
    Print(out, o, val);
    TakeConcat(done, val, out.Length - 1);
    ghost var put := Take(val, out.Length - o - 1);
    assert out[..o + |put|] == out[..o] + out[o..o + |put|];
  }

  method PrintChar(out: array<char>, c: char, o: nat, ghost done: string)
    requires o == |done| && o + 1 < out.Length && Shows(out, done)
    modifies out
    ensures Shows(out, done + [c])
  {
    out[o] := c;
  }

  lemma ExpansionNext(t: string, i: nat, value: string -> string)
    requires i < |t|
    ensures Expansion(t, i, value) == Piece(t, i, value) + Expansion(t, After(t, i), value)
  {
  }

  method ExpandWith(t: string, value: string -> string, out: array<char>)
    requires out.Length >= 1
    modifies out
    ensures var shown := Take(Expansion(t, 0, value), out.Length - 1);
      out[..|shown|] == shown && out[|shown|] == '\0'
  {
    ghost var done: string := "";
    var o: nat, i: nat := 0, 0;
    while i < |t| && o + 1 < out.Length
      invariant i <= |t| && o == |done| && Expansion(t, 0, value) == done + Expansion(t, i, value)
      invariant Shows(out, done)
      decreases |t| - i
    {
      ExpansionNext(t, i, value);
      hide Expansion;
      if KeyAt(t, i) {
        var e := Brace(t, i);
        var val := value(t[i + 1..e]);
        PrintValue(out, val, o, done);
        Reassociate(done, val, Expansion(t, e + 1, value));
        done := done + val;
        o := o + |val|;
        i := e + 1;
      } else {
        PrintChar(out, t[i], o, done);
        Reassociate(done, [t[i]], Expansion(t, i + 1, value));
        done := done + [t[i]];
        o := o + 1;
        i := i + 1;
      }
    }
    TakePrefix(done, Expansion(t, i, value), out.Length - 1);
    out[if o < out.Length then o else out.Length - 1] := '\0';
  }

  /** Expands a template, `None` standing for a missing one, into a buffer of at least one byte: the first
      `size - 1` characters of the unbounded expansion, and a terminator. */
  method Expand(tmpl: Option<string>, v: Vars, out: array<char>)
    requires out.Length >= 1
    modifies out
    ensures var full := Expansion(if tmpl.Some? then tmpl.value else "", 0, Values(v));
      var shown := Take(full, out.Length - 1);
      out[..|shown|] == shown && out[|shown|] == '\0'
  {
    ExpandWith(if tmpl.Some? then tmpl.value else "", Values(v), out);
  }

  lemma TakePrefix(a: string, b: string, n: nat)
    requires b == "" || n <= |a|
    ensures Take(a + b, n) == Take(a, n)
  {
    if b == "" {
      assert a + b == a;
    }
  }

  lemma TakeConcat(a: string, b: string, n: nat)
    requires |a| <= n
    ensures Take(a + b, n) == a + Take(b, n - |a|)
  {
  }

  // ---- meaning ----

  /** No brace pair of the template names a recognised variable. */
  ghost predicate NoVariables(t: string) {
    forall i :: 0 <= i < |t| && KeyAt(t, i) ==> !Recognised(t[i + 1..Brace(t, i)])
  }

  lemma UnknownValue(key: string, v: Vars)
    requires !Recognised(key) && |key| < KEY_SIZE
    ensures Value(key, v) == "{" + key + "}"
  {
  }

  /** Every brace pair of the template stands for itself. */
  ghost predicate SelfValued(t: string, value: string -> string) {
    forall i :: 0 <= i < |t| && KeyAt(t, i) ==> value(t[i + 1..Brace(t, i)]) == t[i..Brace(t, i) + 1]
  }

  lemma Cut(t: string, i: nat, j: nat)
    requires i <= j <= |t|
    ensures t[i..j] + t[j..] == t[i..]
  {
  }

  lemma {:induction false} SelfValuedIsLiteral(t: string, i: nat, value: string -> string)
    requires SelfValued(t, value) && i <= |t|
    ensures Expansion(t, i, value) == t[i..]
    decreases |t| - i
  {
    if i < |t| {
      var j := After(t, i);
      SelfValuedIsLiteral(t, j, value);
      assert Piece(t, i, value) == t[i..j];
      Cut(t, i, j);
    }
  }

  lemma Braced(t: string, i: nat, e: nat)
    requires i < e < |t| && t[i] == '{' && t[e] == '}'
    ensures "{" + t[i + 1..e] + "}" == t[i..e + 1]
  {
  }

  /** Templates without a recognised variable are copied as they are: plain text, unmatched braces, unknown
      keys and over-long ones. */
  lemma UnknownIsLiteral(t: string, v: Vars)
    requires NoVariables(t)
    ensures Expansion(t, 0, Values(v)) == t
  {
    forall i | 0 <= i < |t| && KeyAt(t, i) ensures Values(v)(t[i + 1..Brace(t, i)]) == t[i..Brace(t, i) + 1] {
      UnknownValue(t[i + 1..Brace(t, i)], v);
      Braced(t, i, Brace(t, i));
    }
    SelfValuedIsLiteral(t, 0, Values(v));
    assert t[0..] == t;
  }

  lemma {:induction false} BraceOfSuffix(t: string, i: nat, j: nat)
    requires i <= j <= |t|
    ensures Brace(t[i..], j - i) == Brace(t, j) - i
    decreases |t| - j
  {
    if j < |t| && t[j] != '}' {
      BraceOfSuffix(t, i, j + 1);
    }
  }

  lemma PieceOfSuffix(t: string, d: nat, i: nat, value: string -> string)
    requires d <= i < |t|
    ensures Piece(t[d..], i - d, value) == Piece(t, i, value) && After(t[d..], i - d) == After(t, i) - d
  {
    BraceOfSuffix(t, d, i);
    if KeyAt(t, i) {
      var e := Brace(t, i);
      assert t[d..][i - d + 1..e - d] == t[i + 1..e];
    }
  }

  /** Expansion looks only ahead. */
  lemma {:induction false} ExpansionOfSuffix(t: string, d: nat, i: nat, value: string -> string)
    requires d <= i <= |t|
    ensures Expansion(t[d..], i - d, value) == Expansion(t, i, value)
    decreases |t| - i
  {
    if i < |t| {
      PieceOfSuffix(t, d, i, value);
      ExpansionOfSuffix(t, d, After(t, i), value);
    }
  }

  /** A variable stands for its value wherever it follows text without an opening brace, and what comes
      after it is expanded on its own. */
  lemma {:induction false} VariableExpands(t: string, i: nat, j: nat, e: nat, value: string -> string)
    requires i <= j < e < |t| && e - j - 1 < KEY_SIZE && t[j] == '{' && t[e] == '}'
    requires (forall x :: i <= x < j ==> t[x] != '{') && (forall x :: j < x < e ==> t[x] != '}')
    ensures Expansion(t, i, value) == t[i..j] + (value(t[j + 1..e]) + Expansion(t[e + 1..], 0, value))
    decreases j - i
  {
    hide *;
    var rest := value(t[j + 1..e]) + Expansion(t[e + 1..], 0, value);
    if i == j {
      KeyHere(t, j, e, value);
      ExpansionOfSuffix(t, e + 1, e + 1, value);
      assert t[i..j] + rest == rest;
      assert t[e + 1..][0..] == t[e + 1..];
    } else {
      VariableExpands(t, i + 1, j, e, value);
      CharHere(t, i, value);
      assert [t[i]] + (t[i + 1..j] + rest) == t[i..j] + rest;
    }
  }

  lemma CharHere(t: string, i: nat, value: string -> string)
    requires i < |t| && t[i] != '{'
    ensures Expansion(t, i, value) == [t[i]] + Expansion(t, i + 1, value)
  {
  }

  lemma KeyHere(t: string, j: nat, e: nat, value: string -> string)
    requires j < e < |t| && e - j - 1 < KEY_SIZE && t[j] == '{' && t[e] == '}'
    requires forall x :: j < x < e ==> t[x] != '}'
    ensures Expansion(t, j, value) == value(t[j + 1..e]) + Expansion(t, e + 1, value)
  {
    assert Brace(t, j) == e;
  }

  // ---- the numbers printed ----

  function DigitValue(c: char): int {
    if '0' <= c <= '9' then c as int - '0' as int else c as int - 'a' as int + 10
  }

  /** What a string of digits denotes in a given base, with a leading minus sign for negative numbers. */
  function Denotes(s: string, base: nat): int {
    if s == "" then 0
    else if s[0] == '-' then -Denotes(s[1..], base)
    else Denotes(s[..|s| - 1], base) * base + DigitValue(s[|s| - 1])
  }

  lemma DigitDenotes(d: nat)
    requires d < 16
    ensures DigitValue(Digit(d)) == d && Digit(d) != '-'
  {
  }

  function Pow10(d: nat): nat {
    if d == 0 then 1 else 10 * Pow10(d - 1)
  }

  /** Decimal printing: the digits denote the number, and a number below `10^d` takes at most `d`. */
  lemma {:induction false} DecDenotes(n: nat, d: nat)
    requires 0 < d && n < Pow10(d)
    ensures Denotes(Dec(n), 10) == n && 0 < |Dec(n)| <= d && Dec(n)[0] != '-'
    decreases n
  {
    DigitDenotes(n % 10);
    if n < 10 {
      assert Dec(n)[..0] == "";
    } else {
      assert d > 1;
      DecDenotes(n / 10, d - 1);
      var s := Dec(n);
      assert s[..|s| - 1] == Dec(n / 10) && s[0] == Dec(n / 10)[0];
    }
  }

  /** Every `long` prints in at most 20 characters, and what is printed denotes it. */
  lemma LongDenotes(n: int)
    requires -0x8000_0000_0000_0000 <= n < 0x8000_0000_0000_0000
    ensures Denotes(Dec(n), 10) == n && |Dec(n)| <= 20
  {
    PowersOfTen();
    if n < 0 {
      DecDenotes(-n, 19);
      assert Dec(n)[1..] == Dec(-n);
    } else {
      DecDenotes(n, 19);
    }
  }

  lemma PowersOfTen()
    ensures Pow10(19) == 10_000_000_000_000_000_000
  {
    assert Pow10(5) == 100_000;
    assert Pow10(10) == 10_000_000_000;
    assert Pow10(15) == 1_000_000_000_000_000;
  }

  /** One more digit at the right multiplies by the base and adds the digit. */
  lemma DenotesStep(s: string, d: nat, base: nat)
    requires d < 16 && (s == "" || s[0] != '-')
    ensures Denotes(s + [Digit(d)], base) == Denotes(s, base) * base + d
    ensures (s + [Digit(d)])[0] != '-'
  {
    var t := s + [Digit(d)];
    assert t[..|t| - 1] == s;
  }

  lemma FourDigitsBase16(n: nat)
    requires n < 0x1_0000
    ensures ((n / 4096 % 16 * 16 + n / 256 % 16) * 16 + n / 16 % 16) * 16 + n % 16 == n
  {
  }

  lemma Hex4Denotes(n: nat)
    requires n < 0x1_0000
    ensures |Hex4(n)| == 4 && Denotes(Hex4(n), 16) == n
  {
    var a, b, c, d := n / 4096 % 16, n / 256 % 16, n / 16 % 16, n % 16;
    FourDigitsBase16(n);
    assert Denotes("", 16) == 0;
    hide Denotes, Digit;
    DenotesStep("", a, 16);
    DenotesStep("" + [Digit(a)], b, 16);
    DenotesStep("" + [Digit(a)] + [Digit(b)], c, 16);
    DenotesStep("" + [Digit(a)] + [Digit(b)] + [Digit(c)], d, 16);
    assert Hex4(n) == "" + [Digit(a)] + [Digit(b)] + [Digit(c)] + [Digit(d)];
  }

  /** Each variable stands for its own number: identifiers in hexadecimal, the rest in decimal. */
  lemma VariablesDenote(v: Vars)
    requires v.vid < 0x1_0000 && v.pid < 0x1_0000 && v.bus < 0x1_0000 && v.dev < 0x1_0000
    requires -0x8000_0000_0000_0000 <= v.count < 0x8000_0000_0000_0000
    requires -0x8000_0000_0000_0000 <= v.windowMs < 0x8000_0000_0000_0000
    ensures Denotes(Value("vid", v), 16) == v.vid && Denotes(Value("pid", v), 16) == v.pid
    ensures Denotes(Value("bus", v), 10) == v.bus && Denotes(Value("dev", v), 10) == v.dev
    ensures Denotes(Value("count", v), 10) == v.count && Denotes(Value("window", v), 10) == v.windowMs
    ensures v.comm.Some? && |v.comm.value| < VALUE_SIZE ==> Value("comm", v) == v.comm.value
  {
    hide Denotes, Dec, Hex4;
    Hex4Denotes(v.vid);
    Hex4Denotes(v.pid);
    LongDenotes(v.bus);
    LongDenotes(v.dev);
    LongDenotes(v.count);
    LongDenotes(v.windowMs);
  }
}
