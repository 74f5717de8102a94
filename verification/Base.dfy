/** Machine integers and small helpers shared by the models. */
module Base {
  const TWO32: int := 0x1_0000_0000
  const TWO64: int := 0x1_0000_0000_0000_0000
  const MAX64: u64 := 0xFFFF_FFFF_FFFF_FFFF

  type u64 = x: int | 0 <= x < 0x1_0000_0000_0000_0000
  type u32 = x: int | 0 <= x < 0x1_0000_0000

  type byte = x: int | 0 <= x < 256

  datatype Option<+T> = None | Some(value: T)

  /** Subtraction of two `uint64_t` values, with wrap-around. */
  function Sub64(a: u64, b: u64): u64 {
    if b <= a then a - b else a - b + TWO64
  }

  /** Conversion of a wider unsigned value to `uint32_t`. */
  function Trunc32(x: int): u32 {
    x % TWO32
  }

  /** `(uint64_t)ms * 1000000` for a C `long`. */
  function MsToNs(ms: int): u64 {
    (ms * 1_000_000) % TWO64
  }

  lemma MsToNsExact(ms: int)
    requires 0 <= ms <= 18_446_744_073_709
    ensures MsToNs(ms) == ms * 1_000_000
  {
  }

  /** The first `n` elements, or all of them. */
  function Take<T>(s: seq<T>, n: nat): seq<T> {
    if |s| <= n then s else s[..n]
  }

  ghost predicate Increasing(idx: seq<nat>) {
    forall a, b :: 0 <= a < b < |idx| ==> idx[a] < idx[b]
  }

  function Max(a: int, b: int): int {
    if a < b then b else a
  }

  function Min(a: int, b: int): int {
    if a < b then a else b
  }

  /** `bpf_map_update_elem` on a hash map of bounded size: an existing key is overwritten, a new one is
      refused when the map is full. */
  function MapUpdate<V>(m: map<nat, V>, cap: nat, k: nat, v: V): map<nat, V> {
    if k in m || |m| < cap then m[k := v] else m
  }

  lemma SubsetSize<T>(a: set<T>, b: set<T>)
    requires a <= b
    ensures |a| <= |b|
  {
    assert b == a + (b - a);
  }

  lemma Reassociate<T>(a: seq<T>, b: seq<T>, c: seq<T>)
    ensures (a + b) + c == a + (b + c)
  {
  }

  /** The sum of `f` over a finite set. */
  ghost function SumOver<T(!new)>(s: set<T>, f: T -> int): int
    decreases |s|
  {
    if s == {} then 0
    else
      var x :| x in s;
      f(x) + SumOver(s - {x}, f)
  }

  lemma {:induction false} SumWithout<T(!new)>(s: set<T>, f: T -> int, x: T)
    requires x in s
    ensures SumOver(s, f) == f(x) + SumOver(s - {x}, f)
    decreases |s|
  {
    var y :| y in s && SumOver(s, f) == f(y) + SumOver(s - {y}, f);
    if x != y {
      SumWithout(s - {y}, f, x);
      SumWithout(s - {x}, f, y);
      assert s - {y} - {x} == s - {x} - {y};
    }
  }

  lemma {:induction false} SumAgrees<T(!new)>(s: set<T>, f: T -> int, g: T -> int)
    requires forall x :: x in s ==> f(x) == g(x)
    ensures SumOver(s, f) == SumOver(s, g)
    decreases |s|
  {
    if s != {} {
      var x :| x in s;
      SumWithout(s, f, x);
      SumWithout(s, g, x);
      SumAgrees(s - {x}, f, g);
    }
  }

  lemma {:induction false} SumOfSums<T(!new)>(s: set<T>, f: T -> int, g: T -> int, h: T -> int)
    requires forall x :: x in s ==> h(x) == f(x) + g(x)
    ensures SumOver(s, h) == SumOver(s, f) + SumOver(s, g)
    decreases |s|
  {
    if s != {} {
      var x :| x in s;
      SumWithout(s, f, x);
      SumWithout(s, g, x);
      SumWithout(s, h, x);
      SumOfSums(s - {x}, f, g, h);
    }
  }
}
