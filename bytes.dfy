/**
 * Bytes of the mapped input file, the fixed-width integers of the Rust code,
 * `memchr`, and the byte-lexicographic order that `<[u8] as Ord>::cmp` uses.
 */
module Bytes {
  import opened Wrappers

  newtype byte = b: int | 0 <= b < 0x100

  /** Rust's `i16`, `i32` and `u32`: arithmetic on them is checked not to overflow. */
  newtype i16 = x: int | -0x8000 <= x < 0x8000
  newtype i32 = x: int | -0x8000_0000 <= x < 0x8000_0000
  newtype u32 = x: int | 0 <= x < 0x1_0000_0000

  const I16_MIN: int := -0x8000
  const I16_MAX: int := 0x7fff
  const I32_MIN: int := -0x8000_0000
  const I32_MAX: int := 0x7fff_ffff
  const U32_MAX: int := 0xffff_ffff

  predicate InI16(x: int) { I16_MIN <= x <= I16_MAX }
  predicate InI32(x: int) { I32_MIN <= x <= I32_MAX }

  /** The ASCII bytes the scanner and the decoder look at. */
  const NEWLINE: byte := 10
  const MINUS: byte := 45
  const DOT: byte := 46
  const SEMICOLON: byte := 59
  const ZERO: byte := 48
  const NINE: byte := 57

  predicate IsDigit(b: byte) { ZERO <= b <= NINE }

  /**
   * `memchr::memchr(needle, hay)`: the index of the first occurrence of
   * `needle` in `hay`, or `None` when it does not occur (see `MemChrFirst`).
   */
  function MemChr(needle: byte, hay: seq<byte>): (r: Option<nat>)
    ensures r.Some? ==> r.value < |hay| && hay[r.value] == needle
  {
    MemChrFrom(needle, hay, 0)
  }

  /** The first occurrence of `needle` at or after index `k`. */
  function MemChrFrom(needle: byte, hay: seq<byte>, k: nat): (r: Option<nat>)
    requires k <= |hay|
    ensures r.Some? ==> k <= r.value < |hay| && hay[r.value] == needle
    decreases |hay| - k
  {
    if k == |hay| then None
    else if hay[k] == needle then Some(k)
    else MemChrFrom(needle, hay, k + 1)
  }

  lemma {:induction false} MemChrFromFirst(needle: byte, hay: seq<byte>, k: nat)
    requires k <= |hay|
    ensures var r := MemChrFrom(needle, hay, k);
            forall j :: k <= j < (if r.Some? then r.value else |hay|) ==> hay[j] != needle
    decreases |hay| - k
  {
    if k < |hay| && hay[k] != needle {
      MemChrFromFirst(needle, hay, k + 1);
    }
  }

  /** `memchr` finds the first occurrence, and finds nothing only when there is none. */
  lemma MemChrFirst(needle: byte, hay: seq<byte>)
    ensures var r := MemChr(needle, hay);
            (r.Some? ==> forall j :: 0 <= j < r.value ==> hay[j] != needle) &&
            (r.None? <==> needle !in hay)
  {
    MemChrFromFirst(needle, hay, 0);
  }

  /** The first-occurrence contract determines the search's answer. */
  lemma MemChrFromAt(needle: byte, hay: seq<byte>, k: nat, i: nat)
    requires k <= i < |hay| && hay[i] == needle
    requires forall j :: k <= j < i ==> hay[j] != needle
    ensures MemChrFrom(needle, hay, k) == Some(i)
  {
    MemChrFromFirst(needle, hay, k);
  }

  lemma MemChrFromNone(needle: byte, hay: seq<byte>, k: nat)
    requires k <= |hay|
    requires forall j :: k <= j < |hay| ==> hay[j] != needle
    ensures MemChrFrom(needle, hay, k) == None
  {
  }

  /**
   * Searching `hay` from index `k` is `memchr` on the suffix `hay[k..]`, with
   * the index shifted by `k`: the scanner searches from its cursor.
   */
  lemma {:induction false} MemChrOfSuffix(needle: byte, hay: seq<byte>, k: nat)
    requires k <= |hay|
    ensures MemChr(needle, hay[k..]) ==
              match MemChrFrom(needle, hay, k)
              case None => None
              case Some(i) => Some(i - k)
  {
    MemChrFromFirst(needle, hay, k);
    MemChrFirst(needle, hay[k..]);
    var r := MemChrFrom(needle, hay, k);
    if r.Some? {
      assert hay[k..][r.value - k] == needle;
    } else {
      assert forall j :: 0 <= j < |hay[k..]| ==> hay[k..][j] == hay[k + j];
    }
  }

  /** Byte-lexicographic strict order: compare byte by byte, a proper prefix is smaller. */
  predicate Less(a: seq<byte>, b: seq<byte>)
  {
    if b == [] then false
    else if a == [] then true
    else if a[0] != b[0] then a[0] < b[0]
    else Less(a[1..], b[1..])
  }

  lemma {:induction false} LessIrreflexive(a: seq<byte>)
    ensures !Less(a, a)
  {
    if a != [] {
      LessIrreflexive(a[1..]);
    }
  }

  lemma {:induction false} LessTransitive(a: seq<byte>, b: seq<byte>, c: seq<byte>)
    requires Less(a, b) && Less(b, c)
    ensures Less(a, c)
  {
    if a != [] && a[0] == b[0] && b[0] == c[0] {
      LessTransitive(a[1..], b[1..], c[1..]);
    }
  }

  lemma {:induction false} LessTotal(a: seq<byte>, b: seq<byte>)
    requires a != b
    ensures Less(a, b) || Less(b, a)
  {
    if a != [] && b != [] && a[0] == b[0] {
      assert a == [a[0]] + a[1..] && b == [b[0]] + b[1..];
      LessTotal(a[1..], b[1..]);
    }
  }

  lemma LessAsymmetric(a: seq<byte>, b: seq<byte>)
    requires Less(a, b)
    ensures !Less(b, a)
  {
    if Less(b, a) {
      LessTransitive(a, b, a);
      LessIrreflexive(a);
    }
  }
}
