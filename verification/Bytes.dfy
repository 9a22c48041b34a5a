/** Byte sequences, machine integers and the small result types shared by every module. */
module Bytes {

  datatype Option<+T> = None | Some(value: T)

  datatype Result<+T, +E> = Ok(value: T) | Err(error: E)

  type byte = x: int | 0 <= x < 256

  const U32_MAX: nat := 0xFFFF_FFFF
  const U64_MAX: nat := 0xFFFF_FFFF_FFFF_FFFF
  const GIB: nat := 0x4000_0000

  type u16 = x: int | 0 <= x < 0x1_0000
  type u32 = x: int | 0 <= x < 0x1_0000_0000
  type u64 = x: int | 0 <= x <= 0xFFFF_FFFF_FFFF_FFFF

  function Min(a: nat, b: nat): nat {
    if a <= b then a else b
  }

  function Max(a: nat, b: nat): nat {
    if a <= b then b else a
  }

  /** `u64::saturating_sub`. */
  function SatSub(a: nat, b: nat): nat {
    if b <= a then a - b else 0
  }

  /** `u64::saturating_add`. */
  function SatAdd(a: u64, b: u64): u64 {
    if a + b <= U64_MAX then a + b else U64_MAX
  }

  /** `u64::saturating_mul`. */
  function SatMul(a: u64, b: u64): u64 {
    if a * b <= U64_MAX && 0 <= a * b then a * b else U64_MAX
  }

  /** Overwrites `s[off..off + |data|]` with `data`. */
  function Splice(s: seq<byte>, off: nat, data: seq<byte>): (r: seq<byte>)
    requires off + |data| <= |s|
    ensures |r| == |s|
  {
    seq(|s|, i requires 0 <= i < |s| => if off <= i < off + |data| then data[i - off] else s[i])
  }

  /** Two adjacent overwrites are one overwrite. */
  lemma SpliceExtend(s: seq<byte>, off: nat, data: seq<byte>, done: nat, n: nat)
    requires off + |data| <= |s| && done + n <= |data|
    ensures Splice(Splice(s, off, data[..done]), off + done, data[done..done + n]) == Splice(s, off, data[..done + n])
  {
  }

  lemma SliceOfSlice(s: seq<byte>, a: nat, b: nat, r: nat, n: nat)
    requires a <= b <= |s| && r + n <= b - a
    ensures s[a..b][r..r + n] == s[a + r..a + r + n]
  {
    var x, y := s[a..b][r..r + n], s[a + r..a + r + n];
    forall k | 0 <= k < n ensures x[k] == y[k] {
      assert x[k] == s[a..b][r + k];
    }
    assert |x| == |y|;
  }

  /** `now` is `s` with the first `n` bytes of `data` written over it. */
  predicate SplicedTo(now: seq<byte>, s: seq<byte>, off: nat, data: seq<byte>, n: nat) {
    off + |data| <= |s| && n <= |data| && now == Splice(s, off, data[..n])
  }

  lemma SplicedMore(now: seq<byte>, s: seq<byte>, off: nat, data: seq<byte>, done: nat, upto: nat)
    requires SplicedTo(now, s, off, data, done) && done <= upto <= |data|
    ensures SplicedTo(Splice(now, off + done, data[done..upto]), s, off, data, upto)
  {
    SpliceExtend(s, off, data, done, upto - done);
  }

  /** Overwriting a range with the bytes it already holds changes nothing. */
  lemma SpliceSame(s: seq<byte>, off: nat, n: nat)
    requires off + n <= |s|
    ensures Splice(s, off, s[off..off + n]) == s
  {
  }

  lemma TakeOneMore<T>(s: seq<T>, i: nat)
    requires i < |s|
    ensures s[..i + 1] == s[..i] + [s[i]]
  {
  }
}
