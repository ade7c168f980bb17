/** Byte strings, as the kernel's uint8_t buffers and the image builder's bytearrays hold them. */
module Bytes {

  type byte = x: int | 0 <= x < 256

  /** The sizes of the fixed-width integers of the C sources. */
  const TWO16 := 0x1_0000
  const TWO32 := 0x1_0000_0000

  /** What memset(dest, 0, n) leaves behind. */
  function Zeros(n: nat): (z: seq<byte>)
    ensures |z| == n
    ensures forall i | 0 <= i < n :: z[i] == 0
  {
    seq(n, i => 0)
  }

  /** `s` with the bytes from position `at` replaced by `patch`. */
  function Splice(s: seq<byte>, at: nat, patch: seq<byte>): (r: seq<byte>)
    requires at + |patch| <= |s|
    ensures |r| == |s|
  {
    s[..at] + patch + s[at + |patch|..]
  }

  /** A window of a spliced string that does not meet the patch is unchanged. */
  lemma SpliceOutside(s: seq<byte>, at: nat, patch: seq<byte>, lo: nat, hi: nat)
    requires at + |patch| <= |s|
    requires lo <= hi <= |s|
    requires hi <= at || at + |patch| <= lo
    ensures Splice(s, at, patch)[lo..hi] == s[lo..hi]
  {
  }

  /** Neighbouring windows join. */
  lemma SliceOfSlice(s: seq<byte>, lo: nat, hi: nat, i: nat, j: nat)
    requires lo <= hi <= |s| && i <= j <= hi - lo
    ensures s[lo..hi][i..j] == s[lo + i..lo + j]
  {
    assert forall k | 0 <= k < j - i :: s[lo..hi][i..j][k] == s[lo + i..lo + j][k];
  }

  lemma SliceJoin(s: seq<byte>, lo: nat, mid: nat, hi: nat)
    requires lo <= mid <= hi <= |s|
    ensures s[lo..mid] + s[mid..hi] == s[lo..hi]
  {
  }

  /** Two splices side by side are one. */
  lemma SpliceJoin(s: seq<byte>, at: nat, a: seq<byte>, b: seq<byte>)
    requires at + |a| + |b| <= |s|
    ensures Splice(Splice(s, at, a), at + |a|, b) == Splice(s, at, a + b)
  {
  }

  /** A splice inside a prefix. */
  lemma SplicePrefix(s: seq<byte>, at: nat, patch: seq<byte>, n: nat)
    requires at + |patch| <= n <= |s|
    ensures Splice(s, at, patch)[..n] == Splice(s[..n], at, patch)
  {
  }

  lemma SpliceNothing(s: seq<byte>, at: nat)
    requires at <= |s|
    ensures Splice(s, at, []) == s
  {
  }

  /** A splice into the first or into the second part of a concatenation. */
  lemma SpliceLeft(a: seq<byte>, b: seq<byte>, at: nat, patch: seq<byte>)
    requires at + |patch| <= |a|
    ensures Splice(a + b, at, patch) == Splice(a, at, patch) + b
  {
  }

  lemma SpliceRight(a: seq<byte>, b: seq<byte>, at: nat, patch: seq<byte>)
    requires at + |patch| <= |b|
    ensures Splice(a + b, |a| + at, patch) == a + Splice(b, at, patch)
  {
  }

  /** Little-endian packing of a uint16_t. */
  function Le16(v: nat): (b: seq<byte>)
    requires v < TWO16
    ensures |b| == 2 && FromLe16(b) == v
  {
    [v % 256, v / 256]
  }

  function FromLe16(b: seq<byte>): (v: nat)
    requires |b| == 2
    ensures v < TWO16
  {
    b[0] as int + 256 * b[1] as int
  }

  lemma Digits(v: nat)
    ensures v / 65536 == v / 256 / 256 && v / 16777216 == v / 65536 / 256
    ensures v == v % 256 + 256 * (v / 256 % 256) + 65536 * (v / 65536 % 256) + 16777216 * (v / 16777216)
  {
    var q1 := v / 256;
    var q2 := q1 / 256;
    assert v == 65536 * q2 + (256 * (q1 % 256) + v % 256);
    assert v == 16777216 * (q2 / 256) + (65536 * (q2 % 256) + 256 * (q1 % 256) + v % 256);
  }

  /** Little-endian packing of a uint32_t. */
  function Le32(v: nat): (b: seq<byte>)
    requires v < TWO32
    ensures |b| == 4 && FromLe32(b) == v
  {
    Digits(v);
    [v % 256, v / 256 % 256, v / 65536 % 256, v / 16777216]
  }

  function FromLe32(b: seq<byte>): (v: nat)
    requires |b| == 4
    ensures v < TWO32
  {
    b[0] as int + 256 * b[1] as int + 65536 * b[2] as int + 16777216 * b[3] as int
  }

  lemma Digit(low: nat, high: nat)
    requires low < 256
    ensures (low + 256 * high) % 256 == low && (low + 256 * high) / 256 == high
  {
  }

  /** Packing what was unpacked gives the same bytes. */
  lemma LittleEndianAgain(b: seq<byte>)
    ensures |b| == 2 ==> Le16(FromLe16(b)) == b
    ensures |b| == 4 ==> Le32(FromLe32(b)) == b
  {
    if |b| == 2 {
      Digit(b[0], b[1]);
    } else if |b| == 4 {
      var v := FromLe32(b);
      var q2 := b[2] as int + 256 * b[3] as int;
      var q1 := b[1] as int + 256 * q2;
      Digits(v);
      Digit(b[0], q1);
      Digit(b[1], q2);
      Digit(b[2], b[3]);
      assert v == b[0] as int + 256 * q1;
    }
  }

  lemma ZerosTail(n: nat, k: nat)
    requires k <= n
    ensures Zeros(n)[k..] == Zeros(n - k)
  {
  }
}
