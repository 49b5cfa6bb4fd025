/** Byte buffers: the little-endian reads and writes the Mach-O editor uses. */
module Bytes {

  type Byte = x: int | 0 <= x < 256

  const TWO_32 := 0x1_0000_0000

  function Compose(b0: int, b1: int, b2: int, b3: int): int {
    b0 + 0x100 * (b1 + 0x100 * (b2 + 0x100 * b3))
  }

  function U32(s: seq<Byte>, off: nat): (r: nat)
    requires off + 4 <= |s|
    ensures r < TWO_32
  {
    Compose(s[off], s[off + 1], s[off + 2], s[off + 3])
  }

  function U64(s: seq<Byte>, off: nat): nat
    requires off + 8 <= |s|
  {
    U32(s, off) + TWO_32 * U32(s, off + 4)
  }

  function ByteAt(s: seq<Byte>, i: nat): int
    requires i < |s|
  {
    s[i]
  }

  /** Eight bytes, the least significant first. */
  lemma U64Bytes(s: seq<Byte>, off: nat)
    requires off + 8 <= |s|
    ensures U64(s, off) ==
              ByteAt(s, off) + 0x100 * ByteAt(s, off + 1) + 0x1_0000 * ByteAt(s, off + 2) +
                  0x100_0000 * ByteAt(s, off + 3)
              + 0x1_0000_0000 * ByteAt(s, off + 4) + 0x100_0000_0000 * ByteAt(s, off + 5)
              + 0x1_0000_0000_0000 * ByteAt(s, off + 6) + 0x100_0000_0000_0000 * ByteAt(s, off + 7)
  {}

  function LE32(v: nat): (bs: seq<Byte>)
    requires v < TWO_32
    ensures |bs| == 4
  {
    [v % 0x100, v / 0x100 % 0x100, v / 0x100 / 0x100 % 0x100, v / 0x100 / 0x100 / 0x100]
  }

  lemma LE32Read(v: nat, s: seq<Byte>, off: nat)
    requires v < TWO_32 && off + 4 <= |s| && s[off..off + 4] == LE32(v)
    ensures U32(s, off) == v
  {
    assert s[off] == LE32(v)[0] && s[off + 1] == LE32(v)[1] && s[off + 2] == LE32(v)[2] && s[off + 3] == LE32(v)[3];
  }

  lemma LE32Unique(s: seq<Byte>, off: nat)
    requires off + 4 <= |s|
    ensures LE32(U32(s, off)) == s[off..off + 4]
  {
    Digit(s[off], Compose(s[off + 1], s[off + 2], s[off + 3], 0));
    Digit(s[off + 1], Compose(s[off + 2], s[off + 3], 0, 0));
    Digit(s[off + 2], Compose(s[off + 3], 0, 0, 0));
  }

  lemma Digit(b: Byte, rest: int)
    ensures (b + 0x100 * rest) % 0x100 == b && (b + 0x100 * rest) / 0x100 == rest
  { }

  /** `s` with `bs` written over it from `off`; what does not fit is dropped, as `copy` does. */
  function Overwrite(s: seq<Byte>, off: nat, bs: seq<Byte>): (t: seq<Byte>)
    requires off <= |s|
    ensures |t| == |s|
  {
    if off + |bs| <= |s| then s[..off] + bs + s[off + |bs|..] else s[..off] + bs[..|s| - off]
  }

  function Zeros(n: nat): (z: seq<Byte>)
    ensures |z| == n && forall i | 0 <= i < n :: z[i] == 0
  {
    seq(n, _ => 0)
  }

  /** `subarray`: out-of-range ends are clamped. */
  function Subarray(s: seq<Byte>, from: nat, to: nat): seq<Byte>
    requires from <= to
  {
    if from >= |s| then [] else if to >= |s| then s[from..] else s[from..to]
  }

  predicate AllZero(s: seq<Byte>) {
    forall i | 0 <= i < |s| :: s[i] == 0
  }

  lemma AllZeroIs(s: seq<Byte>)
    requires AllZero(s)
    ensures s == Zeros(|s|)
  { }

  lemma SameU32(s: seq<Byte>, t: seq<Byte>, off: nat, off': nat)
    requires off + 4 <= |s| && off' + 4 <= |t| && s[off..off + 4] == t[off'..off' + 4]
    ensures U32(s, off) == U32(t, off')
  {
    var w := s[off..off + 4];
    assert w[0] == s[off] && w[1] == s[off + 1] && w[2] == s[off + 2] && w[3] == s[off + 3];
    assert w[0] == t[off'] && w[1] == t[off' + 1] && w[2] == t[off' + 2] && w[3] == t[off' + 3];
  }
}
