/** Machine integers and byte strings shared by the ucspi-tcp models. */
module Bytes {

  const TWO32: int := 0x1_0000_0000

  type byte = x: int | 0 <= x < 256
  type uint32 = x: int | 0 <= x < TWO32

  /** Unsigned 32-bit addition, wrapping as in C. */
  function Add32(x: uint32, y: uint32): uint32 {
    if x + y < TWO32 then x + y else x + y - TWO32
  }

  /** x << 3 on 32 bits. */
  function Shl3(x: uint32): (y: uint32)
    ensures 8 * x < TWO32 ==> y == 8 * x
    ensures y % 2048 == 8 * (x % 256)
  {
    8 * x % TWO32
  }

  lemma SliceOfSlice<T>(s: seq<T>, p: nat, n: nat, i: nat, j: nat)
    requires p + n <= |s| && i <= j <= n
    ensures s[p..p + n][i..j] == s[p + i..p + j]
  {
    var a, b := s[p..p + n][i..j], s[p + i..p + j];
    assert |a| == |b|;
    assert forall k | 0 <= k < |a| :: a[k] == b[k];
  }

  /** A slice that lies in one part of a concatenation. */
  lemma SliceOfConcat<T>(s: seq<T>, t: seq<T>, i: nat, j: nat)
    requires i <= j <= |s| + |t| && (j <= |s| || |s| <= i)
    ensures (s + t)[i..j] == if j <= |s| then s[i..j] else t[i - |s|..j - |s|]
  {
    var a := (s + t)[i..j];
    var b := if j <= |s| then s[i..j] else t[i - |s|..j - |s|];
    assert |a| == |b|;
    assert forall k | 0 <= k < |a| :: a[k] == b[k];
  }

  /** A slice of b, found again behind a when b begins what follows a. */
  lemma SliceBehind<T>(a: seq<T>, b: seq<T>, c: seq<T>, q: nat, n: nat)
    requires b <= c && q + n <= |b|
    ensures |a + c| >= |a| + q + n && (a + c)[|a| + q..|a| + q + n] == b[q..q + n]
  {
    var x, y := (a + c)[|a| + q..|a| + q + n], b[q..q + n];
    assert |x| == |y|;
    assert forall k | 0 <= k < |x| :: x[k] == y[k];
  }

  /** The four little-endian bytes that uint32_pack stores. */
  function Pack(u: nat): (s: seq<byte>)
    ensures |s| == 4
  {
    [u % 256, u / 0x100 % 256, u / 0x1_0000 % 256, u / 0x100_0000 % 256]
  }

  /** The number that uint32_unpack reads from four little-endian bytes. */
  function Unpack(s: seq<byte>): uint32
    requires |s| == 4
  {
    s[0] as int + 0x100 * s[1] as int + 0x1_0000 * s[2] as int + 0x100_0000 * s[3] as int
  }

  lemma UnpackPack(u: uint32)
    ensures Unpack(Pack(u)) == u
  {
    LowByte(u, u / 0x100);
    LowByte(u / 0x100, u / 0x1_0000);
    LowByte(u / 0x1_0000, u / 0x100_0000);
    Digits(u, u % 256, u / 0x100, u / 0x100 % 256, u / 0x1_0000, u / 0x1_0000 % 256, u / 0x100_0000);
    assert u / 0x100_0000 % 256 == u / 0x100_0000;
  }

  lemma LowByte(u: nat, high: nat)
    requires high == u / 256
    ensures u == u % 256 + 256 * high
  {
  }

  lemma Digits(u: int, a: int, u1: int, b: int, u2: int, c: int, d: int)
    requires u == a + 256 * u1 && u1 == b + 256 * u2 && u2 == c + 256 * d
    ensures u == a + 0x100 * b + 0x1_0000 * c + 0x100_0000 * d
  {
  }

  /** Reading two packed numbers back from eight bytes. */
  lemma UnpackPair(s: seq<byte>, u: uint32, v: uint32)
    requires s == Pack(u) + Pack(v)
    ensures |s| == 8 && Unpack(s[..4]) == u && Unpack(s[4..]) == v
  {
    assert s[..4] == Pack(u) && s[4..] == Pack(v);
    UnpackPack(u);
    UnpackPack(v);
  }
}
