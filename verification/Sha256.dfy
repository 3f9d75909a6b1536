/** SHA-256 around its compression function: the padding of section 4.1 and the
    block chaining of section 6.2 of RFC 6234.  The compression function itself is a
    parameter, so everything proved here holds whatever it computes. */
module Sha256 {
  import opened Bytes

  type State = s: seq<word> | |s| == 8 witness [0, 0, 0, 0, 0, 0, 0, 0]
  type Block = b: seq<byte> | |b| == 64 witness seq(64, _ => 0)
  type Compression = (State, Block) -> State

  const INIT: State := [0x6a09e667, 0xbb67ae85, 0x3c6ef372, 0xa54ff53a,
                        0x510e527f, 0x9b05688c, 0x1f83d9ab, 0x5be0cd19]

  /** The first thirty-two fractional bits of the square root of p, whose whole part is w. */
  predicate RootBits(p: nat, w: nat, bits: word)
  {
    var m := w * 0x1_0000_0000 + bits;
    m * m <= p * 0x1_0000_0000_0000_0000 < (m + 1) * (m + 1)
  }

  /** The initial state is the one of section 6.1 of RFC 6234: the square roots of the first
      eight primes. */
  lemma InitIsRoots()
    ensures RootBits(2, 1, INIT[0]) && RootBits(3, 1, INIT[1]) && RootBits(5, 2, INIT[2]) && RootBits(7, 2, INIT[3])
    ensures RootBits(11, 3, INIT[4]) && RootBits(13, 3, INIT[5]) && RootBits(17, 4, INIT[6]) && RootBits(19, 4, INIT[7])
  {
  }

  /** Compress the blocks of `m` in turn, starting from `h`. */
  function Blocks(f: Compression, h: State, m: seq<byte>): State
    requires |m| % 64 == 0
    decreases |m|
  {
    if m == [] then h else Blocks(f, f(h, m[..64]), m[64..])
  }

  lemma {:induction false} BlocksConcat(f: Compression, h: State, a: seq<byte>, b: seq<byte>)
    requires |a| % 64 == 0 && |b| % 64 == 0
    ensures Blocks(f, h, a + b) == Blocks(f, Blocks(f, h, a), b)
    decreases |a|
  {
    if a == [] {
      assert a + b == b;
    } else {
      assert (a + b)[..64] == a[..64] && (a + b)[64..] == a[64..] + b;
      BlocksConcat(f, f(h, a[..64]), a[64..], b);
    }
  }

  lemma BlocksNext(f: Compression, h: State, m: seq<byte>, c: nat)
    requires c % 64 == 0 && c + 64 <= |m|
    ensures Blocks(f, h, m[..c + 64]) == f(Blocks(f, h, m[..c]), m[c..c + 64])
  {
    var b := m[c..c + 64];
    assert m[..c + 64] == m[..c] + b;
    BlocksConcat(f, h, m[..c], b);
    assert b[..64] == b && b[64..] == [];
  }

  /** Resuming from the state after a whole number of blocks is hashing the whole. */
  lemma BlocksResume(f: Compression, h: State, m: seq<byte>, c: nat)
    requires |m| % 64 == 0 && c % 64 == 0 && c <= |m|
    ensures Blocks(f, Blocks(f, h, m[..c]), m[c..]) == Blocks(f, h, m)
  {
    assert m == m[..c] + m[c..];
    BlocksConcat(f, h, m[..c], m[c..]);
  }

  function Zeros(k: nat): (z: seq<byte>)
    ensures |z| == k && forall i :: 0 <= i < k ==> z[i] == 0
  {
    seq(k, _ => 0)
  }

  /** The 64-bit big-endian message length. */
  function LengthField(bits: nat): (s: seq<byte>)
    requires bits < 0x1_0000_0000 * 0x1_0000_0000
    ensures |s| == 8
  {
    WordBytes(bits / 0x1_0000_0000) + WordBytes(bits % 0x1_0000_0000)
  }

  /** The number of zero bytes that brings a message of `len` bytes to a block boundary. */
  function PadZeros(len: nat): (k: nat)
    ensures k < 64 && (len + 1 + k + 8) % 64 == 0
  {
    var q, r := (len + 9) / 64, (len + 9) % 64;
    if r == 0 then 0 else
      assert len + 1 + (64 - r) + 8 == 64 * (q + 1);
      64 - r
  }

  lemma PadZerosUnique(len: nat, k: nat)
    requires k < 64 && (len + 1 + k + 8) % 64 == 0
    ensures PadZeros(len) == k
  {
    var m := PadZeros(len);
    SameBlock(len + 9 + m, len + 9 + k);
  }

  lemma SameBlock(a: nat, b: nat)
    requires a % 64 == 0 && b % 64 == 0 && -64 < a - b < 64
    ensures a == b
  {
    assert a == 64 * (a / 64) && b == 64 * (b / 64);
  }

  /** What is appended to a message of `len` bytes. */
  function PadBytes(len: nat): (s: seq<byte>)
    requires len < 0x2000_0000_0000_0000
    ensures (len + |s|) % 64 == 0
  {
    [0x80] + Zeros(PadZeros(len)) + LengthField(8 * len)
  }

  function Pad(m: seq<byte>): (s: seq<byte>)
    requires |m| < 0x2000_0000_0000_0000
    ensures |s| % 64 == 0
  {
    m + PadBytes(|m|)
  }

  /** Under 2^29 bytes the length field starts with four zero bytes, so the padding is
      0x80, zeros, and the length in 32 bits. */
  lemma ShortPadBytes(len: nat, k: nat)
    requires len < 0x2000_0000
    requires k < 64 && (len + 1 + k + 8) % 64 == 0
    ensures PadBytes(len) == [0x80] + Zeros(k + 4) + WordBytes(8 * len)
  {
    PadZerosUnique(len, k);
    ShortLength(8 * len);
    assert Zeros(k + 4) == Zeros(k) + Zeros(4);
    Regroup3([0x80], Zeros(k), Zeros(4), WordBytes(8 * len));
  }

  lemma ShortLength(bits: nat)
    requires bits < 0x1_0000_0000
    ensures LengthField(bits) == Zeros(4) + WordBytes(bits)
  {
    assert WordBytes(0) == Zeros(4);
  }

  lemma Regroup3(a: seq<byte>, b: seq<byte>, c: seq<byte>, d: seq<byte>)
    ensures a + b + (c + d) == a + (b + c) + d
  {
  }

  function Hash(f: Compression, m: seq<byte>): (d: seq<byte>)
    requires |m| < 0x2000_0000_0000_0000
    ensures |d| == 32
  {
    WordsBytes(Blocks(f, INIT, Pad(m)))
  }
}
