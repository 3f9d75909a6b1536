/** How much work a digest proves.  The reference is arithmetic: a digest
    of n bytes, read as one big-endian integer, has 8n minus its bit length leading
    zero bits.  The C counter (byte by byte) and the browser's (word by word, with
    Math.clz32) are both proved against it. */
module LeadingZeros {
  import opened Bytes

  /** The number of bits of x written without leading zeros. */
  function BitLength(x: nat): (n: nat)
    ensures x == 0 <==> n == 0
  {
    if x == 0 then 0 else 1 + BitLength(x / 2)
  }

  function Pow2(k: nat): (p: nat)
    ensures p >= 1
  {
    if k == 0 then 1 else 2 * Pow2(k - 1)
  }

  lemma {:induction false} Pow2Double(k: nat)
    ensures Pow2(2 * k) == Pow2(k) * Pow2(k)
  {
    if k > 0 {
      Pow2Double(k - 1);
      assert Pow2(2 * k) == 4 * Pow2(2 * (k - 1));
    }
  }

  lemma Pow2Values()
    ensures Pow2(7) == 128 && Pow2(8) == 256 && Pow2(16) == 0x1_0000 && Pow2(32) == 0x1_0000_0000
  {
    assert Pow2(3) == 8;
    Pow2Double(4);
    Pow2Double(8);
    Pow2Double(16);
  }

  /** BitLength means what its name says. */
  lemma {:induction false} BitLengthBounds(x: nat, k: nat)
    ensures BitLength(x) <= k <==> x < Pow2(k)
  {
    if k > 0 && x > 0 {
      BitLengthBounds(x / 2, k - 1);
    }
  }

  function BigEndian(s: seq<byte>): nat
  {
    if s == [] then 0 else 256 * BigEndian(s[..|s| - 1]) + s[|s| - 1]
  }

  function LeadingZeroBits(s: seq<byte>): int
  {
    8 * |s| - BitLength(BigEndian(s))
  }

  // ----- appending low bits below a non-zero number lengthens it by their count

  lemma Doubled(x: nat, p: nat)
    requires x > 0 && p > 0
    ensures x * (2 * p) == 2 * (x * p) && x * p > 0
  {
  }

  lemma BitLengthDouble(m: nat, r: nat)
    requires m > 0
    ensures BitLength(2 * m + r) == 1 + BitLength(m + r / 2)
  {
    assert (2 * m + r) / 2 == m + r / 2;
  }

  lemma {:induction false} BitLengthShift(x: nat, k: nat, r: nat)
    requires x > 0 && r < Pow2(k)
    ensures BitLength(x * Pow2(k) + r) == BitLength(x) + k
  {
    if k > 0 {
      BitLengthShift(x, k - 1, r / 2);
      Doubled(x, Pow2(k - 1));
      BitLengthDouble(x * Pow2(k - 1), r);
    }
  }

  lemma {:induction false} BitLengthLeadByte(s: seq<byte>)
    requires |s| > 0 && s[0] > 0
    ensures BigEndian(s) > 0
    ensures BitLength(BigEndian(s)) == BitLength(s[0]) + 8 * (|s| - 1)
  {
    var k := |s| - 1;
    if k == 0 {
      assert s[..0] == [];
    } else {
      BitLengthLeadByte(s[..k]);
      Pow2Values();
      BitLengthShift(BigEndian(s[..k]), 8, s[k]);
    }
  }

  lemma {:induction false} BigEndianZeros(s: seq<byte>, i: nat)
    requires i <= |s| && forall j :: 0 <= j < i ==> s[j] == 0
    ensures BigEndian(s) == BigEndian(s[i..])
    decreases |s|
  {
    if i < |s| {
      var k := |s| - 1;
      BigEndianZeros(s[..k], i);
      assert s[i..][..|s[i..]| - 1] == s[..k][i..];
    } else if i > 0 {
      BigEndianZeros(s[..i - 1], i - 1);
      assert s[..i - 1][i - 1..] == [] && s[i..] == [];
    }
  }

  // ----- bv_leading_zero_bits

  lemma TopBit(v: nat, mask: nat)
    requires 0 < mask && v < 2 * mask
    ensures v / mask % 2 == 1 <==> v >= mask
  {
    var q, r := v / mask, v % mask;
    assert v == q * mask + r;
    assert q >= 2 ==> q * mask >= 2 * mask;
    assert q <= 0 ==> q * mask <= 0;
  }

  /** The inner mask loop: 0x80, 0x40, ... until a set bit of v. */
  method MaskLoop(v: byte) returns (bits: nat)
    requires v != 0
    ensures bits == 8 - BitLength(v)
  {
    bits := 0;
    var mask := 128;
    Pow2Values();
    while mask != 0
      invariant 0 <= bits <= 7 && mask == Pow2(7 - bits) && v < 2 * mask
      decreases 8 - bits
    {
      TopBit(v, mask);
      if v / mask % 2 == 1 {          // v & mask
        BitLengthBounds(v, 8 - bits);
        BitLengthBounds(v, 7 - bits);
        return;
      }
      bits, mask := bits + 1, mask / 2;
    }
  }

  method CountLeadingZeroBits(b: seq<byte>) returns (bits: int)
    ensures bits == LeadingZeroBits(b)
  {
    bits := 0;
    for i := 0 to |b|
      invariant bits == 8 * i
      invariant forall j :: 0 <= j < i ==> b[j] == 0
    {
      if b[i] != 0 {
        var inner := MaskLoop(b[i]);
        BigEndianZeros(b, i);
        BitLengthLeadByte(b[i..]);
        return bits + inner;
      }
      bits := bits + 8;
    }
    BigEndianZeros(b, |b|);
  }

  // ----- the browser's count over the eight state words

  function WordsValue(ws: seq<word>): nat
  {
    if ws == [] then 0 else 0x1_0000_0000 * WordsValue(ws[..|ws| - 1]) + ws[|ws| - 1]
  }

  lemma BigEndianAppend(s: seq<byte>, x: byte)
    ensures BigEndian(s + [x]) == 256 * BigEndian(s) + x
  {
    assert (s + [x])[..|s|] == s;
  }

  lemma BigEndianAppendWord(s: seq<byte>, w: word)
    ensures BigEndian(s + WordBytes(w)) == 0x1_0000_0000 * BigEndian(s) + w
  {
    var t := WordBytes(w);
    BigEndianAppend(s, t[0]);
    BigEndianAppend(s + [t[0]], t[1]);
    BigEndianAppend(s + [t[0]] + [t[1]], t[2]);
    BigEndianAppend(s + [t[0]] + [t[1]] + [t[2]], t[3]);
    assert s + t == s + [t[0]] + [t[1]] + [t[2]] + [t[3]];
  }

  lemma {:induction false} WordsBytesValue(ws: seq<word>)
    ensures BigEndian(WordsBytes(ws)) == WordsValue(ws)
  {
    if ws != [] {
      var k := |ws| - 1;
      WordsBytesValue(ws[..k]);
      BigEndianAppendWord(WordsBytes(ws[..k]), ws[k]);
    }
  }

  lemma BitLengthWord(x: nat, w: word)
    requires x > 0
    ensures BitLength(0x1_0000_0000 * x + w) == BitLength(x) + 32
  {
    Pow2Values();
    BitLengthShift(x, 32, w);
    assert x * 0x1_0000_0000 == 0x1_0000_0000 * x;
  }

  lemma {:induction false} WordsValueLead(ws: seq<word>, i: nat)
    requires i < |ws| && ws[i] > 0 && forall j :: 0 <= j < i ==> ws[j] == 0
    ensures WordsValue(ws) > 0
    ensures BitLength(WordsValue(ws)) == BitLength(ws[i]) + 32 * (|ws| - 1 - i)
    decreases |ws|
  {
    var k := |ws| - 1;
    if i == k {
      WordsValueZero(ws[..k]);
    } else {
      WordsValueLead(ws[..k], i);
      BitLengthWord(WordsValue(ws[..k]), ws[k]);
    }
  }

  lemma {:induction false} WordsValueZero(ws: seq<word>)
    requires forall j :: 0 <= j < |ws| ==> ws[j] == 0
    ensures WordsValue(ws) == 0
  {
    if ws != [] { WordsValueZero(ws[..|ws| - 1]); }
  }

  /** Math.clz32. */
  function Clz32(w: word): int
  {
    32 - BitLength(w)
  }

  /** The loop that ends powHasher: 32 per zero word, then clz32 of the first other. */
  method CountWordZeroBits(st: seq<word>) returns (bits: int)
    ensures bits == LeadingZeroBits(WordsBytes(st))
  {
    WordsBytesValue(st);
    bits := 0;
    for i := 0 to |st|
      invariant bits == 32 * i
      invariant forall j :: 0 <= j < i ==> st[j] == 0
    {
      if st[i] == 0 {
        bits := bits + 32;
      } else {
        WordsValueLead(st, i);
        return bits + Clz32(st[i]);
      }
    }
    WordsValueZero(st);
  }
}
