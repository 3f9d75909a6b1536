/** powHasher of challenge.js: a hasher that compresses the fixed part of the message
    once, and per nonce rewrites only the tail of one buffer it keeps. */
module PowHasher {
  import opened Bytes
  import opened LeadingZeros
  import opened Numerals
  import opened Sha256
  import opened Utf8

  /** The padding of section 4.1 of RFC 6234: one bit, fewest zeros, and the length in bits. */
  lemma PadMeans(m: seq<byte>)
    requires |m| < 0x2000_0000_0000_0000
    ensures var p := Pad(m);
      && |p| % 64 == 0 && |m| + 9 <= |p| < |m| + 9 + 64
      && p[..|m|] == m && p[|m|] == 0x80 && (forall i :: |m| < i < |p| - 8 ==> p[i] == 0)
      && BigEndian(p[|p| - 8..]) == 8 * |m|
  {
    var p, bits := Pad(m), 8 * |m|;
    var hi, lo := bits / 0x1_0000_0000, bits % 0x1_0000_0000;
    assert p[|p| - 8..] == WordBytes(hi) + WordBytes(lo) && [] + WordBytes(hi) == WordBytes(hi);
    BigEndianAppendWord([], hi);
    BigEndianAppendWord(WordBytes(hi), lo);
    assert bits == 0x1_0000_0000 * hi + lo;
  }

  /** The figure compared with the difficulty, by the book: hash the whole string. */
  function PowBits(f: Compression, message: seq<byte>): int
    requires |message| < 0x2000_0000_0000_0000
  {
    LeadingZeroBits(Hash(f, message))
  }

  /** The UTF-8 bytes of seed + ":" + n. */
  function PowMessage(seed: seq<unit>, n: nat): seq<byte>
  {
    Utf8Of(seed + [COLON] + Numeral(n, 10))
  }

  /** The colon keeps the nonce's digits clear of a dangling surrogate in the seed. */
  lemma PowMessageParts(seed: seq<unit>, n: nat)
    ensures PowMessage(seed, n) == Utf8Of(seed + [COLON]) + Numeral(n, 10)
  {
    var digits := Numeral(n, 10);
    ValueOfNumeral(n, 10);
    Utf8Concat(seed + [COLON], digits);
    Utf8Ascii(digits);
  }

  function Reverse(s: seq<byte>): (r: seq<byte>)
    ensures |r| == |s|
  {
    if s == [] then [] else Reverse(s[1..]) + [s[0]]
  }

  lemma {:induction false} ReverseSnoc(s: seq<byte>, x: byte)
    ensures Reverse(s + [x]) == [x] + Reverse(s)
  {
    if s != [] {
      assert (s + [x])[1..] == s[1..] + [x];
      ReverseSnoc(s[1..], x);
    }
  }

  /** Up to a whole number of blocks. */
  method RoundUp64(n: nat) returns (r: nat)
    ensures n <= r < n + 64 && r % 64 == 0
  {
    r := (n + 63) / 64 * 64;
  }

  /** sha256Compress: the state array is updated in place. */
  method Sha256Compress(f: Compression, h: array<word>, p: seq<byte>, off: nat)
    requires h.Length == 8 && off + 64 <= |p|
    modifies h
    ensures h[..] == f(old(h[..]), p[off..off + 64])
  {
    var r := f(h[..], p[off..off + 64]);
    forall i | 0 <= i < 8 { h[i] := r[i]; }
    assert h[..] == r;
  }

  /** Chain the compression over the first n bytes, one block at a time. */
  method CompressBlocks(f: Compression, h: array<word>, p: seq<byte>, n: nat)
    requires h.Length == 8 && n % 64 == 0 && n <= |p|
    modifies h
    ensures h[..] == Blocks(f, old(h[..]), p[..n])
  {
    var c := 0;
    while c < n
      invariant 0 <= c <= n && c % 64 == 0
      invariant h[..] == Blocks(f, old(h[..]), p[..c])
    {
      BlocksNext(f, old(h[..]), p, c);
      Sha256Compress(f, h, p, c);
      c := c + 64;
    }
  }

  method Midstate(f: Compression, p: seq<byte>, whole: nat) returns (mid: State)
    requires whole % 64 == 0 && whole <= |p|
    ensures mid == Blocks(f, INIT, p[..whole])
  {
    var h := new word[8](i requires 0 <= i < 8 => INIT[i]);
    assert h[..] == INIT;
    CompressBlocks(f, h, p, whole);
    mid := h[..];
  }

  /** The buffer every nonce is written into: it starts with `rest` and can hold the longest
      nonce and its padding behind it. */
  method NewBuffer(rest: seq<byte>) returns (b: array<byte>)
    ensures fresh(b) && b.Length % 64 == 0 && b.Length >= |rest| + 16 + 9
    ensures b[..|rest|] == rest
  {
    var size := RoundUp64(|rest| + 16 + 9);
    b := new byte[size];
    for i := 0 to |rest|
      invariant b[..i] == rest[..i]
    {
      b[i] := rest[i];
    }
  }

  /** The four length bytes that end the last block. */
  method WriteLength(buf: array<byte>, padded: nat, bitLen: word)
    requires 4 <= padded <= buf.Length
    modifies buf
    ensures buf[padded - 4..padded] == WordBytes(bitLen)
    ensures buf[..padded - 4] == old(buf[..padded - 4])
  {
    buf[padded - 4] := bitLen / 256 / 256 / 256;
    buf[padded - 3] := bitLen / 256 / 256 % 256;
    buf[padded - 2] := bitLen / 256 % 256;
    buf[padded - 1] := bitLen % 256;
  }

  method FinishBlock(buf: array<byte>, msgEnd: nat, bitLen: word) returns (padded: nat)
    requires buf.Length % 64 == 0 && msgEnd + 1 + 8 <= buf.Length
    modifies buf
    ensures padded % 64 == 0 && msgEnd + 1 + 8 <= padded < msgEnd + 1 + 8 + 64
    ensures padded <= buf.Length
    ensures buf[..msgEnd + 1] == old(buf[..msgEnd]) + [0x80]
    ensures forall i :: msgEnd + 1 <= i < padded - 4 ==> buf[i] == 0
    ensures buf[padded - 4..padded] == WordBytes(bitLen)
  {
    var p := msgEnd;
    buf[p] := 0x80;
    p := p + 1;
    padded := RoundUp64(p + 8);
    Fits(padded, buf.Length);
    ghost var head := buf[..p];
    for z := p to padded - 4
      invariant buf[..p] == head
      invariant forall i :: p <= i < z ==> buf[i] == 0
    {
      buf[z] := 0;
    }
    ghost var body := buf[..padded - 4];
    WriteLength(buf, padded, bitLen);
    assert buf[..p] == body[..p] == head;
    assert forall i :: p <= i < padded - 4 ==> buf[i] == body[i];
  }

  /** A multiple of 64 less than 64 above something below another multiple. */
  lemma Fits(r: nat, size: nat)
    requires r % 64 == 0 && size % 64 == 0 && r < size + 64
    ensures r <= size
  {
  }

  class Hasher {
    const f: Compression
    const pre: seq<byte>          // utf8Bytes(seed + ":")
    const full: nat               // the part of it that fills whole blocks
    const tail: nat               // the rest
    const mid: State              // the state after those blocks
    const buf: array<byte>
    const st: array<word>
    const digits: array<byte>

    /** What every call keeps: the prefix tail at the head of the buffer.  Nothing is
        said of the bytes behind it, which are whatever the last nonce left. */
    ghost predicate Valid()
      reads buf
    {
      && full % 64 == 0 && full + tail == |pre|
      && mid == Blocks(f, INIT, pre[..full])
      && buf.Length % 64 == 0 && buf.Length >= tail + 16 + 9
      && st.Length == 8 && digits.Length == 16 && buf != digits
      && buf[..tail] == pre[full..]
    }

    constructor (f: Compression, seed: seq<unit>)
      ensures Valid() && this.f == f && this.pre == Utf8Of(seed + [COLON])
      ensures fresh(buf) && fresh(st) && fresh(digits)
    {
      var p := Utf8Bytes(seed + [COLON]);
      var whole := |p| - |p| % 64;
      var h := Midstate(f, p, whole);
      var b := NewBuffer(p[whole..]);
      this.f, pre, full, tail, mid := f, p, whole, |p| - whole, h;
      buf, st, digits := b, new word[8], new byte[16];
    }

    /** The nonce's decimal digits, least significant first into `digits` and then back
        to front behind the prefix tail; returns the end of the message in `buf`. */
    method WriteDigits(n: nat) returns (p: nat)
      requires Valid() && n < 10_000_000_000_000_000
      modifies buf, digits
      ensures Valid()
      ensures p == tail + |Numeral(n, 10)| && |Numeral(n, 10)| <= 16
      ensures buf[..p] == pre[full..] + Numeral(n, 10)
    {
      var nd := FillDigits(digits, n);
      p := tail;
      ghost var rev := digits[..nd];
      ghost var d := nd;
      while nd > 0
        invariant 0 <= nd <= d <= 16 && p == tail + (d - nd)
        invariant digits[..d] == rev && d == |Reverse(rev)|
        invariant buf[..p] == pre[full..] + Reverse(rev)[..d - nd]
      {
        nd := nd - 1;
        ReverseAt(rev, d - 1 - nd);
        buf[p] := digits[nd];
        p := p + 1;
        assert buf[..p] == buf[..p - 1] + [buf[p - 1]];
      }
      assert buf[..tail] == buf[..p][..tail];
    }

    /** The 0x80, the zeros and the length: afterwards the head of the buffer is the end
        of the padded message, whatever the buffer held before. */
    method WritePadding(msgEnd: nat, ghost digitsText: seq<byte>) returns (padded: nat)
      requires Valid() && |digitsText| <= 16 && |pre + digitsText| < 0x2000_0000
      requires msgEnd == tail + |digitsText| && buf[..msgEnd] == pre[full..] + digitsText
      modifies buf
      ensures Valid() && padded <= buf.Length && padded % 64 == 0
      ensures full + padded == |Pad(pre + digitsText)|
      ensures buf[..padded] == Pad(pre + digitsText)[full..]
    {
      ghost var was := buf[..msgEnd];
      padded := FinishBlock(buf, msgEnd, (full + msgEnd) * 8);
      HeadStays(pre[full..], digitsText, was, buf[..], padded);
      MessageEnd(pre, full, digitsText);
      PadTail(pre + digitsText, full, msgEnd + 1, buf[..padded]);
    }

    /** One call of the hasher: whatever the calls before it left behind, it answers as if the
        whole string had been hashed afresh. */
    method BitsOf(n: nat) returns (bits: int)
      requires Valid() && n < 10_000_000_000_000_000 && |pre + Numeral(n, 10)| < 0x2000_0000
      modifies buf, st, digits
      ensures Valid()
      ensures |Numeral(n, 10)| <= 16
      ensures bits == PowBits(f, pre + Numeral(n, 10))
    {
      var p := WriteDigits(n);
      ghost var m := pre + Numeral(n, 10);
      var padded := WritePadding(p, Numeral(n, 10));
      assert Pad(m)[..full] == pre[..full];
      BlocksResume(f, INIT, Pad(m), full);
      bits := FinishHash(padded);
    }

    /** Compress the buffered blocks from the midstate and count. */
    method FinishHash(padded: nat) returns (bits: int)
      requires st.Length == 8 && padded <= buf.Length && padded % 64 == 0
      modifies st
      ensures bits == LeadingZeroBits(WordsBytes(Blocks(f, mid, buf[..padded])))
    {
      forall i | 0 <= i < 8 { st[i] := mid[i]; }
      assert st[..] == mid;
      CompressBlocks(f, st, buf[..], padded);
      assert buf[..][..padded] == buf[..padded];
      bits := CountWordZeroBits(st[..]);
    }
  }

  /** Digits of n, least significant first. */
  method FillDigits(digits: array<byte>, n: nat) returns (nd: nat)
    requires digits.Length == 16 && n < 10_000_000_000_000_000
    modifies digits
    ensures 1 <= nd <= 16 && nd == |Numeral(n, 10)|
    ensures Reverse(digits[..nd]) == Numeral(n, 10)
  {
    Pow10Values();
    NumeralLength(n, 10, 16);
    nd := 0;
    var m := n;
    if m == 0 {
      digits[0] := 48;
      nd := 1;
      return;
    }
    while m > 0
      invariant 0 <= nd <= 16 && m >= 0
      invariant HighDigits(n, 10) == HighDigits(m, 10) + Reverse(digits[..nd])
    {
      m := PutDigit(digits, nd, m, HighDigits(n, 10));
      nd := nd + 1;
    }
  }

  /** One turn of the loop: the low digit, and the number without it. */
  method PutDigit(digits: array<byte>, nd: nat, m0: nat, ghost all: seq<byte>) returns (m: nat)
    requires nd < digits.Length && m0 > 0 && all == HighDigits(m0, 10) + Reverse(digits[..nd])
    modifies digits
    ensures m < m0 && all == HighDigits(m, 10) + Reverse(digits[..nd + 1])
  {
    HighDigitsStep(m0, 10);
    var d: nat := m0 % 10;
    ReverseSnoc(digits[..nd], 48 + d);
    digits[nd] := 48 + d;
    assert digits[..nd + 1] == digits[..nd] + [48 + d];
    m := (m0 - d) / 10;
  }

  lemma {:induction false} ReverseAt(s: seq<byte>, k: nat)
    requires k < |s|
    ensures Reverse(s)[k] == s[|s| - 1 - k]
  {
    if k < |s| - 1 {
      ReverseAt(s[1..], k);
    }
  }

  /** The message's end is still in front of the padding. */
  lemma HeadStays(rest: seq<byte>, text: seq<byte>, was: seq<byte>, b: seq<byte>, padded: nat)
    requires was == rest + text && |was| + 1 <= padded <= |b| && b[..|was| + 1] == was + [0x80]
    ensures b[..|rest|] == rest && b[..padded][..|was| + 1] == was + [0x80]
  {
    assert b[..|rest|] == b[..|was| + 1][..|rest|];
  }

  lemma MessageEnd(pre: seq<byte>, full: nat, text: seq<byte>)
    requires full <= |pre|
    ensures (pre + text)[full..] == pre[full..] + text
  {
  }

  /** What WritePadding leaves at the head of the buffer is the tail of the padding. */
  lemma PadTail(m: seq<byte>, full: nat, p: nat, t: seq<byte>)
    requires |m| < 0x2000_0000 && full % 64 == 0 && full + p == |m| + 1
    requires |t| % 64 == 0 && 1 + 8 <= p + 8 <= |t| < p + 8 + 64
    requires t[..p] == m[full..] + [0x80]
    requires forall i :: p <= i < |t| - 4 ==> t[i] == 0
    requires t[|t| - 4..] == WordBytes(8 * |m|)
    ensures t == Pad(m)[full..] && full + |t| == |Pad(m)|
  {
    var k := |t| - p - 8;
    BlockSum(full, |t|, |m| + 1 + k + 8);
    ShortPadBytes(|m|, k);
    assert t[p..|t| - 4] == Zeros(k + 4);
    ThreeParts(t, p, |t| - 4);
    PadParts(m, full, PadBytes(|m|), k, WordBytes(8 * |m|));
  }

  lemma PadParts(m: seq<byte>, full: nat, pad: seq<byte>, k: nat, field: seq<byte>)
    requires full <= |m| && pad == [0x80] + Zeros(k + 4) + field
    ensures (m + pad)[full..] == m[full..] + [0x80] + Zeros(k + 4) + field
  {
  }

  lemma BlockSum(a: nat, b: nat, n: nat)
    requires a % 64 == 0 && b % 64 == 0 && n == a + b
    ensures n % 64 == 0
  {
  }

  lemma ThreeParts(t: seq<byte>, i: nat, j: nat)
    requires i <= j <= |t|
    ensures t == t[..i] + t[i..j] + t[j..]
  {
  }
}
