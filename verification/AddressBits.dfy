/** Bits of addresses, the most significant first. */
module AddressBits {
  predicate Bit8(o: bv8, j: nat)
  {
    match j
    case 0 => o & 0x80 != 0
    case 1 => o & 0x40 != 0
    case 2 => o & 0x20 != 0
    case 3 => o & 0x10 != 0
    case 4 => o & 0x08 != 0
    case 5 => o & 0x04 != 0
    case 6 => o & 0x02 != 0
    case _ => o & 0x01 != 0
  }

  predicate Bit32(a: bv32, i: nat)
  {
    match i
    case 0 => a & 0x8000_0000 != 0
    case 1 => a & 0x4000_0000 != 0
    case 2 => a & 0x2000_0000 != 0
    case 3 => a & 0x1000_0000 != 0
    case 4 => a & 0x0800_0000 != 0
    case 5 => a & 0x0400_0000 != 0
    case 6 => a & 0x0200_0000 != 0
    case 7 => a & 0x0100_0000 != 0
    case 8 => a & 0x0080_0000 != 0
    case 9 => a & 0x0040_0000 != 0
    case 10 => a & 0x0020_0000 != 0
    case 11 => a & 0x0010_0000 != 0
    case 12 => a & 0x0008_0000 != 0
    case 13 => a & 0x0004_0000 != 0
    case 14 => a & 0x0002_0000 != 0
    case 15 => a & 0x0001_0000 != 0
    case 16 => a & 0x0000_8000 != 0
    case 17 => a & 0x0000_4000 != 0
    case 18 => a & 0x0000_2000 != 0
    case 19 => a & 0x0000_1000 != 0
    case 20 => a & 0x0000_0800 != 0
    case 21 => a & 0x0000_0400 != 0
    case 22 => a & 0x0000_0200 != 0
    case 23 => a & 0x0000_0100 != 0
    case 24 => a & 0x0000_0080 != 0
    case 25 => a & 0x0000_0040 != 0
    case 26 => a & 0x0000_0020 != 0
    case 27 => a & 0x0000_0010 != 0
    case 28 => a & 0x0000_0008 != 0
    case 29 => a & 0x0000_0004 != 0
    case 30 => a & 0x0000_0002 != 0
    case _ => a & 0x0000_0001 != 0
  }

  lemma And8(a: bv8, b: bv8, j: nat)
    requires j < 8
    ensures Bit8(a & b, j) <==> Bit8(a, j) && Bit8(b, j)
  {
  }

  lemma Equal8(a: bv8, b: bv8)
    requires forall j :: 0 <= j < 8 ==> (Bit8(a, j) <==> Bit8(b, j))
    ensures a == b
  {
    assert (Bit8(a, 0) <==> Bit8(b, 0)) && (Bit8(a, 1) <==> Bit8(b, 1)) && (Bit8(a, 2) <==> Bit8(b, 2))
        && (Bit8(a, 3) <==> Bit8(b, 3)) && (Bit8(a, 4) <==> Bit8(b, 4)) && (Bit8(a, 5) <==> Bit8(b, 5))
        && (Bit8(a, 6) <==> Bit8(b, 6)) && (Bit8(a, 7) <==> Bit8(b, 7));
  }

  /** Masking an octet keeps the bits the mask has. */
  lemma Masked8(a: bv8, mask: bv8, addr: bv8)
    ensures a & mask == addr <==> forall j :: 0 <= j < 8 ==> (Bit8(addr, j) <==> Bit8(a, j) && Bit8(mask, j))
  {
    forall j | 0 <= j < 8 { And8(a, mask, j); }
    if forall j :: 0 <= j < 8 ==> (Bit8(addr, j) <==> Bit8(a, j) && Bit8(mask, j)) { Equal8(a & mask, addr); }
  }

  lemma And32(a: bv32, b: bv32, i: nat)
    requires i < 32
    ensures Bit32(a & b, i) <==> Bit32(a, i) && Bit32(b, i)
  {
  }

  lemma EqualPart0(a: bv32, b: bv32)
    requires forall i :: 0 <= i < 8 ==> (Bit32(a, i) <==> Bit32(b, i))
    ensures a & 0xFF00_0000 == b & 0xFF00_0000
  {
    assert (Bit32(a, 0) <==> Bit32(b, 0)) && (Bit32(a, 1) <==> Bit32(b, 1)) && (Bit32(a, 2) <==> Bit32(b, 2))
        && (Bit32(a, 3) <==> Bit32(b, 3)) && (Bit32(a, 4) <==> Bit32(b, 4)) && (Bit32(a, 5) <==> Bit32(b, 5))
        && (Bit32(a, 6) <==> Bit32(b, 6)) && (Bit32(a, 7) <==> Bit32(b, 7));
  }

  lemma EqualPart1(a: bv32, b: bv32)
    requires forall i :: 8 <= i < 16 ==> (Bit32(a, i) <==> Bit32(b, i))
    ensures a & 0x00FF_0000 == b & 0x00FF_0000
  {
    assert (Bit32(a, 8) <==> Bit32(b, 8)) && (Bit32(a, 9) <==> Bit32(b, 9)) && (Bit32(a, 10) <==> Bit32(b, 10))
        && (Bit32(a, 11) <==> Bit32(b, 11)) && (Bit32(a, 12) <==> Bit32(b, 12)) && (Bit32(a, 13) <==> Bit32(b, 13))
        && (Bit32(a, 14) <==> Bit32(b, 14)) && (Bit32(a, 15) <==> Bit32(b, 15));
  }

  lemma EqualPart2(a: bv32, b: bv32)
    requires forall i :: 16 <= i < 24 ==> (Bit32(a, i) <==> Bit32(b, i))
    ensures a & 0x0000_FF00 == b & 0x0000_FF00
  {
    assert (Bit32(a, 16) <==> Bit32(b, 16)) && (Bit32(a, 17) <==> Bit32(b, 17)) && (Bit32(a, 18) <==> Bit32(b, 18))
        && (Bit32(a, 19) <==> Bit32(b, 19)) && (Bit32(a, 20) <==> Bit32(b, 20)) && (Bit32(a, 21) <==> Bit32(b, 21))
        && (Bit32(a, 22) <==> Bit32(b, 22)) && (Bit32(a, 23) <==> Bit32(b, 23));
  }

  lemma EqualPart3(a: bv32, b: bv32)
    requires forall i :: 24 <= i < 32 ==> (Bit32(a, i) <==> Bit32(b, i))
    ensures a & 0x0000_00FF == b & 0x0000_00FF
  {
    assert (Bit32(a, 24) <==> Bit32(b, 24)) && (Bit32(a, 25) <==> Bit32(b, 25)) && (Bit32(a, 26) <==> Bit32(b, 26))
        && (Bit32(a, 27) <==> Bit32(b, 27)) && (Bit32(a, 28) <==> Bit32(b, 28)) && (Bit32(a, 29) <==> Bit32(b, 29))
        && (Bit32(a, 30) <==> Bit32(b, 30)) && (Bit32(a, 31) <==> Bit32(b, 31));
  }

  lemma JoinParts(a: bv32, b: bv32)
    requires a & 0xFF00_0000 == b & 0xFF00_0000 && a & 0x00FF_0000 == b & 0x00FF_0000
    requires a & 0x0000_FF00 == b & 0x0000_FF00 && a & 0x0000_00FF == b & 0x0000_00FF
    ensures a == b
  {
  }

  lemma Equal32(a: bv32, b: bv32)
    requires forall i :: 0 <= i < 32 ==> (Bit32(a, i) <==> Bit32(b, i))
    ensures a == b
  {
    EqualPart0(a, b);
    EqualPart1(a, b);
    EqualPart2(a, b);
    EqualPart3(a, b);
    JoinParts(a, b);
  }

  /** The bit survives the mask as the network has it. */
  predicate Kept32(a: bv32, mask: bv32, addr: bv32, i: nat) { Bit32(addr, i) <==> Bit32(a, i) && Bit32(mask, i) }

  lemma Masked32(a: bv32, mask: bv32, addr: bv32)
    ensures a & mask == addr <==> forall i :: 0 <= i < 32 ==> Kept32(a, mask, addr, i)
  {
    forall i | 0 <= i < 32 { And32(a, mask, i); }
    if forall i :: 0 <= i < 32 ==> Kept32(a, mask, addr, i) {
      forall i | 0 <= i < 32 ensures Bit32(a & mask, i) <==> Bit32(addr, i) { assert Kept32(a, mask, addr, i); }
      Equal32(a & mask, addr);
    }
  }

  predicate KeptBelow(a: bv32, mask: bv32, addr: bv32, n: nat)
  {
    n == 0 || (Kept32(a, mask, addr, n - 1) && KeptBelow(a, mask, addr, n - 1))
  }

  lemma {:induction false} KeptBelowMeans(a: bv32, mask: bv32, addr: bv32, n: nat)
    ensures KeptBelow(a, mask, addr, n) <==> forall i :: 0 <= i < n ==> Kept32(a, mask, addr, i)
  {
    if n > 0 { KeptBelowMeans(a, mask, addr, n - 1); }
  }

  lemma MaskedBelow(a: bv32, mask: bv32, addr: bv32)
    ensures a & mask == addr <==> KeptBelow(a, mask, addr, 32)
  {
    Masked32(a, mask, addr);
    KeptBelowMeans(a, mask, addr, 32);
  }
}
