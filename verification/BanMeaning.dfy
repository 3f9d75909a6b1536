/** What a ban file means to a client: which rows its lines are, which addresses a decoded
    network block covers, and which line therefore answers. */
module BanMeaning {
  import opened Wrappers
  import opened Bytes
  import opened BanLines
  import opened BanLookup
  import opened AddressBits

  // ----- networks

  /** How many bits an address of the block's family has. */
  function Width(c: Cidr): nat { if c.Cidr4? then 32 else 128 }

  /** The i-th bit of sixteen octets. */
  predicate Bit128(s: Octets, i: nat)
    requires i < 128
  {
    Bit8(s[i / 8], i % 8)
  }

  predicate NetworkBit(c: Cidr, i: nat)
    requires i < Width(c)
  {
    match c
    case Cidr4(addr, _) => Bit32(addr, i)
    case Cidr6(addr, _) => Bit128(addr, i)
  }

  predicate MaskBit(c: Cidr, i: nat)
    requires i < Width(c)
  {
    match c
    case Cidr4(_, mask) => Bit32(mask, i)
    case Cidr6(_, mask) => Bit128(mask, i)
  }

  predicate SameFamily(c: Cidr, at: Address) { (c.Cidr4? && at.Inet?) || (c.Cidr6? && at.Inet6?) }

  predicate AddressBit(c: Cidr, at: Address, i: nat)
    requires SameFamily(c, at) && i < Width(c)
  {
    match at
    case Inet(a) => Bit32(a, i)
    case Inet6(a) => Bit128(a, i)
  }

  /** A block of p leading bits: its mask has exactly those, and its address no others. */
  ghost predicate IsNetwork(c: Cidr, p: nat)
  {
    p <= Width(c) && forall i :: 0 <= i < Width(c) ==> (MaskBit(c, i) <==> i < p) && (NetworkBit(c, i) ==> i < p)
  }

  /** The address is of the block's family and has the same first p bits. */
  ghost predicate Shares(c: Cidr, at: Address, p: nat)
  {
    SameFamily(c, at) && forall i :: 0 <= i < p && i < Width(c) ==> (AddressBit(c, at, i) <==> NetworkBit(c, i))
  }

  predicate Kept128(a: Octets, mask: Octets, addr: Octets, i: nat)
    requires i < 128
  {
    Bit128(addr, i) <==> Bit128(a, i) && Bit128(mask, i)
  }

  /** Masking sixteen octets one by one. */
  lemma Masked128(a: Octets, mask: Octets, addr: Octets)
    ensures OctetsIn(a, mask, addr, 16) <==> forall i :: 0 <= i < 128 ==> Kept128(a, mask, addr, i)
  {
    OctetsMeaning(a, mask, addr, 16);
    forall k | 0 <= k < 16 { Masked8(a[k], mask[k], addr[k]); }
    if OctetsIn(a, mask, addr, 16) {
      forall i | 0 <= i < 128 ensures Kept128(a, mask, addr, i) {
        assert OctetIn(a[i / 8], mask[i / 8], addr[i / 8]);
      }
    }
    if forall i :: 0 <= i < 128 ==> Kept128(a, mask, addr, i) {
      forall k | 0 <= k < 16 ensures OctetIn(a[k], mask[k], addr[k]) {
        forall j | 0 <= j < 8 ensures Bit8(addr[k], j) <==> Bit8(a[k], j) && Bit8(mask[k], j) {
          Position(k, j);
          assert Kept128(a, mask, addr, 8 * k + j);
        }
      }
    }
  }

  lemma Position(k: nat, j: nat)
    requires j < 8
    ensures (8 * k + j) / 8 == k && (8 * k + j) % 8 == j
  {
  }

  predicate Kept(c: Cidr, at: Address, i: nat)
    requires SameFamily(c, at) && i < Width(c)
  {
    NetworkBit(c, i) <==> AddressBit(c, at, i) && MaskBit(c, i)
  }

  lemma Kept4(a: bv32, mask: bv32, addr: bv32, i: nat)
    requires i < 32
    ensures Kept(Cidr4(addr, mask), Inet(a), i) <==> Kept32(a, mask, addr, i)
  {
  }

  lemma CoversIs(a: bv32, mask: bv32, addr: bv32)
    ensures Covers(Cidr4(addr, mask), Inet(a)) <==> WordIn(a, mask, addr)
  {
  }

  lemma Covers4(a: bv32, mask: bv32, addr: bv32)
    ensures Covers(Cidr4(addr, mask), Inet(a)) <==> KeptBelow(a, mask, addr, 32)
  {
    CoversIs(a, mask, addr);
    MaskedBelow(a, mask, addr);
  }

  lemma CoversByBits(c: Cidr, at: Address)
    requires SameFamily(c, at)
    ensures Covers(c, at) <==> forall i :: 0 <= i < Width(c) ==> Kept(c, at, i)
  {
    match (c, at)
    case (Cidr4(addr, mask), Inet(a)) =>
      Covers4(a, mask, addr);
      KeptBelowMeans(a, mask, addr, 32);
      forall i | 0 <= i < 32 { Kept4(a, mask, addr, i); }
    case (Cidr6(addr, mask), Inet6(a)) =>
      Masked128(a, mask, addr);
      forall i | 0 <= i < 128 ensures Kept(c, at, i) <==> Kept128(a, mask, addr, i) {}
  }

  /** A block covers exactly the addresses of its family that share its leading bits. */
  lemma CoversMeans(c: Cidr, at: Address, p: nat)
    requires IsNetwork(c, p)
    ensures Covers(c, at) <==> Shares(c, at, p)
  {
    if SameFamily(c, at) {
      CoversByBits(c, at);
      forall i | 0 <= i < Width(c) ensures Kept(c, at, i) <==> i >= p || (AddressBit(c, at, i) <==> NetworkBit(c, i)) {
        assert (MaskBit(c, i) <==> i < p) && (NetworkBit(c, i) ==> i < p);
      }
    }
  }

  // ----- the answer of a file

  /** The block a line of a ban file stands for, when it is a prefix line that decodes. */
  function BlockOn(decode: Decoder, line: seq<byte>): Option<Cidr>
  {
    if LINE(line).Prefix? then decode(LINE(line).ban.key) else None
  }

  /** Every prefix line that decodes is a block of leading bits. */
  ghost predicate Networks(decode: Decoder, lines: seq<seq<byte>>)
  {
    forall i :: 0 <= i < |lines| && BlockOn(decode, lines[i]).Some? ==>
      exists p :: IsNetwork(BlockOn(decode, lines[i]).value, p)
  }

  /** The line is a block whose leading bits the address has. */
  ghost predicate Matches(decode: Decoder, line: seq<byte>, at: Address)
  {
    var b := BlockOn(decode, line);
    b.Some? && exists p :: IsNetwork(b.value, p) && Shares(b.value, at, p)
  }

  ghost predicate FirstMatch(decode: Decoder, lines: seq<seq<byte>>, at: Address, i: nat, action: seq<byte>)
  {
    && i < |lines| && Matches(decode, lines[i], at) && LINE(lines[i]).ban.action == action
    && forall j :: 0 <= j < i ==> !Matches(decode, lines[j], at)
  }

  lemma MatchCovers(decode: Decoder, line: seq<byte>, at: Address, p: nat)
    requires BlockOn(decode, line).Some? && IsNetwork(BlockOn(decode, line).value, p)
    ensures Matches(decode, line, at) <==> Covers(BlockOn(decode, line).value, at)
  {
    var b := BlockOn(decode, line).value;
    CoversMeans(b, at, p);
    if Matches(decode, line, at) {
      var q :| IsNetwork(b, q) && Shares(b, at, q);
      CoversMeans(b, at, q);
    }
  }

  lemma FirstMatchBehind(decode: Decoder, lines: seq<seq<byte>>, at: Address, i: nat, action: seq<byte>)
    requires lines != [] && !Matches(decode, lines[0], at) && FirstMatch(decode, lines[1..], at, i, action)
    ensures FirstMatch(decode, lines, at, i + 1, action)
  {
    forall j | 0 <= j < i + 1 ensures !Matches(decode, lines[j], at) {
      if j > 0 { assert !Matches(decode, lines[1..][j - 1], at); }
    }
  }

  lemma {:induction false} ScanPrefixMeans(decode: Decoder, lines: seq<seq<byte>>, at: Address)
    requires Networks(decode, lines)
    ensures ScanPrefix(decode, lines, at) == None <==> forall i :: 0 <= i < |lines| ==> !Matches(decode, lines[i], at)
    ensures ScanPrefix(decode, lines, at).Some? ==>
      exists i: nat :: FirstMatch(decode, lines, at, i, ScanPrefix(decode, lines, at).value)
  {
    if lines != [] {
      var rest := lines[1..];
      assert forall i :: 0 < i < |lines| ==> lines[i] == rest[i - 1];
      ScanPrefixMeans(decode, rest, at);
      if BlockOn(decode, lines[0]).Some? {
        var p :| IsNetwork(BlockOn(decode, lines[0]).value, p);
        MatchCovers(decode, lines[0], at, p);
      }
      if Matches(decode, lines[0], at) {
        assert FirstMatch(decode, lines, at, 0, ScanPrefix(decode, lines, at).value);
      } else if ScanPrefix(decode, rest, at).Some? {
        var i: nat :| FirstMatch(decode, rest, at, i, ScanPrefix(decode, rest, at).value);
        FirstMatchBehind(decode, lines, at, i, ScanPrefix(decode, rest, at).value);
      }
    }
  }

  /** A client that no line names is answered by the first network it lies in, and by none when
      it lies in none. */
  lemma NetworkAnswer(decode: Decoder, text: seq<byte>, c: Client, r: Option<seq<byte>>)
    requires Answers(decode, text, c, r) && Fits(c) && Networks(decode, Lines(text))
    requires !Carries(Lines(text), BothKey(c)) && !Carries(Lines(text), IpKey(c))
    requires c.ja4 != [] ==> !Carries(Lines(text), Ja4Key(c))
    ensures r == None <==> forall i :: 0 <= i < |Lines(text)| ==> !Matches(decode, Lines(text)[i], c.address)
    ensures r.Some? ==> exists i: nat :: FirstMatch(decode, Lines(text), c.address, i, r.value)
  {
    ScanPrefixMeans(decode, Lines(text), c.address);
  }

  // ----- a line as the daemon writes it

  /** A field without bars, line ends or NULs. */
  predicate Field(s: seq<byte>) { '|' as int !in s && '\n' as int !in s && 0 !in s }

  predicate Spacing(c: byte) { c == ' ' as int || c == '\t' as int || c == '\r' as int }

  /** "<address>|<fingerprint>|<source>|<action>". */
  function Written(ip: seq<byte>, ja4: seq<byte>, source: seq<byte>, action: seq<byte>): seq<byte>
  {
    ip + Ascii("|") + ja4 + Ascii("|") + source + Ascii("|") + action
  }

  /** Such a line is a row with that action: keyed by the address and the fingerprint around
      their bar, or a prefix when it has an address with a slash and no fingerprint. */
  lemma WrittenLine(ip: seq<byte>, ja4: seq<byte>, source: seq<byte>, action: seq<byte>)
    requires Field(ip) && Field(ja4) && Field(source) && Field(action)
    requires ip != [] ==> !Spacing(ip[0]) && ip[0] != '#' as int
    requires action != [] && !Spacing(action[|action| - 1])
    ensures LINE(Written(ip, ja4, source, action)) ==
      if '/' as int in ip && ja4 == [] then Prefix(Ban(ip, action)) else Exact(Ban(ip + Ascii("|") + ja4, action))
  {
    var t := Written(ip, ja4, source, action);
    var fields := [ip, ja4, source, action];
    Signs();
    FourFields(ip, ja4, source, action);
    Untrimmed(t);
    CStrFacts(action);
    CStrFacts(ip + [PIPE] + ja4);
    assert fields[3..] == [action];
  }

  lemma Signs()
    ensures Ascii("|") == [PIPE] && Ascii("deny") == DENY
    ensures '/' as int == SLASH && '#' as int == HASH && '\n' as int == NL
  {
  }

  lemma FourFields(a: seq<byte>, b: seq<byte>, c: seq<byte>, d: seq<byte>)
    requires PIPE !in a && PIPE !in b && PIPE !in c && PIPE !in d
    ensures Split(Written(a, b, c, d), PIPE) == [a, b, c, d]
  {
    Signs();
    var parts := [a, b, c, d];
    SplitJoin(parts, PIPE);
    JoinFour(a, b, c, d, PIPE);
    SevenPieces(a, b, c, d, [PIPE]);
  }

  lemma SevenPieces(a: seq<byte>, b: seq<byte>, c: seq<byte>, d: seq<byte>, bar: seq<byte>)
    ensures a + bar + (b + bar + (c + bar + d)) == a + bar + b + bar + c + bar + d
  {
  }

  lemma Untrimmed(t: seq<byte>)
    requires t != [] && !Spacing(t[0]) && !Spacing(t[|t| - 1])
    ensures Trim(t) == t
  {
  }

  // ----- the exact rows

  /** A client that the file names: by address and fingerprint before anything else, by
      fingerprint alone next, by address alone last, with the action of that row. */
  lemma NamedAnswer(decode: Decoder, text: seq<byte>, c: Client, r: Option<seq<byte>>, action: seq<byte>)
    requires Answers(decode, text, c, r) && Fits(c) && Consistent(Lines(text)) && 0 !in c.ip && 0 !in c.ja4
    ensures var lines, both, one, any := Lines(text), c.ip + Ascii("|") + c.ja4, Ascii("|") + c.ja4, c.ip + Ascii("|");
      && (Says(lines, both, action) ==> r == Some(action))
      && (!Carries(lines, both) && c.ja4 != [] && Says(lines, one, action) ==> r == Some(action))
      && (!Carries(lines, both) && (c.ja4 != [] ==> !Carries(lines, one)) && Says(lines, any, action) ==>
            r == Some(action))
  {
    Signs();
    CStrFacts(c.ip + [PIPE] + c.ja4);
    CStrFacts([PIPE] + c.ja4);
    CStrFacts(c.ip + [PIPE]);
    assert BothKey(c) == c.ip + [PIPE] + c.ja4 && Ja4Key(c) == [PIPE] + c.ja4 && IpKey(c) == c.ip + [PIPE];
  }
}
