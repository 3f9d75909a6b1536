/** The module's use of the ban list: loading a file into an index, and the four-level
    lookup of one client, against a scan of the file's lines. */
module BanLookup {
  import opened Wrappers
  import opened Bytes
  import opened BanLines
  import opened BanList
  import opened Sorting

  type Octets = s: seq<bv8> | |s| == 16 witness seq(16, _ => 0)

  /** ngx_cidr_t, by family. */
  datatype Cidr = Cidr4(addr: bv32, mask: bv32) | Cidr6(addr6: Octets, mask6: Octets)

  /** The client's socket address; Other stands for a missing one or another family. */
  datatype Address = Inet(a: bv32) | Inet6(a6: Octets) | Other

  /** ngx_ptocidr. */
  type Decoder = seq<byte> -> Option<Cidr>

  datatype Client = Client(ip: seq<byte>, ja4: seq<byte>, address: Address)

  predicate WordIn(a: bv32, mask: bv32, addr: bv32) { a & mask == addr }

  predicate OctetIn(a: bv8, mask: bv8, addr: bv8) { a & mask == addr }

  /** The first n octets agree under the mask. */
  predicate OctetsIn(a: Octets, mask: Octets, addr: Octets, n: nat)
    requires n <= 16
  {
    n == 0 || (OctetsIn(a, mask, addr, n - 1) && OctetIn(a[n - 1], mask[n - 1], addr[n - 1]))
  }

  lemma {:induction false} OctetsMeaning(a: Octets, mask: Octets, addr: Octets, n: nat)
    requires n <= 16
    ensures OctetsIn(a, mask, addr, n) <==> forall k :: 0 <= k < n ==> OctetIn(a[k], mask[k], addr[k])
  {
    if n > 0 { OctetsMeaning(a, mask, addr, n - 1); }
  }

  /** The address lies in the block. */
  predicate Covers(c: Cidr, at: Address)
  {
    match c
    case Cidr4(addr, mask) => at.Inet? && WordIn(at.a, mask, addr)
    case Cidr6(addr, mask) => at.Inet6? && OctetsIn(at.a6, mask, addr, 16)
  }

  // ----- the file, scanned line by line

  function Lines(text: seq<byte>): seq<seq<byte>> { Split(text, NL) }

  /** The first line that bans this key. */
  function ScanKey(lines: seq<seq<byte>>, key: seq<byte>): Option<seq<byte>>
  {
    if lines == [] then None
    else
      var line := LINE(lines[0]);
      if line.Exact? && line.ban.key == key then Some(line.ban.action) else ScanKey(lines[1..], key)
  }

  /** The first prefix line that decodes and covers the address. */
  function ScanPrefix(decode: Decoder, lines: seq<seq<byte>>, at: Address): Option<seq<byte>>
  {
    if lines == [] then None
    else
      var line := LINE(lines[0]);
      if line.Prefix? && decode(line.ban.key).Some? && Covers(decode(line.ban.key).value, at) then Some(line.ban.action)
      else ScanPrefix(decode, lines[1..], at)
  }

  function BothKey(c: Client): seq<byte> { CStr(c.ip + [PIPE] + c.ja4) }
  function Ja4Key(c: Client): seq<byte> { CStr([PIPE] + c.ja4) }
  function IpKey(c: Client): seq<byte> { CStr(c.ip + [PIPE]) }

  /** What the file says of a client: its address and fingerprint, its fingerprint, its
      address, then the prefixes. */
  function Scan(decode: Decoder, text: seq<byte>, c: Client): Option<seq<byte>>
  {
    var lines := Lines(text);
    if ScanKey(lines, BothKey(c)).Some? then ScanKey(lines, BothKey(c))
    else if c.ja4 != [] && ScanKey(lines, Ja4Key(c)).Some? then ScanKey(lines, Ja4Key(c))
    else if ScanKey(lines, IpKey(c)).Some? then ScanKey(lines, IpKey(c))
    else ScanPrefix(decode, lines, c.address)
  }

  /** Some line of the file bans exactly this key with exactly this action. */
  ghost predicate Says(lines: seq<seq<byte>>, key: seq<byte>, action: seq<byte>)
  {
    exists i :: 0 <= i < |lines| && LINE(lines[i]) == Exact(Ban(key, action))
  }

  ghost predicate Carries(lines: seq<seq<byte>>, key: seq<byte>)
  {
    exists action :: Says(lines, key, action)
  }

  ghost predicate Tells(lines: seq<seq<byte>>, key: seq<byte>, r: Option<seq<byte>>)
  {
    r.Some? && Says(lines, key, r.value)
  }

  /** The answer is one the file gives: at the first level at which the file knows the
      client, from a line of that level. */
  ghost predicate IsAnswer(decode: Decoder, text: seq<byte>, c: Client, r: Option<seq<byte>>)
  {
    var lines := Lines(text);
    if Carries(lines, BothKey(c)) then Tells(lines, BothKey(c), r)
    else if c.ja4 != [] && Carries(lines, Ja4Key(c)) then Tells(lines, Ja4Key(c), r)
    else if Carries(lines, IpKey(c)) then Tells(lines, IpKey(c), r)
    else r == ScanPrefix(decode, lines, c.address)
  }

  /** No key stands on two lines with different actions. */
  ghost predicate Consistent(lines: seq<seq<byte>>)
  {
    forall key, a, b :: Says(lines, key, a) && Says(lines, key, b) ==> a == b
  }

  lemma {:induction false} ScanKeyMeaning(lines: seq<seq<byte>>, key: seq<byte>)
    ensures ScanKey(lines, key).Some? <==> Carries(lines, key)
    ensures ScanKey(lines, key).Some? ==> Says(lines, key, ScanKey(lines, key).value)
  {
    if lines != [] {
      var line := LINE(lines[0]);
      if line.Exact? && line.ban.key == key {
        assert Says(lines, key, line.ban.action);
      } else {
        ScanKeyMeaning(lines[1..], key);
        forall a ensures Says(lines, key, a) <==> Says(lines[1..], key, a) { SaysRest(lines, key, a); }
      }
    }
  }

  lemma SaysRest(lines: seq<seq<byte>>, key: seq<byte>, a: seq<byte>)
    requires lines != [] && LINE(lines[0]) != Exact(Ban(key, a))
    ensures Says(lines, key, a) <==> Says(lines[1..], key, a)
  {
    if Says(lines, key, a) {
      var i :| 0 <= i < |lines| && LINE(lines[i]) == Exact(Ban(key, a));
      assert lines[1..][i - 1] == lines[i];
    }
    if Says(lines[1..], key, a) {
      var i :| 0 <= i < |lines| - 1 && LINE(lines[1..][i]) == Exact(Ban(key, a));
      assert lines[i + 1] == lines[1..][i];
    }
  }

  /** Every answer hits exactly when the scan does, and is the scan's own unless two lines
      contradict each other. */
  lemma AnswerIsScan(decode: Decoder, text: seq<byte>, c: Client, r: Option<seq<byte>>)
    requires IsAnswer(decode, text, c, r)
    ensures IsAnswer(decode, text, c, Scan(decode, text, c))
    ensures r.Some? <==> Scan(decode, text, c).Some?
    ensures Consistent(Lines(text)) ==> r == Scan(decode, text, c)
  {
    var lines := Lines(text);
    ScanKeyMeaning(lines, BothKey(c));
    ScanKeyMeaning(lines, Ja4Key(c));
    ScanKeyMeaning(lines, IpKey(c));
  }

  // ----- the index

  /** A prefix row that decoded. */
  datatype Block = Block(cidr: Cidr, action: seq<byte>)
  datatype CidrRow = CidrRow(cidr: Cidr, action: int)

  /** ngx_unmask_banlist_t without its identity: the buffer, the sorted rows and the
      decoded prefixes, whose texts lie in the buffer. */
  datatype List = List(bytes: seq<byte>, rows: seq<RowPtr>, cidrs: seq<CidrRow>)
  {
    function Bans(): seq<Ban> { BanList.Bans(bytes, rows) }
    function Blocks(): seq<Block> { BlocksAt(bytes, cidrs) }
  }

  function BlocksAt(b: seq<byte>, cidrs: seq<CidrRow>): (r: seq<Block>)
    ensures |r| == |cidrs| && forall i :: 0 <= i < |r| ==> r[i] == Block(cidrs[i].cidr, ActionAt(b, cidrs[i].action))
  {
    seq(|cidrs|, i requires 0 <= i < |cidrs| => Block(cidrs[i].cidr, ActionAt(b, cidrs[i].action)))
  }

  function BlockOf(decode: Decoder, ban: Ban): seq<Block>
  {
    match decode(ban.key)
    case None => []
    case Some(cidr) => [Block(cidr, ban.action)]
  }

  /** The prefix rows that decode, in file order. */
  function BlocksOf(decode: Decoder, bans: seq<Ban>): seq<Block>
  {
    if bans == [] then [] else BlocksOf(decode, bans[..|bans| - 1]) + BlockOf(decode, bans[|bans| - 1])
  }

  /** The index holds what the file says. */
  ghost predicate Represents(list: List, decode: Decoder, text: seq<byte>)
  {
    RowsIndex(text, list.Bans()) && list.Blocks() == BlocksOf(decode, Prefixes(text))
  }

  /** The part of ngx_unmask_load_banlist after the read: count, parse, decode. */
  method BuildList(text: seq<byte>, decode: Decoder) returns (list: List)
    ensures Represents(list, decode, text)
  {
    var buf := new byte[|text| + 1](i => if 0 <= i < |text| then text[i] else 0);
    assert buf[..|text|] == text;
    var nrows, nprefixes := Count(buf[..|text|]);
    var rows := new RowPtr[nrows](_ => RowPtr(0, -1));
    var prefixes := new PrefixPtr[nprefixes](_ => PrefixPtr(0, 0, -1));
    var ok, nr, np := Parse(buf, |text|, rows, prefixes);
    assert ok;
    var cidrs := DecodeRows(buf[..], prefixes[..np], decode, Prefixes(text));
    list := List(buf[..], rows[..nr], cidrs);
  }

  method DecodeRows(b: seq<byte>, ps: seq<PrefixPtr>, decode: Decoder, ghost bans: seq<Ban>)
    returns (cidrs: seq<CidrRow>)
    requires PrefixesRead(b, ps, bans)
    ensures BlocksAt(b, cidrs) == BlocksOf(decode, bans)
  {
    cidrs := [];
    for i := 0 to |ps|
      invariant BlocksAt(b, cidrs) == BlocksOf(decode, bans[..i])
    {
      assert PrefixReads(b, ps[i], bans[i]);
      assert bans[..i + 1][..i] == bans[..i];
      ghost var was := BlocksAt(b, cidrs);
      match decode(b[ps[i].prefix..ps[i].prefix + ps[i].len]) {
        case None =>
          assert BlockOf(decode, bans[i]) == [] && was + [] == was;
        case Some(cidr) =>
          cidrs := cidrs + [CidrRow(cidr, ps[i].action)];
          assert BlocksAt(b, cidrs) == was + [Block(cidr, bans[i].action)];
      }
    }
    assert bans[..|ps|] == bans;
  }

  // ----- ngx_unmask_banlist_cidr_lookup

  function FirstBlock(blocks: seq<Block>, at: Address): Option<seq<byte>>
  {
    if blocks == [] then None
    else if Covers(blocks[0].cidr, at) then Some(blocks[0].action)
    else FirstBlock(blocks[1..], at)
  }

  /** The byte loop of the IPv6 comparison. */
  method Masked(a: Octets, mask: Octets, addr: Octets) returns (within: bool)
    ensures within <==> OctetsIn(a, mask, addr, 16)
  {
    for n := 0 to 16
      invariant OctetsIn(a, mask, addr, n)
    {
      if !OctetIn(a[n], mask[n], addr[n]) {
        OctetsMeaning(a, mask, addr, 16);
        return false;
      }
    }
    within := true;
  }

  /** One row against the address: by family first. */
  method InBlock(cidr: Cidr, at: Address) returns (within: bool)
    ensures within <==> Covers(cidr, at)
  {
    within := false;
    if cidr.Cidr6? && at.Inet6? {
      within := Masked(at.a6, cidr.mask6, cidr.addr6);
    } else if cidr.Cidr4? && at.Inet? {
      within := WordIn(at.a, cidr.mask, cidr.addr);
    }
  }

  method CidrLookup(b: seq<byte>, cidrs: seq<CidrRow>, at: Address) returns (found: Option<seq<byte>>)
    ensures found == FirstBlock(BlocksAt(b, cidrs), at)
  {
    ghost var blocks := BlocksAt(b, cidrs);
    if at.Other? {
      NoBlock(blocks);
      return None;
    }
    var i := 0;
    assert blocks[0..] == blocks;
    while i < |cidrs|
      invariant 0 <= i <= |cidrs| && FirstBlock(blocks[i..], at) == FirstBlock(blocks, at)
    {
      assert blocks[i..][1..] == blocks[i + 1..];
      var within := InBlock(cidrs[i].cidr, at);
      if within { return Some(ActionAt(b, cidrs[i].action)); }
      i := i + 1;
    }
    found := None;
  }

  lemma {:induction false} NoBlock(blocks: seq<Block>)
    ensures FirstBlock(blocks, Other) == None
  {
    if blocks != [] { NoBlock(blocks[1..]); }
  }

  // ----- the index answers as the lines do

  lemma {:induction false} FirstBlockConcat(a: seq<Block>, b: seq<Block>, at: Address)
    ensures FirstBlock(a + b, at) == if FirstBlock(a, at).Some? then FirstBlock(a, at) else FirstBlock(b, at)
  {
    if a == [] {
      assert a + b == b;
    } else {
      assert (a + b)[1..] == a[1..] + b;
      FirstBlockConcat(a[1..], b, at);
    }
  }

  lemma {:induction false} BlocksConcat(decode: Decoder, a: seq<Ban>, b: seq<Ban>)
    ensures BlocksOf(decode, a + b) == BlocksOf(decode, a) + BlocksOf(decode, b)
  {
    if b == [] {
      assert a + b == a;
    } else {
      var i := |b| - 1;
      assert (a + b)[..|a + b| - 1] == a + b[..i];
      BlocksConcat(decode, a, b[..i]);
    }
  }

  lemma {:induction false} BlocksAnswer(decode: Decoder, lines: seq<seq<byte>>, at: Address)
    ensures FirstBlock(BlocksOf(decode, LinesPrefixes(LINE, lines)), at) == ScanPrefix(decode, lines, at)
  {
    if lines != [] {
      BlocksAnswer(decode, lines[1..], at);
      var line, rest := LINE(lines[0]), LinesPrefixes(LINE, lines[1..]);
      BlocksConcat(decode, PrefixBans(line), rest);
      FirstBlockConcat(BlocksOf(decode, PrefixBans(line)), BlocksOf(decode, rest), at);
      if line.Prefix? { OneBlock(decode, line.ban, at); }
    }
  }

  lemma OneBlock(decode: Decoder, ban: Ban, at: Address)
    ensures FirstBlock(BlocksOf(decode, [ban]), at)
         == if decode(ban.key).Some? && Covers(decode(ban.key).value, at) then Some(ban.action) else None
  {
    assert [ban][..0] == [] && [] + BlockOf(decode, ban) == BlockOf(decode, ban);
    assert BlocksOf(decode, [ban]) == BlockOf(decode, ban);
  }

  lemma {:induction false} RowsSay(lines: seq<seq<byte>>, key: seq<byte>, action: seq<byte>)
    ensures Ban(key, action) in LinesRows(LINE, lines) <==> Says(lines, key, action)
  {
    if lines != [] {
      RowsSay(lines[1..], key, action);
      if LINE(lines[0]) != Exact(Ban(key, action)) { SaysRest(lines, key, action); }
    }
  }

  lemma IndexSays(bans: seq<Ban>, text: seq<byte>, key: seq<byte>, action: seq<byte>)
    requires Permutes(bans, Rows(text))
    ensures Ban(key, action) in bans <==> Says(Lines(text), key, action)
  {
    RowsByLine(LINE, text);
    PermutesMember(bans, Rows(text), Ban(key, action));
    RowsSay(Lines(text), key, action);
  }

  /** A search of the index answers for the lines. */
  lemma FoundIsTold(list: List, decode: Decoder, text: seq<byte>, key: seq<byte>, found: Option<seq<byte>>)
    requires Represents(list, decode, text) && Finds(list.Bans(), key, found)
    ensures found.Some? <==> Carries(Lines(text), key)
    ensures found.Some? ==> Tells(Lines(text), key, found)
  {
    var lines, bans := Lines(text), list.Bans();
    forall a ensures Ban(key, a) in bans <==> Says(lines, key, a) { IndexSays(bans, text, key, a); }
    if Carries(lines, key) {
      var a :| Says(lines, key, a);
      var i :| 0 <= i < |bans| && bans[i] == Ban(key, a);
      assert HasKey(bans, key);
    }
  }

  // ----- ngx_unmask_ban_lookup_req, past the reload

  /** The client's texts fit the key buffer. */
  predicate Fits(c: Client) { 0 < |c.ip| <= 80 && |c.ip| + 1 + |c.ja4| + 1 <= 256 }

  /** What the module answers for a file: nothing for a client that does not fit. */
  ghost predicate Answers(decode: Decoder, text: seq<byte>, c: Client, r: Option<seq<byte>>)
  {
    if Fits(c) then IsAnswer(decode, text, c, r) else r == None
  }

  /** Copy a, a bar, b and a NUL over whatever the buffer held. */
  method WriteKey(key: array<byte>, a: seq<byte>, b: seq<byte>)
    requires |a| + 1 + |b| + 1 <= key.Length
    modifies key
    ensures CStrAt(key[..], 0) == CStr(a + [PIPE] + b)
  {
    var text := a + [PIPE] + b;
    forall i | 0 <= i < |a| { key[i] := a[i]; }
    key[|a|] := PIPE;
    forall i | 0 <= i < |b| { key[|a| + 1 + i] := b[i]; }
    key[|text|] := 0;
    CStrFacts(text);
    var k := |CStr(text)|;
    assert forall i :: 0 <= i < |text| ==> key[i] == text[i];
    assert key[..][0..] == key[..] && key[..k] == text[..k];
    CStrUnique(key[..], k);
  }

  /** The three exact levels. */
  method ExactAnswer(list: List, c: Client, ghost decode: Decoder, ghost text: seq<byte>)
    returns (act: Option<seq<byte>>)
    requires Represents(list, decode, text) && Fits(c)
    ensures act.Some? ==> IsAnswer(decode, text, c, act)
    ensures act.None? ==> forall r :: IsAnswer(decode, text, c, r) <==> r == ScanPrefix(decode, Lines(text), c.address)
  {
    var key := new byte[256];
    WriteKey(key, c.ip, c.ja4);
    act := Lookup(list.bytes, list.rows, CStrAt(key[..], 0));
    FoundIsTold(list, decode, text, BothKey(c), act);
    if act.None? && c.ja4 != [] {
      WriteKey(key, [], c.ja4);
      assert [] + [PIPE] + c.ja4 == [PIPE] + c.ja4;
      act := Lookup(list.bytes, list.rows, CStrAt(key[..], 0));
      FoundIsTold(list, decode, text, Ja4Key(c), act);
    }
    if act.None? {
      WriteKey(key, c.ip, []);
      assert c.ip + [PIPE] + [] == c.ip + [PIPE];
      act := Lookup(list.bytes, list.rows, CStrAt(key[..], 0));
      FoundIsTold(list, decode, text, IpKey(c), act);
    }
  }

  /** The lookup: guards, the exact levels, then the prefixes. */
  method Answer(list: List, c: Client, ghost decode: Decoder, ghost text: seq<byte>) returns (act: Option<seq<byte>>)
    requires Represents(list, decode, text)
    ensures Answers(decode, text, c, act)
  {
    RowsByLine(LINE, text);
    BlocksAnswer(decode, Lines(text), c.address);
    if |list.rows| == 0 && |list.cidrs| == 0 {
      FoundIsTold(list, decode, text, BothKey(c), None);
      FoundIsTold(list, decode, text, Ja4Key(c), None);
      FoundIsTold(list, decode, text, IpKey(c), None);
      return None;
    }
    if |c.ip| == 0 || |c.ip| > 80 { return None; }
    if |c.ip| + 1 + |c.ja4| + 1 > 256 { return None; }
    act := ExactAnswer(list, c, decode, text);
    if act.None? && |list.cidrs| > 0 {
      act := CidrLookup(list.bytes, list.cidrs, c.address);
    }
  }

  // ----- when the answer is the file's

  /** An address text: nothing in it that the line rules read. */
  predicate Plain(ip: seq<byte>)
  {
    && NL !in ip && PIPE !in ip && 0 !in ip && SLASH !in ip
    && (ip != [] ==> !Lead(ip[0]) && ip[0] != HASH)
  }

  lemma IpOnlyLine(ip: seq<byte>)
    requires Plain(ip)
    ensures LINE(ip + [PIPE]) == Exact(Ban(ip + [PIPE], DENY))
  {
    var t := ip + [PIPE];
    CStrFacts(t);
    assert Trim(t) == t;
    assert t[..|ip|] == ip;
    OneBarFields(t, |ip|);
    RowOfTwo(t, t[..|ip|], t[|ip| + 1..]);
  }

  /** A one-line file that bans the address. */
  lemma IpOnlyFile(decode: Decoder, c: Client)
    requires Plain(c.ip)
    ensures !IsAnswer(decode, c.ip + [PIPE], c, None)
  {
    var text := c.ip + [PIPE];
    assert NL !in text[..|text|];
    IndexOfUnique(text, NL, |text|);
    assert Lines(text) == [text];
    IpOnlyLine(c.ip);
    CStrFacts(text);
    assert LINE(Lines(text)[0]) == Exact(Ban(IpKey(c), DENY));
    assert Says(Lines(text), IpKey(c), DENY);
  }

  /** The module answers as the file says, on every file, exactly for the clients that fit;
      any other client escapes even a ban of its own address. */
  lemma FitsIsExact(decode: Decoder, c: Client)
    requires Plain(c.ip)
    ensures Fits(c) <==> forall text, r :: Answers(decode, text, c, r) ==> IsAnswer(decode, text, c, r)
  {
    if !Fits(c) {
      IpOnlyFile(decode, c);
      assert Answers(decode, c.ip + [PIPE], c, None);
    }
  }
}
