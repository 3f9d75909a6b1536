/** ja4_parser.c: the bounds-checked TLS ClientHello parser under the JA4 fingerprint. */
module Ja4Parser {
  import opened Wrappers
  import opened Bytes

  const MAX_CIPHERS := 1024
  const MAX_EXTENSIONS := 1024
  const MAX_SIG_ALGS := 256

  const ZERO: byte := 48

  // ----- 16-bit values

  function U16At(s: seq<byte>, i: nat): nat
    requires i + 2 <= |s|
  {
    256 * (s[i] as int) + s[i + 1]
  }

  /** The values RFC 8701 reserves: 0x0a0a, 0x1a1a, ..., 0xfafa. */
  predicate IsGrease(v: nat) { v < 0x1_0000 && v % 0x1010 == 0x0a0a }

  lemma GreaseValues(v: nat)
    ensures IsGrease(v) <==> v in {0x0a0a, 0x1a1a, 0x2a2a, 0x3a3a, 0x4a4a, 0x5a5a, 0x6a6a, 0x7a7a,
                                   0x8a8a, 0x9a9a, 0xaaaa, 0xbaba, 0xcaca, 0xdada, 0xeaea, 0xfafa}
  {
    if IsGrease(v) {
      var k := v / 0x1010;
      assert v == 0x1010 * k + 0x0a0a && k < 16;
    }
  }

  /** ja4_is_grease, which looks at the four nibbles. */
  method TestGrease(v: nat) returns (grease: bool)
    requires v < 0x1_0000
    ensures grease <==> IsGrease(v)
    ensures grease <==> exists k: nat :: k < 16 && v == 0x0a0a + k * 0x1010
  {
    grease := v % 16 == 10 && v / 16 / 16 % 16 == 10 && v / 16 % 16 == v / 16 / 16 / 16 % 16;
    Nibbles(v);
    Reserved(v);
  }

  lemma Nibbles(v: nat)
    requires v < 0x1_0000
    ensures v % 16 == 10 && v / 16 / 16 % 16 == 10 && v / 16 % 16 == v / 16 / 16 / 16 % 16
       <==> exists k: nat :: k < 16 && v == 0x0a0a + k * 0x1010
  {
    var a, b := v / 16, v / 16 / 16;
    var k := b / 16;
    assert v == a * 16 + v % 16 && a == b * 16 + a % 16 && b == k * 16 + b % 16;
    if v % 16 == 10 && b % 16 == 10 && a % 16 == k % 16 {
      assert v == 0x0a0a + k * 0x1010;
    }
    forall j: nat | j < 16 && v == 0x0a0a + j * 0x1010 ensures v % 16 == 10 && b % 16 == 10 && a % 16 == k % 16 {
      assert a == 160 + 257 * j && b == 10 + 16 * j;
    }
  }

  lemma Reserved(v: nat)
    ensures IsGrease(v) <==> exists k: nat :: k < 16 && v == 0x0a0a + k * 0x1010
  {
    if IsGrease(v) { assert v == 0x0a0a + (v / 0x1010) * 0x1010; }
    forall k: nat | k < 16 && v == 0x0a0a + k * 0x1010 ensures IsGrease(v) {
      assert v / 0x1010 == k;
    }
  }

  /** The 16-bit values in a byte string, a trailing odd byte ignored. */
  function U16s(s: seq<byte>): seq<nat>
  {
    if |s| < 2 then [] else [U16At(s, 0)] + U16s(s[2..])
  }

  function NonGrease(vs: seq<nat>): (r: seq<nat>)
    ensures |r| <= |vs|
  {
    if vs == [] then []
    else if IsGrease(vs[0]) then NonGrease(vs[1..])
    else [vs[0]] + NonGrease(vs[1..])
  }

  lemma {:induction false} NonGreaseConcat(a: seq<nat>, b: seq<nat>)
    ensures NonGrease(a + b) == NonGrease(a) + NonGrease(b)
  {
    if a == [] {
      assert a + b == b;
    } else {
      assert (a + b)[1..] == a[1..] + b;
      NonGreaseConcat(a[1..], b);
    }
  }

  function MaxOf(vs: seq<nat>): (m: nat)
    ensures forall i :: 0 <= i < |vs| ==> vs[i] <= m
    ensures vs == [] ==> m == 0
    ensures vs != [] ==> m in vs
  {
    if vs == [] then 0
    else
      var m := MaxOf(vs[1..]);
      if vs[0] > m then vs[0] else m
  }

  // ----- the struct

  /** A fixed-capacity array with its fill count, as ja4_parsed_t holds three of.  The
      count is a plain int, as the ALPN characters below are: a corrupt struct may hold any. */
  datatype Buf = Buf(data: seq<nat>, n: int)
  {
    /** ja4_clampi(n, capacity). */
    function Count(): (c: nat)
      ensures c <= |data|
    {
      if n < 0 then 0 else if n > |data| then |data| else n
    }

    function Items(): seq<nat> { data[..Count()] }

    /** Append while there is room; a full array drops the value. */
    function Push(v: nat): (b: Buf)
      requires 0 <= n <= |data|
      ensures |b.data| == |data| && 0 <= b.n <= |b.data|
      ensures b.Items() == Take(Items() + [v], |data|)
    {
      if n < |data| then Buf(data[n := v], n + 1) else this
    }
  }

  datatype Parsed = Parsed(legacyVersion: nat, supportedMax: nat, ciphers: Buf, extensions: Buf,
                           sigAlgs: Buf, hasSigAlgs: bool, sni: bool, alpnFirst: int, alpnLast: int)
  {
    /** What the struct says, apart from memory past the counts. */
    function View(): Facts
    {
      Facts(legacyVersion, supportedMax, ciphers.Items(), extensions.Items(), sigAlgs.Items(),
            hasSigAlgs, sni, alpnFirst, alpnLast)
    }

    ghost predicate Sound()
    {
      && 0 <= ciphers.n <= |ciphers.data| == MAX_CIPHERS
      && 0 <= extensions.n <= |extensions.data| == MAX_EXTENSIONS
      && 0 <= sigAlgs.n <= |sigAlgs.data| == MAX_SIG_ALGS
    }
  }

  datatype Facts = Facts(legacyVersion: nat, supportedMax: nat, ciphers: seq<nat>, extensions: seq<nat>,
                         sigAlgs: seq<nat>, hasSigAlgs: bool, sni: bool, alpnFirst: int, alpnLast: int)

  // ----- the grammar, as a function of the bytes

  /** A vector with a one-byte (resp. two-byte) length, and what follows it. */
  function Vec8(s: seq<byte>): Option<(seq<byte>, seq<byte>)>
  {
    if |s| < 1 || |s| - 1 < s[0] then None else Some((s[1..1 + s[0]], s[1 + s[0]..]))
  }

  function Vec16(s: seq<byte>): Option<(seq<byte>, seq<byte>)>
  {
    if |s| < 2 || |s| - 2 < U16At(s, 0) then None
    else Some((s[2..2 + U16At(s, 0)], s[2 + U16At(s, 0)..]))
  }

  predicate IsAlnum(c: int) { 48 <= c <= 57 || 65 <= c <= 90 || 97 <= c <= 122 }

  function HexChar(d: int): (c: byte)
    requires 0 <= d < 16
    ensures IsAlnum(c)
  {
    if d < 10 then 48 + d else 87 + d
  }

  /** The two characters JA4 takes from an ALPN protocol name: its end bytes when both are
      alphanumeric, else the first's high nibble and the last's low one in hex. */
  function AlpnEnds(name: seq<byte>): (r: (int, int))
    requires name != []
    ensures IsAlnum(r.0) && IsAlnum(r.1)
  {
    var fb, lb := name[0], name[|name| - 1];
    if IsAlnum(fb) && IsAlnum(lb) then (fb, lb) else (HexChar(fb / 16), HexChar(lb % 16))
  }

  /** The first protocol name in an ALPN extension body, when there is one. */
  function AlpnName(body: seq<byte>): Option<seq<byte>>
  {
    if |body| < 3 || U16At(body, 0) + 2 > |body| || U16At(body, 0) < 1
       || body[2] < 1 || body[2] + 3 > |body| then None
    else Some(body[3..3 + body[2]])
  }

  function SigAlgsIn(body: seq<byte>): seq<nat>
  {
    if |body| >= 2 && U16At(body, 0) + 2 <= |body| && U16At(body, 0) % 2 == 0
    then NonGrease(U16s(body[2..2 + U16At(body, 0)])) else []
  }

  function VersionsIn(body: seq<byte>): Option<nat>
  {
    if |body| >= 1 && body[0] + 1 <= |body| && body[0] % 2 == 0
    then Some(MaxOf(NonGrease(U16s(body[1..1 + body[0]])))) else None
  }

  /** What an extension's body contributes. */
  function ExtEffect(f: Facts, etype: nat, body: seq<byte>): Facts
  {
    if etype == 0 then f.(sni := true)
    else if etype == 13 then
      f.(hasSigAlgs := true, sigAlgs := Take(f.sigAlgs + SigAlgsIn(body), MAX_SIG_ALGS))
    else if etype == 16 then
      (match AlpnName(body)
       case None => f
       case Some(name) => f.(alpnFirst := AlpnEnds(name).0, alpnLast := AlpnEnds(name).1))
    else if etype == 43 then
      (match VersionsIn(body)
       case None => f
       case Some(v) => f.(supportedMax := v))
    else f
  }

  /** The effect of one extension: its type is listed, then its body read. */
  function ExtStep(f: Facts, etype: nat, body: seq<byte>): Facts
  {
    ExtEffect(f.(extensions := Take(f.extensions + NonGrease([etype]), MAX_EXTENSIONS)), etype, body)
  }

  type Step = (Facts, nat, seq<byte>) -> Facts

  /** Apply a step to each extension of a block; None when one overruns it.  Up to three
      trailing bytes are ignored. */
  function Walk(step: Step, s: seq<byte>, f: Facts): Option<Facts>
    decreases |s|
  {
    if |s| < 4 then Some(f)
    else if |s| - 4 < U16At(s, 2) then None
    else
      var n := 4 + U16At(s, 2);
      Walk(step, s[n..], step(f, U16At(s, 0), s[4..n]))
  }

  const STEP: Step := (f: Facts, etype: nat, body: seq<byte>) => ExtStep(f, etype, body)

  /** The same as a property: a proof about a walk need not look into its steps. */
  ghost predicate IsStep(step: Step)
  {
    forall f, etype, body {:trigger ExtStep(f, etype, body)} :: step(f, etype, body) == ExtStep(f, etype, body)
  }

  /** What follows the cipher suites: compression methods, then optional extensions. */
  function ParseTail(r: seq<byte>, f: Facts): Option<Facts>
  {
    var (_, r1) :- Vec8(r);
    if r1 == [] then Some(f)
    else
      var (exts, _) :- Vec16(r1);
      Walk(STEP, exts, f)
  }

  /** The cipher suites: a vector of an even number of bytes. */
  function CipherVec(r: seq<byte>): Option<(seq<nat>, seq<byte>)>
  {
    var (cs, rest) :- Vec16(r);
    if |cs| % 2 != 0 then None else Some((U16s(cs), rest))
  }

  function BaseFacts(version: nat, ciphers: seq<nat>): Facts
  {
    Facts(version, 0, Take(NonGrease(ciphers), MAX_CIPHERS), [], [], false, false, ZERO, ZERO)
  }

  /** Version, random, session id and cipher suites, and what follows them. */
  function ParseHead(b: seq<byte>): Option<(Facts, seq<byte>)>
  {
    if |b| < 34 then None
    else
      var (_, r1) :- Vec8(b[34..]);
      var (ciphers, r2) :- CipherVec(r1);
      Some((BaseFacts(U16At(b, 0), ciphers), r2))
  }

  function ParseBody(b: seq<byte>): Option<Facts>
  {
    var (f, r) :- ParseHead(b);
    ParseTail(r, f)
  }

  function ParseHello(msg: seq<byte>): Option<Facts>
  {
    if |msg| < 4 || msg[0] != 1 then None
    else
      var n := 65536 * (msg[1] as int) + 256 * (msg[2] as int) + msg[3];
      if n + 4 > |msg| then None else ParseBody(msg[4..4 + n])
  }

  // ----- the parser: a cursor into the message

  /** Read pairs from msg[p..end), drop GREASE, push the rest. */
  method ReadList(msg: seq<byte>, p: nat, end: nat, list: Buf) returns (r: Buf)
    requires p <= end <= |msg| && 0 <= list.n <= |list.data|
    ensures 0 <= r.n <= |r.data| == |list.data|
    ensures r.Items() == Take(list.Items() + NonGrease(U16s(msg[p..end])), |list.data|)
  {
    r := list;
    var cp := p;
    ghost var cap, rest := |list.data|, NonGrease(U16s(msg[p..end]));
    ghost var goal := Take(list.Items() + rest, cap);
    while cp + 2 <= end
      invariant p <= cp <= end && 0 <= r.n <= |r.data| == cap
      invariant rest == NonGrease(U16s(msg[cp..end])) && Take(r.Items() + rest, cap) == goal
      decreases end - cp
    {
      var c := U16At(msg, cp);
      assert msg[cp..end][2..] == msg[cp + 2..end];
      var grease := TestGrease(c);
      if !grease {
        TakePush(r.Items(), c, rest[1..], cap);
        assert rest == [c] + rest[1..];
        rest := rest[1..];
        r := r.Push(c);
      }
      cp := cp + 2;
    }
    assert rest == [] && r.Items() + rest == r.Items();
  }

  lemma TakePush(items: seq<nat>, c: nat, rest: seq<nat>, cap: nat)
    ensures Take(Take(items + [c], cap) + rest, cap) == Take(items + ([c] + rest), cap)
  {
    assert items + [c] + rest == items + ([c] + rest);
  }

  /** The largest value that is not GREASE, 0 without one. */
  function MaxIn(s: seq<byte>): nat { MaxOf(NonGrease(U16s(s))) }

  function Larger(a: nat, b: nat): nat { if a > b then a else b }

  lemma MaxInStep(msg: seq<byte>, sp: nat, end: nat)
    requires sp + 2 <= end <= |msg|
    ensures var v := U16At(msg, sp);
      MaxIn(msg[sp..end]) == Larger(if IsGrease(v) then 0 else v, MaxIn(msg[sp + 2..end]))
  {
    var s := msg[sp..end];
    assert s[2..] == msg[sp + 2..end];
    var rest := U16s(s[2..]);
    assert U16s(s) == [U16At(msg, sp)] + rest;
    assert U16s(s)[1..] == rest;
    var v := U16At(msg, sp);
    if !IsGrease(v) { assert ([v] + NonGrease(rest))[1..] == NonGrease(rest); }
  }

  method MaxVersion(msg: seq<byte>, p: nat, end: nat) returns (max: nat)
    requires p <= end <= |msg|
    ensures max == MaxIn(msg[p..end])
  {
    max := 0;
    var sp := p;
    ghost var result := MaxIn(msg[p..end]);
    while sp + 2 <= end
      invariant p <= sp <= end && result == Larger(max, MaxIn(msg[sp..end]))
      decreases end - sp
    {
      MaxInStep(msg, sp, end);
      var sv := U16At(msg, sp);
      var grease := TestGrease(sv);
      if !grease && sv > max { max := sv; }
      sp := sp + 2;
    }
    MaxInShort(msg[sp..end]);
  }

  lemma MaxInShort(s: seq<byte>)
    requires |s| < 2
    ensures MaxIn(s) == 0
  {
  }

  method ParseExtension(msg: seq<byte>, etype: nat, p: nat, elen: nat, parsed: Parsed, ghost step: Step)
    returns (out: Parsed)
    requires p + elen <= |msg| && parsed.Sound() && etype < 0x1_0000 && IsStep(step)
    ensures out.Sound() && out.View() == step(parsed.View(), etype, msg[p..p + elen])
  {
    assert step(parsed.View(), etype, msg[p..p + elen]) == ExtStep(parsed.View(), etype, msg[p..p + elen]);
    var exts := parsed.extensions;
    var grease := TestGrease(etype);
    if !grease {
      exts := exts.Push(etype);
    }
    assert exts.Items() == Take(parsed.extensions.Items() + NonGrease([etype]), MAX_EXTENSIONS);
    out := parsed.(extensions := exts);
    out := ParseExtensionBody(msg, etype, p, elen, out);
  }

  /** The switch on the extension type. */
  method ParseExtensionBody(msg: seq<byte>, etype: nat, p: nat, elen: nat, parsed: Parsed) returns (out: Parsed)
    requires p + elen <= |msg| && parsed.Sound()
    ensures out.Sound() && out.View() == ExtEffect(parsed.View(), etype, msg[p..p + elen])
  {
    out := parsed;
    if etype == 0 {
      out := out.(sni := true);
    } else if etype == 13 {
      var sigs := ParseSigAlgs(msg, p, elen, out.sigAlgs);
      out := out.(hasSigAlgs := true, sigAlgs := sigs);
    } else if etype == 16 {
      var first, last := ParseAlpn(msg, p, elen, out.alpnFirst, out.alpnLast);
      out := out.(alpnFirst := first, alpnLast := last);
    } else if etype == 43 {
      var max := ParseVersions(msg, p, elen, out.supportedMax);
      out := out.(supportedMax := max);
    }
  }

  method ParseVersions(msg: seq<byte>, p: nat, elen: nat, max0: nat) returns (max: nat)
    requires p + elen <= |msg|
    ensures match VersionsIn(msg[p..p + elen])
            case None => max == max0
            case Some(v) => max == v
  {
    max := max0;
    if elen >= 1 {
      var n := msg[p];
      if n + 1 <= elen && n % 2 == 0 {
        SubSlice(msg, p, p + elen, 1, 1 + n);
        max := MaxVersion(msg, p + 1, p + 1 + n);
      }
    }
  }

  /** The list of a type-13 body that stands in a message. */
  lemma SigAlgsAt(msg: seq<byte>, p: nat, elen: nat)
    requires p + elen <= |msg|
    ensures SigAlgsIn(msg[p..p + elen])
         == if elen >= 2 && U16At(msg, p) + 2 <= elen && U16At(msg, p) % 2 == 0
            then NonGrease(U16s(msg[p + 2..p + 2 + U16At(msg, p)])) else []
  {
    if elen >= 2 {
      var n := U16At(msg, p);
      assert U16At(msg[p..p + elen], 0) == n;
      if n + 2 <= elen { SubSlice(msg, p, p + elen, 2, 2 + n); }
    }
  }

  method ParseSigAlgs(msg: seq<byte>, p: nat, elen: nat, list: Buf) returns (r: Buf)
    requires p + elen <= |msg| && 0 <= list.n <= |list.data|
    ensures 0 <= r.n <= |r.data| == |list.data|
    ensures r.Items() == Take(list.Items() + SigAlgsIn(msg[p..p + elen]), |list.data|)
  {
    r := list;
    SigAlgsAt(msg, p, elen);
    if elen >= 2 {
      var n := U16At(msg, p);
      if n + 2 <= elen && n % 2 == 0 {
        r := ReadList(msg, p + 2, p + 2 + n, list);
        return;
      }
    }
    assert list.Items() + [] == list.Items();
  }

  method ParseAlpn(msg: seq<byte>, p: nat, elen: nat, first0: int, last0: int) returns (first: int, last: int)
    requires p + elen <= |msg|
    ensures match AlpnName(msg[p..p + elen])
            case None => first == first0 && last == last0
            case Some(name) => (first, last) == AlpnEnds(name)
  {
    first, last := first0, last0;
    if elen >= 3 {
      var listLen := U16At(msg, p);
      if listLen + 2 <= elen && listLen >= 1 {
        var n := msg[p + 2];
        if n >= 1 && n + 3 <= elen {
          SubSlice(msg, p, p + elen, 3, 3 + n);
          var fb, lb := msg[p + 3], msg[p + 3 + n - 1];
          if IsAlnum(fb) && IsAlnum(lb) {
            first, last := fb, lb;
          } else {
            first, last := HexChar(fb / 16), HexChar(lb % 16);
          }
        }
      }
    }
  }

  /** A length-prefixed vector at the cursor: the bounds checks of the C code. */
  method ReadVec(msg: seq<byte>, p: nat, end: nat, wide: bool) returns (ok: bool, start: nat, next: nat)
    requires p <= end <= |msg|
    ensures ok ==> p <= start <= next <= end
    ensures (if wide then Vec16(msg[p..end]) else Vec8(msg[p..end]))
         == if ok then Some((msg[start..next], msg[next..end])) else None
  {
    ok, start, next := false, p, p;
    var size := if wide then 2 else 1;
    if end - p < size { return; }
    var n := if wide then U16At(msg, p) else msg[p];
    if end - p - size < n { return; }
    ok, start, next := true, p + size, p + size + n;
    SubSlice(msg, p, end, size, size + n);
    assert msg[p..end][size + n..] == msg[next..end];
  }

  method ParseExtensions(msg: seq<byte>, p0: nat, end: nat, parsed: Parsed, ghost step: Step)
    returns (ok: bool, out: Parsed)
    requires p0 <= end <= |msg| && parsed.Sound() && IsStep(step)
    ensures Walk(step, msg[p0..end], parsed.View()) == if ok then Some(out.View()) else None
    ensures out.Sound()
  {
    out := parsed;
    var p := p0;
    ghost var result := Walk(step, msg[p0..end], parsed.View());
    while end - p >= 4
      invariant p0 <= p <= end && out.Sound()
      invariant Walk(step, msg[p..end], out.View()) == result
    {
      ghost var p', f := p, out.View();
      ok, p, out := NextExtension(msg, p, end, out, step);
      WalkTurn(step, msg, p', end, f, ok, p, out.View(), result);
      if !ok { return; }
    }
    ok := true;
    WalkDone(step, msg[p..end], out.View());
  }

  /** One turn of the loop. */
  method NextExtension(msg: seq<byte>, p: nat, end: nat, parsed: Parsed, ghost step: Step)
    returns (ok: bool, next: nat, out: Parsed)
    requires p + 4 <= end <= |msg| && parsed.Sound() && IsStep(step)
    ensures out.Sound() && (ok <==> p + 4 + U16At(msg, p + 2) <= end)
    ensures ok ==> next == p + 4 + U16At(msg, p + 2)
    ensures ok ==> out.View() == step(parsed.View(), U16At(msg, p), msg[p + 4..next])
  {
    var elen := U16At(msg, p + 2);
    if end - (p + 4) < elen { return false, p, parsed; }
    ok, next := true, p + 4 + elen;
    out := ParseExtension(msg, U16At(msg, p), p + 4, elen, parsed, step);
  }

  lemma WalkDone(step: Step, s: seq<byte>, f: Facts)
    requires |s| < 4
    ensures Walk(step, s, f) == Some(f)
  {
  }

  lemma WalkTurn(step: Step, msg: seq<byte>, p: nat, end: nat, f: Facts, ok: bool, next: nat, g: Facts,
                 result: Option<Facts>)
    requires p + 4 <= end <= |msg| && Walk(step, msg[p..end], f) == result
    requires ok <==> p + 4 + U16At(msg, p + 2) <= end
    requires ok ==> next == p + 4 + U16At(msg, p + 2) && g == step(f, U16At(msg, p), msg[p + 4..next])
    ensures if ok then Walk(step, msg[next..end], g) == result else result == None
  {
    assert U16At(msg[p..end], 2) == U16At(msg, p + 2);
    if ok {
      SubSlice(msg, p, end, 4, next - p);
      assert msg[p..end][next - p..] == msg[next..end];
    }
  }

  /** The memset, and the ALPN defaults. */
  method NewParsed() returns (out: Parsed)
    ensures out.Sound() && out.View() == Facts(0, 0, [], [], [], false, false, ZERO, ZERO)
  {
    out := Parsed(0, 0, Buf(seq(MAX_CIPHERS, _ => 0), 0), Buf(seq(MAX_EXTENSIONS, _ => 0), 0),
                  Buf(seq(MAX_SIG_ALGS, _ => 0), 0), false, false, ZERO, ZERO);
  }

  /** ja4_parse_client_hello: 0 exactly on the messages of the grammar, with what the
      grammar says; every read is inside the message. */
  method ParseClientHello(msg: seq<byte>) returns (ok: bool, out: Parsed)
    ensures out.Sound()
    ensures ParseHello(msg) == if ok then Some(out.View()) else None
  {
    ok := false;
    out := NewParsed();
    if |msg| < 4 { return; }
    if msg[0] != 1 { return; }
    var bodyLen := 65536 * (msg[1] as int) + 256 * (msg[2] as int) + msg[3];
    if bodyLen + 4 > |msg| { return; }
    ok, out := ParseHelloBody(msg, 4, 4 + bodyLen, out);
  }

  method ParseHelloBody(msg: seq<byte>, p0: nat, end: nat, blank: Parsed) returns (ok: bool, out: Parsed)
    requires p0 <= end <= |msg| && blank.Sound()
    requires blank.View() == Facts(0, 0, [], [], [], false, false, ZERO, ZERO)
    ensures out.Sound()
    ensures ParseBody(msg[p0..end]) == if ok then Some(out.View()) else None
  {
    var p;
    ok, out, p := ParseHelloHead(msg, p0, end, blank);
    if !ok { return; }
    ok, out := ParseHelloTail(msg, p, end, out);
  }

  method ParseHelloHead(msg: seq<byte>, p0: nat, end: nat, blank: Parsed)
    returns (ok: bool, out: Parsed, p: nat)
    requires p0 <= end <= |msg| && blank.Sound()
    requires blank.View() == Facts(0, 0, [], [], [], false, false, ZERO, ZERO)
    ensures out.Sound() && (ok ==> p0 <= p <= end)
    ensures ParseHead(msg[p0..end]) == if ok then Some((out.View(), msg[p..end])) else None
  {
    ok, out, p := false, blank, p0;
    if end - p < 34 { return; }
    out := out.(legacyVersion := U16At(msg, p));
    p := p + 34;
    assert msg[p0..end][34..] == msg[p..end];
    var start;
    ok, start, p := ReadVec(msg, p, end, false);
    if !ok { return; }
    var ciphers;
    ghost var vs;
    ok, ciphers, p, vs := ReadCiphers(msg, p, end, out.ciphers);
    if !ok { return; }
    out := out.(ciphers := ciphers);
  }

  method ReadCiphers(msg: seq<byte>, p: nat, end: nat, list: Buf)
    returns (ok: bool, r: Buf, next: nat, ghost vs: seq<nat>)
    requires p <= end <= |msg| && 0 <= list.n <= |list.data| && list.Items() == []
    ensures 0 <= r.n <= |r.data| == |list.data|
    ensures ok ==> p <= next <= end && r.Items() == Take(NonGrease(vs), |list.data|)
    ensures CipherVec(msg[p..end]) == if ok then Some((vs, msg[next..end])) else None
  {
    var start;
    r, vs := list, [];
    ok, start, next := ReadVec(msg, p, end, true);
    if !ok { return; }
    if (next - start) % 2 != 0 { return false, list, p, []; }
    vs := U16s(msg[start..next]);
    r := ReadList(msg, start, next, list);
    assert [] + NonGrease(vs) == NonGrease(vs);
  }

  method ParseHelloTail(msg: seq<byte>, p0: nat, end: nat, parsed: Parsed) returns (ok: bool, out: Parsed)
    requires p0 <= end <= |msg| && parsed.Sound()
    ensures out.Sound()
    ensures ParseTail(msg[p0..end], parsed.View()) == if ok then Some(out.View()) else None
  {
    out := parsed;
    var start, p;
    ok, start, p := ReadVec(msg, p0, end, false);
    if !ok { return; }
    if p == end { return; }
    ok, start, p := ReadVec(msg, p, end, true);
    if !ok { return; }
    ok, out := ParseExtensions(msg, start, p, out, STEP);
  }
}
