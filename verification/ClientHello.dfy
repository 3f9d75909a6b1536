/** The ClientHello structure of section 4.1.2 of RFC 8446, its serialisation, and what
    a JA4 parse of it has to find.  The lower length bounds of the RFC's vectors are not
    required here, so the results hold for more messages than the RFC allows. */
module ClientHello {
  import opened Wrappers
  import opened Bytes
  import opened Ja4Parser

  type u16 = x: int | 0 <= x < 0x1_0000

  datatype Extension =
    | ServerName(data: seq<byte>)
    | SignatureAlgorithms(schemes: seq<u16>)
    | Alpn(names: seq<seq<byte>>)
    | SupportedVersions(versions: seq<u16>)
    | Other(code: u16, data: seq<byte>)
  {
    function Type(): u16
    {
      match this
      case ServerName(_) => 0
      case SignatureAlgorithms(_) => 13
      case Alpn(_) => 16
      case SupportedVersions(_) => 43
      case Other(code, _) => code
    }

    predicate Formed()
    {
      |Body()| < 0x1_0000 &&
      match this
      case ServerName(_) => true
      case SignatureAlgorithms(ss) => 2 * |ss| < 0x1_0000
      case Alpn(names) => |AlpnList(names)| < 0x1_0000 && forall i :: 0 <= i < |names| ==> |names[i]| < 256
      case SupportedVersions(vs) => 2 * |vs| < 256
      case Other(code, _) => code !in {0, 13, 16, 43}
    }

    function Body(): seq<byte>
    {
      match this
      case ServerName(data) => data
      case SignatureAlgorithms(ss) => U16Bytes(2 * |ss|) + U16sBytes(ss)
      case Alpn(names) => U16Bytes(|AlpnList(names)|) + AlpnList(names)
      case SupportedVersions(vs) => [2 * |vs| % 256] + U16sBytes(vs)
      case Other(_, data) => data
    }

    function Bytes(): seq<byte> { U16Bytes(Type()) + U16Bytes(|Body()|) + Body() }
  }

  datatype Hello = Hello(legacyVersion: u16, random: seq<byte>, sessionId: seq<byte>, ciphers: seq<u16>,
                         compression: seq<byte>, extensions: Option<seq<Extension>>)
  {
    predicate Formed()
    {
      && |random| == 32 && |sessionId| <= 32 && 2 * |ciphers| < 0x1_0000 && |compression| < 256
      && (extensions.Some? ==> (forall i :: 0 <= i < |extensions.value| ==> extensions.value[i].Formed())
                               && |ExtsBytes(extensions.value)| < 0x1_0000)
    }

    function Tail(): seq<byte>
    {
      [|compression| % 256] + compression
      + (if extensions.None? then []
         else U16Bytes(|ExtsBytes(extensions.value)|) + ExtsBytes(extensions.value))
    }

    function Body(): seq<byte>
    {
      U16Bytes(legacyVersion) + random + ([|sessionId| % 256] + sessionId
      + (U16Bytes(2 * |ciphers|) + U16sBytes(ciphers) + Tail()))
    }

    /** The handshake message: type 1, 24-bit length, body. */
    function Bytes(): seq<byte>
    {
      var n := |Body()|;
      [1, n / 256 / 256 % 256, n / 256 % 256, n % 256] + Body()
    }

    function ExtList(): seq<Extension>
    {
      if extensions.None? then [] else extensions.value
    }
  }

  function U16Bytes(n: nat): (s: seq<byte>)
    ensures |s| == 2
  {
    [n / 256 % 256, n % 256]
  }

  function U16sBytes(vs: seq<u16>): (s: seq<byte>)
    ensures |s| == 2 * |vs|
  {
    if vs == [] then [] else U16Bytes(vs[0]) + U16sBytes(vs[1..])
  }

  function AlpnList(names: seq<seq<byte>>): seq<byte>
  {
    if names == [] then [] else [|names[0]| % 256] + names[0] + AlpnList(names[1..])
  }

  function ExtsBytes(es: seq<Extension>): seq<byte>
  {
    if es == [] then [] else es[0].Bytes() + ExtsBytes(es[1..])
  }

  // ----- what a parse has to find

  function Types(es: seq<Extension>): seq<nat>
  {
    if es == [] then [] else [es[0].Type()] + Types(es[1..])
  }

  /** The signature schemes offered, over all signature_algorithms extensions. */
  function Schemes(es: seq<Extension>): seq<nat>
  {
    if es == [] then []
    else (if es[0].SignatureAlgorithms? then es[0].schemes else []) + Schemes(es[1..])
  }

  predicate Offers(es: seq<Extension>, code: nat)
  {
    exists i :: 0 <= i < |es| && es[i].Type() == code
  }

  /** The largest version in the last supported_versions extension, `d` without one. */
  function TopVersion(es: seq<Extension>, d: nat): nat
  {
    if es == [] then d
    else TopVersion(es[1..], if es[0].SupportedVersions? then MaxOf(NonGrease(es[0].versions)) else d)
  }

  /** The end characters of the first protocol of the last ALPN extension that has one. */
  function AlpnChars(es: seq<Extension>, d: (int, int)): (int, int)
  {
    if es == [] then d
    else AlpnChars(es[1..], if es[0].Alpn? && es[0].names != [] && es[0].names[0] != []
                            then AlpnEnds(es[0].names[0]) else d)
  }

  function Found(h: Hello): Facts
  {
    var es := h.ExtList();
    var ends := AlpnChars(es, (ZERO, ZERO));
    Facts(h.legacyVersion, TopVersion(es, 0), Take(NonGrease(h.ciphers), MAX_CIPHERS),
          Take(NonGrease(Types(es)), MAX_EXTENSIONS), Take(NonGrease(Schemes(es)), MAX_SIG_ALGS),
          Offers(es, 13), Offers(es, 0), ends.0, ends.1)
  }

  // ----- inversion

  lemma U16AtBytes(n: nat, rest: seq<byte>)
    requires n < 0x1_0000
    ensures U16At(U16Bytes(n) + rest, 0) == n
  {
  }

  lemma Vec16Inverts(v: seq<byte>, rest: seq<byte>)
    requires |v| < 0x1_0000
    ensures Vec16(U16Bytes(|v|) + v + rest) == Some((v, rest))
  {
    var s := U16Bytes(|v|) + v + rest;
    assert s == U16Bytes(|v|) + (v + rest);
    U16AtBytes(|v|, v + rest);
    assert s[2..2 + |v|] == v && s[2 + |v|..] == rest;
  }

  lemma Vec8Inverts(v: seq<byte>, rest: seq<byte>)
    requires |v| < 256
    ensures Vec8([|v| % 256] + v + rest) == Some((v, rest))
  {
    var s := [|v| % 256] + v + rest;
    assert s[1..1 + |v|] == v && s[1 + |v|..] == rest;
  }

  lemma {:induction false} U16sInverts(vs: seq<u16>)
    ensures U16s(U16sBytes(vs)) == vs
  {
    if vs != [] {
      U16sInverts(vs[1..]);
      U16AtBytes(vs[0], U16sBytes(vs[1..]));
      assert U16sBytes(vs)[2..] == U16sBytes(vs[1..]);
    }
  }

  lemma EvenLength(k: nat, n: nat)
    requires n == 2 * k
    ensures n % 2 == 0
  {
  }

  lemma SchemesRead(ss: seq<u16>)
    requires 2 * |ss| < 0x1_0000
    ensures SigAlgsIn(SignatureAlgorithms(ss).Body()) == NonGrease(ss)
  {
    var raw := U16sBytes(ss);
    EvenLength(|ss|, |raw|);
    SchemesIn(|raw|, raw);
    U16sInverts(ss);
  }

  lemma SchemesIn(n: nat, raw: seq<byte>)
    requires n == |raw| < 0x1_0000 && n % 2 == 0
    ensures SigAlgsIn(U16Bytes(n) + raw) == NonGrease(U16s(raw))
  {
    U16AtBytes(n, raw);
    assert (U16Bytes(n) + raw)[2..2 + n] == raw;
  }

  lemma VersionsRead(vs: seq<u16>)
    requires 2 * |vs| < 256
    ensures VersionsIn(SupportedVersions(vs).Body()) == Some(MaxOf(NonGrease(vs)))
  {
    var raw := U16sBytes(vs);
    EvenLength(|vs|, |raw|);
    VersionsAt(|raw|, raw);
    U16sInverts(vs);
  }

  lemma VersionsAt(n: nat, raw: seq<byte>)
    requires n == |raw| < 256 && n % 2 == 0
    ensures VersionsIn([n % 256] + raw) == Some(MaxOf(NonGrease(U16s(raw))))
  {
    SmallByte(n);
    VersionsOf(n, raw);
  }

  lemma SmallByte(n: nat)
    requires n < 256
    ensures n % 256 == n
  {
  }

  lemma VersionsOf(n: byte, raw: seq<byte>)
    requires n == |raw| && n % 2 == 0
    ensures VersionsIn([n] + raw) == Some(MaxOf(NonGrease(U16s(raw))))
  {
    var body := [n] + raw;
    assert body[0] == n && body[1..1 + n] == raw;
  }

  lemma AlpnRead(names: seq<seq<byte>>)
    requires Alpn(names).Formed()
    ensures AlpnName(Alpn(names).Body())
         == if names != [] && names[0] != [] then Some(names[0]) else None
  {
    var list := AlpnList(names);
    var body := Alpn(names).Body();
    U16AtBytes(|list|, list);
    if names != [] {
      var n := |names[0]|;
      assert body == U16Bytes(|list|) + [n % 256] + names[0] + AlpnList(names[1..]);
      assert body[2] == n;
      assert body[3..3 + n] == names[0];
    }
  }

  /** One extension has the effect its content calls for. */
  lemma StepRead(f: Facts, e: Extension)
    requires e.Formed()
    ensures ExtEffect(f, e.Type(), e.Body()) ==
      match e
      case ServerName(_) => f.(sni := true)
      case SignatureAlgorithms(ss) =>
        f.(hasSigAlgs := true, sigAlgs := Take(f.sigAlgs + NonGrease(ss), MAX_SIG_ALGS))
      case Alpn(names) => if names != [] && names[0] != []
                          then f.(alpnFirst := AlpnEnds(names[0]).0, alpnLast := AlpnEnds(names[0]).1) else f
      case SupportedVersions(vs) => f.(supportedMax := MaxOf(NonGrease(vs)))
      case Other(_, _) => f
  {
    match e
    case ServerName(_) =>
    case SignatureAlgorithms(ss) => SchemesRead(ss);
    case Alpn(names) => AlpnRead(names);
    case SupportedVersions(vs) => VersionsRead(vs);
    case Other(_, _) =>
  }

  /** The facts after reading a list of extensions on top of earlier facts. */
  function After(f: Facts, es: seq<Extension>): Facts
  {
    var ends := AlpnChars(es, (f.alpnFirst, f.alpnLast));
    Facts(f.legacyVersion, TopVersion(es, f.supportedMax), f.ciphers,
          Take(f.extensions + NonGrease(Types(es)), MAX_EXTENSIONS),
          Take(f.sigAlgs + NonGrease(Schemes(es)), MAX_SIG_ALGS),
          f.hasSigAlgs || Offers(es, 13), f.sni || Offers(es, 0), ends.0, ends.1)
  }

  lemma CutAgain(a: seq<nat>, b: seq<nat>, c: seq<nat>, cap: nat)
    ensures Take(Take(a + b, cap) + c, cap) == Take(a + (b + c), cap)
  {
    assert a + b + c == a + (b + c);
  }

  lemma OffersCons(e: Extension, rest: seq<Extension>, code: nat)
    ensures Offers([e] + rest, code) <==> e.Type() == code || Offers(rest, code)
  {
    var es := [e] + rest;
    assert es[0] == e && forall i :: 0 <= i < |rest| ==> es[i + 1] == rest[i];
    if Offers(es, code) {
      var i :| 0 <= i < |es| && es[i].Type() == code;
      assert i > 0 ==> rest[i - 1].Type() == code;
    }
  }

  lemma AfterLists(f: Facts, e: Extension, rest: seq<Extension>)
    ensures var es := [e] + rest;
      && Take(Take(f.extensions + NonGrease([e.Type()]), MAX_EXTENSIONS) + NonGrease(Types(rest)), MAX_EXTENSIONS)
         == Take(f.extensions + NonGrease(Types(es)), MAX_EXTENSIONS)
      && (e.SignatureAlgorithms? ==>
           Take(Take(f.sigAlgs + NonGrease(e.schemes), MAX_SIG_ALGS) + NonGrease(Schemes(rest)), MAX_SIG_ALGS)
           == Take(f.sigAlgs + NonGrease(Schemes(es)), MAX_SIG_ALGS))
      && (!e.SignatureAlgorithms? ==> Schemes(es) == Schemes(rest))
  {
    var es := [e] + rest;
    assert es[1..] == rest;
    NonGreaseConcat([e.Type()], Types(rest));
    CutAgain(f.extensions, NonGrease([e.Type()]), NonGrease(Types(rest)), MAX_EXTENSIONS);
    if e.SignatureAlgorithms? {
      NonGreaseConcat(e.schemes, Schemes(rest));
      CutAgain(f.sigAlgs, NonGrease(e.schemes), NonGrease(Schemes(rest)), MAX_SIG_ALGS);
    }
  }

  /** Reading one extension first. */
  lemma AfterCons(f: Facts, e: Extension, rest: seq<Extension>)
    requires e.Formed()
    ensures After(STEP(f, e.Type(), e.Body()), rest) == After(f, [e] + rest)
  {
    var es := [e] + rest;
    assert es[1..] == rest;
    var g := f.(extensions := Take(f.extensions + NonGrease([e.Type()]), MAX_EXTENSIONS));
    StepRead(g, e);
    AfterLists(f, e, rest);
    OffersCons(e, rest, 0);
    OffersCons(e, rest, 13);
  }

  lemma WalkCons(step: Step, e: Extension, rest: seq<byte>, f: Facts)
    requires |e.Body()| < 0x1_0000
    ensures Walk(step, e.Bytes() + rest, f) == Walk(step, rest, step(f, e.Type(), e.Body()))
  {
    var s, body := e.Bytes() + rest, e.Body();
    var n := |body|;
    assert s == U16Bytes(e.Type()) + (U16Bytes(n) + body + rest);
    U16AtBytes(e.Type(), U16Bytes(n) + body + rest);
    assert s[2..] == U16Bytes(n) + (body + rest);
    U16AtBytes(n, body + rest);
    assert U16At(s, 2) == U16At(s[2..], 0) == n;
    assert s[4..4 + n] == body && s[4 + n..] == rest;
  }

  lemma {:induction false} WalkInverts(es: seq<Extension>, f: Facts)
    requires forall i :: 0 <= i < |es| ==> es[i].Formed()
    requires |f.extensions| <= MAX_EXTENSIONS && |f.sigAlgs| <= MAX_SIG_ALGS
    ensures Walk(STEP, ExtsBytes(es), f) == Some(After(f, es))
  {
    if es == [] {
      assert f.extensions + [] == f.extensions && f.sigAlgs + [] == f.sigAlgs;
    } else {
      WalkCons(STEP, es[0], ExtsBytes(es[1..]), f);
      WalkInverts(es[1..], STEP(f, es[0].Type(), es[0].Body()));
      AfterCons(f, es[0], es[1..]);
      assert [es[0]] + es[1..] == es;
    }
  }

  lemma TailInverts(h: Hello, f: Facts)
    requires h.Formed() && |f.extensions| <= MAX_EXTENSIONS && |f.sigAlgs| <= MAX_SIG_ALGS
    ensures ParseTail(h.Tail(), f) == Some(After(f, h.ExtList()))
  {
    if h.extensions.None? {
      Vec8Inverts(h.compression, []);
      assert h.Tail() == [|h.compression| % 256] + h.compression + [];
      assert f.extensions + [] == f.extensions && f.sigAlgs + [] == f.sigAlgs;
    } else {
      var block := ExtsBytes(h.extensions.value);
      Vec8Inverts(h.compression, U16Bytes(|block|) + block);
      Vec16Inverts(block, []);
      assert U16Bytes(|block|) + block + [] == U16Bytes(|block|) + block;
      WalkInverts(h.extensions.value, f);
    }
  }

  lemma HeadInverts(h: Hello)
    requires h.Formed()
    ensures ParseHead(h.Body()) == Some((BaseFacts(h.legacyVersion, h.ciphers), h.Tail()))
  {
    var suites := U16Bytes(2 * |h.ciphers|) + U16sBytes(h.ciphers) + h.Tail();
    var rest := [|h.sessionId| % 256] + h.sessionId + suites;
    PastRandom(h.legacyVersion, h.random, rest);
    Vec8Inverts(h.sessionId, suites);
    CiphersInvert(h.ciphers, h.Tail());
  }

  lemma PastRandom(version: u16, random: seq<byte>, rest: seq<byte>)
    requires |random| == 32
    ensures var b := U16Bytes(version) + random + rest; |b| >= 34 && U16At(b, 0) == version && b[34..] == rest
  {
    var b := U16Bytes(version) + random + rest;
    assert b[0] == U16Bytes(version)[0] && b[1] == U16Bytes(version)[1];
  }

  lemma CiphersInvert(vs: seq<u16>, rest: seq<byte>)
    requires 2 * |vs| < 0x1_0000
    ensures CipherVec(U16Bytes(2 * |vs|) + U16sBytes(vs) + rest) == Some((vs, rest))
  {
    var raw := U16sBytes(vs);
    EvenLength(|vs|, |raw|);
    Vec16Inverts(raw, rest);
    U16sInverts(vs);
  }

  /** A length below 2^24 is its three bytes. */
  lemma ThreeBytes(n: nat)
    requires n < 0x100_0000
    ensures 65536 * (n / 256 / 256 % 256) + 256 * (n / 256 % 256) + n % 256 == n
  {
    var h := n / 256;
    assert n == 256 * h + n % 256 && h == 256 * (h / 256) + h % 256;
    assert h / 256 % 256 == h / 256;
  }

  /** The handshake header around a body. */
  lemma FrameInverts(b: seq<byte>)
    requires |b| < 0x100_0000
    ensures ParseHello([1, |b| / 256 / 256 % 256, |b| / 256 % 256, |b| % 256] + b) == ParseBody(b)
  {
    ThreeBytes(|b|);
    FrameOf(|b| / 256 / 256 % 256, |b| / 256 % 256, |b| % 256, b);
  }

  lemma FrameOf(x: byte, y: byte, z: byte, b: seq<byte>)
    requires 65536 * x + 256 * y + z == |b|
    ensures ParseHello([1, x, y, z] + b) == ParseBody(b)
  {
    var s := [1, x, y, z] + b;
    assert s[0] == 1 && s[1] == x && s[2] == y && s[3] == z && |s| == 4 + |b|;
    assert s[4..4 + |b|] == b;
  }

  lemma BodySize(h: Hello)
    requires h.Formed()
    ensures |h.Body()| < 0x100_0000
  {
  }

  /** Parsing the serialisation of a ClientHello finds exactly what it contains: the
      GREASE-free lists in order, cut at the capacities, the top version, whether SNI is
      present, and the ALPN characters. */
  lemma ParseInverts(h: Hello)
    requires h.Formed()
    ensures ParseHello(h.Bytes()) == Some(Found(h))
  {
    BodySize(h);
    FrameInverts(h.Body());
    HeadInverts(h);
    TailInverts(h, BaseFacts(h.legacyVersion, h.ciphers));
    FoundIsAfter(h);
  }

  lemma FoundIsAfter(h: Hello)
    ensures Found(h) == After(BaseFacts(h.legacyVersion, h.ciphers), h.ExtList())
  {
    var es := h.ExtList();
    assert [] + NonGrease(Types(es)) == NonGrease(Types(es));
    assert [] + NonGrease(Schemes(es)) == NonGrease(Schemes(es));
  }
}
